/** The letters and digits of ASCII, spelled out. */
module Ascii {
  const UPPER: string := "ABCDEFGHIJKLMNOPQRSTUVWXYZ"
  const LOWER: string := "abcdefghijklmnopqrstuvwxyz"
  const DIGITS: string := "0123456789"

  lemma LettersAt(i: nat)
    ensures i < 26 ==> UPPER[i] == 'A' + i as char && LOWER[i] == 'a' + i as char
    ensures i < 10 ==> DIGITS[i] == '0' + i as char
  {
  }

  lemma LettersAre(c: char)
    ensures c in UPPER <==> 'A' <= c <= 'Z'
    ensures c in LOWER <==> 'a' <= c <= 'z'
    ensures c in DIGITS <==> '0' <= c <= '9'
  {
  }
}
