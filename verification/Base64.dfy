/** Base64 as module/http.c writes and reads it (sections 3.5 and 4 of RFC 4648). */
module Base64 {
  import opened Ascii
  import opened Lists

  function CharAt(i: nat): char
    requires i < 64
  {
    if i < 26 then 'A' + i as char
    else if i < 52 then 'a' + (i - 26) as char
    else if i < 62 then '0' + (i - 52) as char
    else if i == 62 then '+' else '/'
  }

  /** `base64_chars`: A-Z, a-z, 0-9, + and /. */
  function Alphabet(): (r: string)
    ensures |r| == 64 && forall i :: 0 <= i < 64 ==> r[i] == CharAt(i)
  {
    seq(64, i requires 0 <= i < 64 => CharAt(i))
  }

  /** `strchr`: the first position of a character. */
  function StrChr(s: string, c: char): (r: Option<nat>)
    ensures r.Some? ==> r.value < |s| && s[r.value] == c && c !in s[..r.value]
    ensures r.None? ==> c !in s
  {
    if s == "" then None
    else if s[0] == c then Some(0)
    else match StrChr(s[1..], c)
      case None => None
      case Some(i) => Some(i + 1)
  }

  function Letter(x: bv8): char
    requires x < 64
  {
    CharAt(x as int)
  }

  /** What the decoder makes of one input character: padding and strangers count as zero. */
  function Sextet(c: char): bv8 {
    if c == '=' then 0
    else match StrChr(Alphabet(), c)
      case None => 0
      case Some(i) => i as bv8
  }

  // ---------- Groups of three bytes and four characters ----------

  function Byte(g: Bytes, i: nat): bv8 {
    if i < |g| then g[i] else 0
  }

  /** 24 bits as four sextets. */
  function Split(a: bv8, b: bv8, c: bv8): (r: (bv8, bv8, bv8, bv8))
    ensures r.0 < 64 && r.1 < 64 && r.2 < 64 && r.3 < 64
  {
    ((a >> 2) & 0x3F, ((a << 4) | (b >> 4)) & 0x3F, ((b << 2) | (c >> 6)) & 0x3F, c & 0x3F)
  }

  /** One turn of the encoder's loop, on up to three bytes. */
  function EncodeGroup(g: Bytes): (q: string)
    requires 1 <= |g| <= 3
    ensures |q| == 4
  {
    var s := Split(Byte(g, 0), Byte(g, 1), Byte(g, 2));
    [Letter(s.0), Letter(s.1), if |g| > 1 then Letter(s.2) else '=', if |g| > 2 then Letter(s.3) else '=']
  }

  function Encode(data: Bytes): (s: string)
    ensures |s| == (|data| + 2) / 3 * 4 && |s| % 4 == 0
  {
    if data == [] then ""
    else if |data| <= 3 then EncodeGroup(data)
    else EncodeGroup(data[..3]) + Encode(data[3..])
  }

  function Join(w: bv8, x: bv8, y: bv8, z: bv8): (g: Bytes)
    ensures |g| == 3
  {
    [(w << 2) | (x >> 4), (x << 4) | (y >> 2), (y << 6) | z]
  }

  /** One turn of the decoder's loop, before the output length cuts it. */
  function DecodeGroup(q: string): (g: Bytes)
    requires |q| == 4
    ensures |g| == 3
  {
    Join(Sextet(q[0]), Sextet(q[1]), Sextet(q[2]), Sextet(q[3]))
  }

  function DecodeGroups(s: string): (r: Bytes)
    requires |s| % 4 == 0
    ensures |r| == |s| / 4 * 3
  {
    if s == "" then [] else DecodeGroup(s[..4]) + DecodeGroups(s[4..])
  }

  function OutputLength(s: string): (n: nat)
    requires |s| % 4 == 0
    ensures n <= |s| / 4 * 3
  {
    var n := |s| / 4 * 3;
    var n1 := if |s| > 0 && s[|s| - 1] == '=' then n - 1 else n;
    if |s| > 1 && s[|s| - 2] == '=' then n1 - 1 else n1
  }

  function Decode(s: string): Option<Bytes> {
    if |s| % 4 != 0 then None else Some(DecodeGroups(s)[..OutputLength(s)])
  }

  // ---------- Bits ----------

  lemma CharsDistinct(i: nat, j: nat)
    requires i < 64 && j < 64 && CharAt(i) == CharAt(j)
    ensures i == j
  {
  }

  lemma CharNotPadding(i: nat)
    requires i < 64
    ensures CharAt(i) != '=' && CharAt(i) != '"'
  {
  }

  /** `strchr` inverts the table. */
  lemma StrChrInverse(i: nat)
    requires i < 64
    ensures StrChr(Alphabet(), CharAt(i)) == Some(i)
  {
    var r := StrChr(Alphabet(), CharAt(i));
    assert Alphabet()[i] == CharAt(i);
    CharsDistinct(i, r.value);
  }

  lemma BitsOfIndex(x: bv8)
    ensures (x as int) as bv8 == x && (x < 64 <==> x as int < 64)
  {
  }

  lemma IndexOfBits(i: nat)
    requires i < 64
    ensures (i as bv8) as int == i && i as bv8 < 64
  {
    BitsOfIndex(i as bv8);
  }

  lemma LetterInverse(x: bv8)
    requires x < 64
    ensures Sextet(Letter(x)) == x && Letter(x) != '=' && Letter(x) in Alphabet()
  {
    BitsOfIndex(x);
    CharNotPadding(x as int);
    StrChrInverse(x as int);
  }

  lemma SextetInverse(c: char)
    requires c in Alphabet()
    ensures Sextet(c) < 64 && Letter(Sextet(c)) == c && c != '='
  {
    var i :| 0 <= i < 64 && Alphabet()[i] == c;
    CharNotPadding(i);
    StrChrInverse(i);
    IndexOfBits(i);
  }

  lemma SplitJoin(a: bv8, b: bv8, c: bv8)
    ensures var s := Split(a, b, c); Join(s.0, s.1, s.2, s.3) == [a, b, c]
  {
  }

  lemma JoinSplit(w: bv8, x: bv8, y: bv8, z: bv8)
    requires w < 64 && x < 64 && y < 64 && z < 64
    ensures var g := Join(w, x, y, z); Split(g[0], g[1], g[2]) == (w, x, y, z)
  {
  }

  /** Missing bytes contribute zero bits; the last letter before padding has zero low bits. */
  lemma PaddingBits(a: bv8, b: bv8)
    ensures Split(a, 0, 0).2 == 0 && Split(a, b, 0).3 == 0
    ensures Split(a, 0, 0).1 & 0x0F == 0 && Split(a, b, 0).2 & 0x03 == 0
  {
  }

  /** The sextets behind a group's characters; padding reads as the zero bits of the missing bytes. */
  lemma GroupSextets(g: Bytes)
    requires 1 <= |g| <= 3
    ensures var q := EncodeGroup(g);
            (Sextet(q[0]), Sextet(q[1]), Sextet(q[2]), Sextet(q[3])) == Split(Byte(g, 0), Byte(g, 1), Byte(g, 2))
  {
    var s := Split(Byte(g, 0), Byte(g, 1), Byte(g, 2));
    LetterInverse(s.0);
    LetterInverse(s.1);
    LetterInverse(s.2);
    LetterInverse(s.3);
    PaddingBits(Byte(g, 0), Byte(g, 1));
    assert Sextet('=') == 0;
    hide Letter, Sextet, Split;
  }

  lemma GroupBack(g: Bytes)
    requires 1 <= |g| <= 3
    ensures DecodeGroup(EncodeGroup(g)) == [Byte(g, 0), Byte(g, 1), Byte(g, 2)]
    ensures DecodeGroup(EncodeGroup(g))[..|g|] == g
  {
    GroupSextets(g);
    SplitJoin(Byte(g, 0), Byte(g, 1), Byte(g, 2));
    hide Letter, Sextet, EncodeGroup, Join, Split;
    GroupPrefix(g);
  }

  lemma GroupPrefix(g: Bytes)
    requires 1 <= |g| <= 3
    ensures [Byte(g, 0), Byte(g, 1), Byte(g, 2)][..|g|] == g
  {
    var p := [Byte(g, 0), Byte(g, 1), Byte(g, 2)];
    assert p[0] == g[0];
    assert |g| > 1 ==> p[1] == g[1];
    assert |g| > 2 ==> p[2] == g[2];
  }

  // ---------- Whole strings ----------

  predicate IsLetter(c: char) {
    c in Alphabet()
  }

  lemma EncodedGroup(g: Bytes)
    requires 1 <= |g| <= 3
    ensures var q := EncodeGroup(g);
            && IsLetter(q[0]) && IsLetter(q[1])
            && (if |g| > 1 then IsLetter(q[2]) else q[2] == '=')
            && (if |g| > 2 then IsLetter(q[3]) else q[3] == '=')
            && !IsLetter('=')
  {
    var s := Split(Byte(g, 0), Byte(g, 1), Byte(g, 2));
    LetterInverse(s.0);
    LetterInverse(s.1);
    LetterInverse(s.2);
    LetterInverse(s.3);
    forall i | 0 <= i < 64 ensures Alphabet()[i] != '=' { CharNotPadding(i); }
    hide Letter, Alphabet, Split;
  }

  /** The encoder writes 4 characters for every 3 bytes begun, and ends in as many = as bytes are missing. */
  lemma {:induction false} EncodeShape(data: Bytes)
    ensures var s := Encode(data);
            && OutputLength(s) == |data|
            && forall i :: 0 <= i < |s| ==> IsLetter(s[i]) || s[i] == '='
  {
    hide EncodeGroup, IsLetter;
    if data != [] && |data| <= 3 {
      EncodedGroup(data);
    } else if data != [] {
      EncodedGroup(data[..3]);
      EncodeShape(data[3..]);
      var s, t := Encode(data), Encode(data[3..]);
      assert s == EncodeGroup(data[..3]) + t;
      assert |t| >= 4 && s[|s| - 1] == t[|t| - 1] && s[|s| - 2] == t[|t| - 2];
    }
  }

  lemma {:induction false} GroupsBack(data: Bytes)
    ensures data <= DecodeGroups(Encode(data))
  {
    hide EncodeGroup, DecodeGroup, Alphabet, CharAt, IsLetter;
    if data != [] && |data| <= 3 {
      GroupBack(data);
      var q := Encode(data);
      assert q[..4] == q && q[4..] == "";
      assert DecodeGroups(q) == DecodeGroup(q) + [];
    } else if data != [] {
      var h, t := data[..3], data[3..];
      GroupBack(h);
      GroupsBack(t);
      var s := Encode(data);
      assert s[..4] == EncodeGroup(h) && s[4..] == Encode(t);
      assert DecodeGroups(s) == DecodeGroup(EncodeGroup(h)) + DecodeGroups(Encode(t));
      assert data == h + t;
    }
  }

  /** Decoding the encoding of any bytes returns them. */
  lemma DecodeEncode(data: Bytes)
    ensures Decode(Encode(data)) == Some(data)
  {
    hide Encode, DecodeGroups, IsLetter, OutputLength;
    EncodeShape(data);
    GroupsBack(data);
    assert DecodeGroups(Encode(data))[..|data|] == data;
  }

  /** The last group: padding only at the end, and no stray bits under it. */
  predicate CanonicalTail(q: string)
    requires |q| == 4
  {
    && IsLetter(q[0]) && IsLetter(q[1])
    && if q[3] != '=' then IsLetter(q[2]) && IsLetter(q[3])
       else if q[2] != '=' then IsLetter(q[2]) && Sextet(q[2]) & 0x03 == 0
       else Sextet(q[1]) & 0x0F == 0
  }

  predicate AllLetters(q: string)
    requires |q| == 4
  {
    IsLetter(q[0]) && IsLetter(q[1]) && IsLetter(q[2]) && IsLetter(q[3])
  }

  /** The canonical strings of section 3.5. */
  predicate Canonical(s: string) {
    if |s| % 4 != 0 then false
    else if s == "" then true
    else if |s| == 4 then CanonicalTail(s)
    else AllLetters(s[..4]) && Canonical(s[4..])
  }

  lemma EncodedTail(g: Bytes)
    requires 1 <= |g| <= 3
    ensures CanonicalTail(EncodeGroup(g))
  {
    EncodedGroup(g);
    GroupSextets(g);
    PaddingBits(Byte(g, 0), Byte(g, 1));
    hide EncodeGroup, Alphabet, Sextet, Split;
  }

  lemma FullGroup(g: Bytes)
    requires |g| == 3
    ensures AllLetters(EncodeGroup(g))
  {
    EncodedGroup(g);
  }

  lemma {:induction false} EncodeIsCanonical(data: Bytes)
    ensures Canonical(Encode(data))
  {
    hide EncodeGroup, AllLetters, CanonicalTail;
    if data != [] && |data| <= 3 {
      EncodedTail(data);
    } else if data != [] {
      FullGroup(data[..3]);
      EncodeIsCanonical(data[3..]);
      var s := Encode(data);
      assert s == EncodeGroup(data[..3]) + Encode(data[3..]);
      assert s[4..] == Encode(data[3..]) && s[..4] == EncodeGroup(data[..3]);
    }
  }

  lemma TailBits(w: bv8, x: bv8, y: bv8, z: bv8)
    requires w < 64 && x < 64 && y < 64 && z < 64
    ensures y & 0x03 == 0 && z == 0 ==> Join(w, x, y, z)[2] == 0
    ensures x & 0x0F == 0 && y == 0 && z == 0 ==> Join(w, x, y, z)[1] == 0 && Join(w, x, y, z)[2] == 0
  {
  }

  lemma SextetBound(c: char)
    ensures Sextet(c) < 64
  {
    if c in Alphabet() { SextetInverse(c); }
  }

  /** A canonical group is what its own bytes encode to. */
  lemma GroupForth(q: string)
    requires |q| == 4 && CanonicalTail(q)
    ensures var n := OutputLength(q); 1 <= n <= 3 && EncodeGroup(DecodeGroup(q)[..n]) == q
  {
    var w, x, y, z := Sextet(q[0]), Sextet(q[1]), Sextet(q[2]), Sextet(q[3]);
    SextetBound(q[0]);
    SextetBound(q[1]);
    SextetBound(q[2]);
    SextetBound(q[3]);
    TailBits(w, x, y, z);
    JoinSplit(w, x, y, z);
    SextetInverse(q[0]);
    SextetInverse(q[1]);
    if q[2] != '=' { SextetInverse(q[2]); }
    if q[3] != '=' { SextetInverse(q[3]); }
    assert Sextet('=') == 0;
    hide Letter, Alphabet, Sextet, Join, Split, IsLetter;
    var n := OutputLength(q);
    var g := DecodeGroup(q)[..n];
    assert [Byte(g, 0), Byte(g, 1), Byte(g, 2)] == Join(w, x, y, z);
  }

  lemma LettersGroupForth(q: string)
    requires |q| == 4 && AllLetters(q)
    ensures EncodeGroup(DecodeGroup(q)) == q
  {
    forall i | 0 <= i < 4 ensures q[i] != '=' {
      SextetInverse(q[i]);
    }
    GroupForth(q);
    assert DecodeGroup(q)[..3] == DecodeGroup(q);
  }

  lemma DecodeStep(s: string)
    requires |s| % 4 == 0 && |s| > 4
    ensures DecodeGroups(s) == DecodeGroup(s[..4]) + DecodeGroups(s[4..])
    ensures OutputLength(s) == 3 + OutputLength(s[4..])
  {
    hide DecodeGroup;
    var t := s[4..];
    assert t[|t| - 1] == s[|s| - 1] && t[|t| - 2] == s[|s| - 2];
  }

  lemma EncodeStep(d: Bytes)
    requires d != []
    ensures var k := if |d| < 3 then |d| else 3;
            Encode(d) == EncodeGroup(d[..k]) + Encode(d[k..])
  {
    hide EncodeGroup;
    if |d| <= 3 {
      assert d[..|d|] == d;
      assert Encode(d[|d|..]) == "";
    }
  }

  lemma {:induction false} CanonicalForth(s: string)
    requires Canonical(s)
    ensures Encode(DecodeGroups(s)[..OutputLength(s)]) == s
    ensures s != "" ==> OutputLength(s) > 0
  {
    hide EncodeGroup, DecodeGroup, AllLetters, CanonicalTail, OutputLength, DecodeGroups;
    if |s| == 4 {
      GroupForth(s);
      LastGroup(s);
    } else if s != "" {
      var q, t := s[..4], s[4..];
      LettersGroupForth(q);
      CanonicalForth(t);
      DecodeStep(s);
      var d := DecodeGroups(s)[..OutputLength(s)];
      var e := DecodeGroups(t)[..OutputLength(t)];
      assert d == DecodeGroup(q) + e;
      EncodeStep(d);
      assert d[..3] == DecodeGroup(q) && d[3..] == e;
      assert s == q + t;
    }
  }

  lemma LastGroup(s: string)
    requires |s| == 4
    ensures DecodeGroups(s) == DecodeGroup(s)
  {
    hide DecodeGroup;
    assert s[..4] == s && s[4..] == "";
    assert DecodeGroups(s) == DecodeGroup(s) + [];
  }

  /** Re-encoding a decoded string returns it exactly for the canonical strings. */
  lemma EncodeDecode(s: string)
    requires |s| % 4 == 0
    ensures Encode(Decode(s).value) == s <==> Canonical(s)
  {
    if Canonical(s) { CanonicalForth(s); }
    EncodeIsCanonical(Decode(s).value);
  }

  // ---------- The encoding, character by character ----------

  /** Table 1 of RFC 4648. */
  function Table(): (r: string)
    ensures |r| == 64
  {
    UPPER + LOWER + DIGITS + "+/"
  }

  lemma CharIs(i: nat)
    requires i < 64
    ensures CharAt(i) == Table()[i]
  {
    var t := Table();
    if i < 26 {
      LettersAt(i);
    } else if i < 52 {
      LettersAt(i - 26);
      assert t[i] == LOWER[i - 26];
    } else if i < 62 {
      LettersAt(i - 52);
      assert t[i] == DIGITS[i - 52];
    }
  }

  /** The decoder reads a character as its place in the table, and padding and strangers as zero. */
  lemma SextetIs(c: char, i: nat)
    ensures i < 64 && Table()[i] == c ==> Sextet(c) as int == i
    ensures c !in Table() ==> Sextet(c) == 0
  {
    hide Table;
    AlphabetIs();
    if i < 64 && Table()[i] == c {
      CharIs(i);
      StrChrInverse(i);
      IndexOfBits(i);
    }
  }

  lemma AlphabetIs()
    ensures Alphabet() == Table()
  {
    hide Table;
    forall i | 0 <= i < 64 ensures Alphabet()[i] == Table()[i] { CharIs(i); }
  }

  /** 24 bits: three bytes in a row. */
  function Bits(a: bv8, b: bv8, c: bv8): bv24 {
    (a as bv24 << 16) | (b as bv24 << 8) | c as bv24
  }

  /** The bits of three bytes from a position, missing ones as zeros. */
  function BitsAt(data: Bytes, at: nat): bv24 {
    Bits(Byte(data, at), Byte(data, at + 1), Byte(data, at + 2))
  }

  /** Six of 24 bits, counted from the left. */
  function Six(bits: bv24, i: nat): (n: nat)
    requires i < 4
    ensures n < 64
  {
    var six := (bits >> (18 - 6 * i)) & 0x3F;
    SmallBits(six);
    six as int
  }

  lemma SmallBits(x: bv24)
    ensures x < 64 ==> x as int < 64
  {
  }

  lemma WideBits(x: bv8)
    ensures x as int == x as bv24 as int
  {
  }

  lemma SplitIs(a: bv8, b: bv8, c: bv8)
    ensures var s, bits := Split(a, b, c), Bits(a, b, c);
            && s.0 as bv24 == (bits >> 18) & 0x3F && s.1 as bv24 == (bits >> 12) & 0x3F
            && s.2 as bv24 == (bits >> 6) & 0x3F && s.3 as bv24 == (bits >> 0) & 0x3F
  {
  }

  /** The encoder's four sextets are the 24 bits from left to right. */
  lemma SextetsAre(a: bv8, b: bv8, c: bv8)
    ensures var s, bits := Split(a, b, c), Bits(a, b, c);
            && s.0 as int == Six(bits, 0) && s.1 as int == Six(bits, 1)
            && s.2 as int == Six(bits, 2) && s.3 as int == Six(bits, 3)
  {
    var s := Split(a, b, c);
    SplitIs(a, b, c);
    WideBits(s.0);
    WideBits(s.1);
    WideBits(s.2);
    WideBits(s.3);
    hide Split, Bits;
  }

  lemma LetterIs(x: bv8, n: nat)
    requires x < 64 && x as int == n < 64
    ensures Letter(x) == Table()[n]
  {
    CharIs(n);
    hide Table;
  }

  lemma GroupIs(g: Bytes, i: nat)
    requires 1 <= |g| <= 3 && i < 4
    ensures EncodeGroup(g)[i] == if i > |g| then '=' else Table()[Six(BitsAt(g, 0), i)]
  {
    var a, b, c := Byte(g, 0), Byte(g, 1), Byte(g, 2);
    var s := Split(a, b, c);
    SextetsAre(a, b, c);
    hide Table, Split, Bits, Six, Letter, Byte;
    var bits := Bits(a, b, c);
    assert BitsAt(g, 0) == bits;
    LetterIs(s.0, Six(bits, 0));
    LetterIs(s.1, Six(bits, 1));
    LetterIs(s.2, Six(bits, 2));
    LetterIs(s.3, Six(bits, 3));
  }

  /** The k-th character of an encoding: six bits of its group of three bytes, looked up in the table, or padding where
      no byte contributes. */
  lemma {:induction false} EncodedAt(data: Bytes, k: nat)
    requires k < |Encode(data)|
    ensures Encode(data)[k] ==
            if 3 * (k / 4) + k % 4 > |data| then '=' else Table()[Six(BitsAt(data, 3 * (k / 4)), k % 4)]
  {
    hide EncodeGroup, Table, Six, CharAt, Bits;
    if |data| <= 3 {
      assert k / 4 == 0 && k % 4 == k;
      GroupIs(data, k);
    } else if k < 4 {
      assert k / 4 == 0 && k % 4 == k;
      GroupIs(data[..3], k);
      assert BitsAt(data[..3], 0) == BitsAt(data, 0);
    } else {
      EncodedAt(data[3..], k - 4);
      LaterGroup(data, k);
    }
  }

  lemma LaterGroup(data: Bytes, k: nat)
    requires |data| > 3 && k >= 4
    ensures (k - 4) / 4 == k / 4 - 1 && (k - 4) % 4 == k % 4
    ensures BitsAt(data[3..], 3 * (k / 4 - 1)) == BitsAt(data, 3 * (k / 4))
  {
    hide Bits;
  }

  // ---------- The loops of http.c ----------

  const EINVAL: int := -22

  /** `bytes_to_base64`: refuses a buffer without room for the characters and the terminator. */
  method BytesToBase64(bytes: array<bv8>, base64: array<char>) returns (ret: int)
    modifies base64
    ensures ret == (if base64.Length < (bytes.Length + 2) / 3 * 4 + 1 then EINVAL else 0)
    ensures ret == 0 ==>
              base64[..] == Encode(bytes[..]) + ['\0'] + old(base64[(bytes.Length + 2) / 3 * 4 + 1..])
    ensures ret != 0 ==> base64[..] == old(base64[..])
  {
    hide Encode, EncodeGroup;
    if base64.Length < (bytes.Length + 2) / 3 * 4 + 1 {
      return EINVAL;
    }
    var j := EncodeInto(bytes[..], base64);
    base64[j] := '\0';
    assert base64[j + 1..] == old(base64[j + 1..]);
    assert base64[..] == base64[..j] + [base64[j]] + base64[j + 1..];
    ret := 0;
  }

  /** The encoder's loop. */
  method EncodeInto(data: Bytes, base64: array<char>) returns (j: nat)
    requires |Encode(data)| < base64.Length
    modifies base64
    ensures j == |Encode(data)| && base64[..j] == Encode(data)
    ensures forall k :: j <= k < base64.Length ==> base64[k] == old(base64[k])
  {
    hide Encode, EncodeGroup;
    var i := 0;
    j := 0;
    assert data[0..] == data;
    while i < |data|
      invariant j <= |Encode(data)|
      invariant Encode(data) == base64[..j] + Encode(Rest(data, i))
      invariant forall k :: j <= k < base64.Length ==> base64[k] == old(base64[k])
    {
      var k := if |data| - i < 3 then |data| - i else 3;
      EncodeTurn(data, i, k, base64[..j]);
      EncodeFour(data[i..i + k], base64, j);
      i, j := i + 3, j + 4;
    }
    EncodeNothing();
  }

  /** What the loop has not read yet; its last step may overshoot. */
  function Rest(data: Bytes, i: nat): Bytes {
    if i <= |data| then data[i..] else []
  }

  lemma EncodeTurn(data: Bytes, i: nat, k: nat, done: string)
    requires i < |data| && k == (if |data| - i < 3 then |data| - i else 3)
    requires Encode(data) == done + Encode(Rest(data, i))
    ensures |done| + 4 <= |Encode(data)|
    ensures Encode(data) == (done + EncodeGroup(data[i..i + k])) + Encode(Rest(data, i + 3))
  {
    hide Encode, EncodeGroup;
    var rest := Rest(data, i);
    EncodeStep(rest);
    assert rest[..k] == data[i..i + k] && rest[k..] == Rest(data, i + 3);
  }

  lemma EncodeNothing()
    ensures Encode([]) == ""
  {
  }

  /** The body of the encoder's loop, on the bytes that are left for it. */
  method EncodeFour(g: Bytes, base64: array<char>, j: nat)
    requires 1 <= |g| <= 3 && j + 4 <= base64.Length
    modifies base64
    ensures base64[..j + 4] == old(base64[..j]) + EncodeGroup(g)
    ensures forall k :: j + 4 <= k < base64.Length ==> base64[k] == old(base64[k])
  {
    hide Split, Letter, Byte;
    GroupBytes(g);
    var s := Split(g[0], if |g| > 1 then g[1] else 0, if |g| > 2 then g[2] else 0);
    base64[j] := Letter(s.0);
    base64[j + 1] := Letter(s.1);
    base64[j + 2] := if |g| > 1 then Letter(s.2) else '=';
    base64[j + 3] := if |g| > 2 then Letter(s.3) else '=';
    assert base64[j..j + 4] == EncodeGroup(g);
  }

  lemma GroupBytes(g: Bytes)
    requires 1 <= |g| <= 3
    ensures Byte(g, 0) == g[0]
    ensures Byte(g, 1) == if |g| > 1 then g[1] else 0
    ensures Byte(g, 2) == if |g| > 2 then g[2] else 0
  {
  }

  /** `base64_decode`: the caller provides room for the decoded bytes. */
  method Base64Decode(input: string, output: array<bv8>) returns (ret: int, outputLen: nat)
    requires |input| % 4 == 0 ==> OutputLength(input) <= output.Length
    modifies output
    ensures ret == (if |input| % 4 != 0 then EINVAL else 0)
    ensures ret == 0 ==> outputLen == OutputLength(input) && Some(output[..outputLen]) == Decode(input)
    ensures ret == 0 ==> output[outputLen..] == old(output[outputLen..])
    ensures ret != 0 ==> output[..] == old(output[..])
  {
    outputLen := 0;
    if |input| % 4 != 0 {
      return EINVAL, outputLen;
    }
    outputLen := |input| / 4 * 3;
    if |input| > 0 && input[|input| - 1] == '=' { outputLen := outputLen - 1; }
    if |input| > 1 && input[|input| - 2] == '=' { outputLen := outputLen - 1; }
    assert outputLen == OutputLength(input);
    DecodeInto(input, output, outputLen);
    ret := 0;
  }

  /** The decoder's loop. */
  method DecodeInto(input: string, output: array<bv8>, outputLen: nat)
    requires |input| % 4 == 0 && outputLen <= output.Length && outputLen <= |input| / 4 * 3
    modifies output
    ensures output[..outputLen] == DecodeGroups(input)[..outputLen]
    ensures output[outputLen..] == old(output[outputLen..])
  {
    hide DecodeGroup, DecodeGroups;
    ghost var all := DecodeGroups(input);
    var turns := |input| / 4;
    ghost var n := 0;
    assert |input| == 4 * turns && |all| == 3 * turns;
    var i, j := 0, 0;
    assert input[0..] == input && all[0..] == all;
    while i < |input|
      invariant 0 <= n <= turns && i == 4 * n
      invariant j == if 3 * n < outputLen then 3 * n else outputLen
      invariant all[3 * n..] == DecodeGroups(input[i..])
      invariant output[..j] == all[..j]
      invariant output[outputLen..] == old(output[outputLen..])
    {
      DecodeTurn(input, all, n);
      ghost var before := output[..j];
      var j' := PutGroup(output, j, outputLen, DecodeGroup(input[i..i + 4]));
      TakeMore(all, 3 * n, j, j', DecodeGroup(input[i..i + 4]));
      i, j, n := i + 4, j', n + 1;
    }
  }

  lemma TakeMore(all: Bytes, b: nat, j: nat, j': nat, g: Bytes)
    requires |g| == 3 && b + 3 <= |all| && [all[b], all[b + 1], all[b + 2]] == g
    requires j <= j' <= b + 3 && (j == b || (j == j' <= |all|))
    ensures j' - j <= 3 && all[..j'] == all[..j] + g[..j' - j]
  {
  }

  /** The body of the decoder's loop: three bytes, as far as the output length allows. */
  method PutGroup(output: array<bv8>, j: nat, outputLen: nat, g: Bytes) returns (j': nat)
    requires j <= outputLen <= output.Length && |g| == 3
    modifies output
    ensures j' == if j + 3 < outputLen then j + 3 else outputLen
    ensures output[..j'] == old(output[..j]) + g[..j' - j]
    ensures output[outputLen..] == old(output[outputLen..])
  {
    j' := j;
    if j' < outputLen { output[j'] := g[0]; j' := j' + 1; }
    if j' < outputLen { output[j'] := g[1]; j' := j' + 1; }
    if j' < outputLen { output[j'] := g[2]; j' := j' + 1; }
  }

  lemma DecodeTurn(input: string, all: Bytes, n: nat)
    requires |input| % 4 == 0 && 4 * n < |input| && |all| == |input| / 4 * 3
    requires all[3 * n..] == DecodeGroups(input[4 * n..])
    ensures [all[3 * n], all[3 * n + 1], all[3 * n + 2]] == DecodeGroup(input[4 * n..4 * n + 4])
    ensures all[3 * n + 3..] == DecodeGroups(input[4 * n + 4..])
  {
  }

}
