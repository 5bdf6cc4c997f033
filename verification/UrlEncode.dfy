/** Percent-encoding into a bounded buffer (sections 2.1 and 2.3 of RFC 3986). */
module UrlEncode {
  import opened Ascii
  import opened Lists
  import opened Http

  /** Letters, digits, '-', '_', '.' and '~'. */
  predicate Unreserved(c: bv8) {
    0x41 <= c <= 0x5A || 0x61 <= c <= 0x7A || 0x30 <= c <= 0x39 || c == 0x2D || c == 0x5F || c == 0x2E || c == 0x7E
  }

  /** The hex table of the encoder. */
  function Hex(x: bv8): char
    requires x < 16
  {
    if x < 10 then '0' + (x as int) as char else 'A' + (x as int - 10) as char
  }

  /** What one source byte becomes. */
  function EncodeByte(c: bv8): (t: string)
    ensures |t| == if Unreserved(c) then 1 else 3
  {
    if Unreserved(c) then [c as int as char] else ['%', Hex((c >> 4) & 0x0F), Hex(c & 0x0F)]
  }

  /** The unbounded encoding. */
  function Encode(src: Bytes): string {
    if src == [] then "" else EncodeByte(src[0]) + Encode(src[1..])
  }

  /** How many source bytes the loop takes: it stops when fewer than four places are left. */
  function Taken(src: Bytes, room: int): (n: nat)
    ensures n <= |src|
    decreases |src|
  {
    if src == [] || room <= 0 then 0 else 1 + Taken(src[1..], room - |EncodeByte(src[0])|)
  }

  // ---------- The alphabet, spelled out ----------

  /** The unreserved characters of section 2.3 of RFC 3986. */
  const UNRESERVED: string := UPPER + LOWER + DIGITS + "-_.~"

  const HEX: string := DIGITS + "ABCDEF"

  /** Unreserved characters stand for themselves; every other byte is a percent sign and its two hex digits. */
  lemma EncodedByte(c: bv8)
    ensures EncodeByte(c) ==
            if c as int as char in UNRESERVED then [c as int as char]
            else ['%', HEX[(c >> 4) as int], HEX[(c & 0x0F) as int]]
  {
    UnreservedIs(c);
    assert (c >> 4) & 0x0F == c >> 4;
    if !Unreserved(c) {
      HexIs(c >> 4);
      HexIs(c & 0x0F);
    }
  }

  lemma UnreservedIs(c: bv8)
    ensures Unreserved(c) <==> c as int as char in UNRESERVED
  {
    BitsOfNumber(c);
    LettersAre(c as int as char);
    hide *;
  }

  lemma HexIs(x: bv8)
    requires x < 16
    ensures Hex(x) == HEX[x as int]
  {
    BitsOfNumber(x);
  }

  predicate Sendable(c: char) {
    c == '%' || c in UNRESERVED
  }

  lemma HexIsUnreserved(i: nat)
    ensures i < 16 ==> Sendable(HEX[i])
  {
    if i < 10 { assert HEX[i] in DIGITS; }
  }

  lemma ByteIsSendable(c: bv8)
    ensures forall i :: 0 <= i < |EncodeByte(c)| ==> Sendable(EncodeByte(c)[i])
  {
    EncodedByte(c);
    HexIsUnreserved((c >> 4) as int);
    HexIsUnreserved((c & 0x0F) as int);
  }

  /** No other character is ever sent. */
  lemma {:induction false} EncodedChars(src: Bytes)
    ensures forall i :: 0 <= i < |Encode(src)| ==> Sendable(Encode(src)[i])
  {
    hide Sendable, EncodeByte;
    if src != [] {
      EncodedChars(src[1..]);
      ByteIsSendable(src[0]);
    }
  }

  // ---------- Decoding ----------

  function HexBits(c: char): Option<bv8> {
    match HexDigit(c) case None => None case Some(d) => Some(d as bv8)
  }

  /** Percent-decoding; a broken triple or a non-ASCII character is malformed. */
  function Decode(s: string): Option<Bytes> {
    if s == "" then Some([])
    else if s[0] == '%' then
      if |s| < 3 then None
      else match (HexBits(s[1]), HexBits(s[2]))
        case (Some(h), Some(l)) =>
          (match Decode(s[3..]) case None => None case Some(r) => Some([(h << 4) | l] + r))
        case _ => None
    else if s[0] as int >= 0x80 then None
    else match Decode(s[1..]) case None => None case Some(r) => Some([s[0] as int as bv8] + r)
  }

  lemma BitsOfNumber(x: bv8)
    ensures (x as int) as bv8 == x && 0 <= x as int < 256
    ensures x < 128 ==> x as int < 128
  {
  }

  lemma HexInverse(x: bv8)
    requires x < 16
    ensures HexBits(Hex(x)) == Some(x) && Hex(x) != '%'
  {
  }

  lemma Nibbles(c: bv8)
    ensures (c >> 4) & 0x0F < 16 && c & 0x0F < 16 && (((c >> 4) & 0x0F) << 4) | (c & 0x0F) == c
    ensures Unreserved(c) ==> c < 128 && c != 0x25
  {
  }

  lemma PlainByte(c: bv8)
    requires Unreserved(c)
    ensures c as int < 128 && c as int as char != '%' && (c as int as char) as int as bv8 == c
  {
    BitsOfNumber(c);
    Nibbles(c);
  }

  /** One encoded byte decodes to that byte, whatever follows. */
  lemma DecodeStep(c: bv8, rest: string)
    ensures Decode(EncodeByte(c) + rest) == match Decode(rest) case None => None case Some(r) => Some([c] + r)
  {
    var s := EncodeByte(c) + rest;
    Nibbles(c);
    if Unreserved(c) {
      PlainByte(c);
      assert s[1..] == rest;
    } else {
      HexInverse((c >> 4) & 0x0F);
      HexInverse(c & 0x0F);
      assert s[3..] == rest && s[1] == Hex((c >> 4) & 0x0F) && s[2] == Hex(c & 0x0F);
    }
  }

  lemma {:induction false} DecodeEncode(src: Bytes)
    ensures Decode(Encode(src)) == Some(src)
  {
    if src != [] {
      DecodeEncode(src[1..]);
      DecodeStep(src[0], Encode(src[1..]));
      assert src == [src[0]] + src[1..];
    }
  }

  lemma {:induction false} EncodeAppend(a: Bytes, c: bv8)
    ensures Encode(a + [c]) == Encode(a) + EncodeByte(c)
  {
    if a == [] {
      assert ([] + [c])[1..] == [];
    } else {
      assert (a + [c])[1..] == a[1..] + [c];
      EncodeAppend(a[1..], c);
    }
  }

  // ---------- How far the bounded encoder gets ----------

  /** It takes every byte whose predecessors' encoding leaves at least four places. */
  lemma {:induction false} TakenExactly(src: Bytes, room: int, k: nat)
    requires k < |src|
    ensures k < Taken(src, room) <==> |Encode(src[..k])| < room
    decreases |src|
  {
    if k > 0 {
      assert src[..k][1..] == src[1..][..k - 1];
      var used := |EncodeByte(src[0])|;
      TakenExactly(src[1..], room - used, k - 1);
      assert |Encode(src[..k])| == used + |Encode(src[1..][..k - 1])|;
    }
  }

  /** The encoder's stores for one byte. */
  method PutByte(c: bv8, dst: array<char>, j: nat) returns (j': nat)
    requires j + 3 <= dst.Length
    modifies dst
    ensures j' == j + |EncodeByte(c)| && dst[..j'] == old(dst[..j]) + EncodeByte(c)
    ensures forall k :: j' <= k < dst.Length ==> dst[k] == old(dst[k])
  {
    Nibbles(c);
    j' := j;
    if Unreserved(c) {
      dst[j'] := c as int as char;
      j' := j' + 1;
    } else {
      dst[j'] := '%';
      j' := j' + 1;
      dst[j'] := Hex((c >> 4) & 0x0F);
      j' := j' + 1;
      dst[j'] := Hex(c & 0x0F);
      j' := j' + 1;
    }
  }

  lemma TakenStep(src: Bytes, i: nat, room: int)
    requires i < |src| && room > 0
    ensures Taken(src[i..], room) == 1 + Taken(src[i + 1..], room - |EncodeByte(src[i])|)
    ensures Encode(src[..i + 1]) == Encode(src[..i]) + EncodeByte(src[i])
  {
    assert src[i..][1..] == src[i + 1..] && src[..i + 1] == src[..i] + [src[i]];
    EncodeAppend(src[..i], src[i]);
  }

  /** `url_encode` with at least three places (with fewer, `dst_size - 3` wraps): in bounds, terminated, the rest
      of the buffer untouched; the output is the encoding of a prefix of the source, so no triple is split and it
      decodes to that prefix. */
  method UrlEncode(src: Bytes, dst: array<char>) returns (j: nat)
    requires dst.Length >= 3
    modifies dst
    ensures var n := Taken(src, dst.Length - 3);
            && j == |Encode(src[..n])| < dst.Length
            && dst[..] == Encode(src[..n]) + [NUL] + old(dst[j + 1..])
            && Decode(dst[..j]) == Some(src[..n])
  {
    hide Encode, EncodeByte, Taken, Decode;
    var i: nat := 0;
    j := 0;
    ghost var room: int := dst.Length - 3;
    assert src[0..] == src;
    StartsEmpty(src);
    while i < |src| && j < dst.Length - 3
      invariant i <= |src| && j <= dst.Length - 1
      invariant dst[..j] == Encode(src[..i])
      invariant Taken(src, room) == i + Taken(src[i..], room - j)
      invariant forall k :: j <= k < dst.Length ==> dst[k] == old(dst[k])
    {
      TakenStep(src, i, room - j);
      j := PutByte(src[i], dst, j);
      i := i + 1;
    }
    TakenEnds(src[i..], room - j);
    dst[j] := NUL;
    assert dst[j + 1..] == old(dst[j + 1..]);
    assert dst[..] == dst[..j] + [dst[j]] + dst[j + 1..];
    DecodeEncode(src[..i]);
  }

  lemma StartsEmpty(src: Bytes)
    ensures Encode(src[..0]) == ""
  {
  }

  lemma TakenEnds(src: Bytes, room: int)
    requires src == [] || room <= 0
    ensures Taken(src, room) == 0
  {
  }

  /** Everything is encoded whenever the full encoding leaves three places, and exactly when what precedes the
      last byte leaves four. */
  lemma WholeSource(src: Bytes, dstSize: nat)
    requires dstSize >= 3
    ensures Taken(src, dstSize - 3) == |src| <==> src == [] || |Encode(src[..|src| - 1])| < dstSize - 3
    ensures |Encode(src)| <= dstSize - 3 ==> Taken(src, dstSize - 3) == |src|
  {
    if src != [] {
      var k := |src| - 1;
      TakenExactly(src, dstSize - 3, k);
      EncodeAppend(src[..k], src[k]);
      assert src == src[..k] + [src[k]];
    }
  }
}
