/** A pushed write on its way to the server: base64 text in a query parameter of bounded size. */
module WriteCodec {
  import opened Lists
  import Base64
  import UrlEncode

  /** `encoded_value` of `vtfs_http_call`. */
  const VALUE_SIZE: nat := 512

  function AsBytes(s: string): (b: Bytes)
    requires forall k :: 0 <= k < |s| ==> s[k] as int < 256
    ensures |b| == |s|
  {
    seq(|s|, k requires 0 <= k < |s| => s[k] as int as bv8)
  }

  function AsText(b: Bytes): string {
    seq(|b|, k requires 0 <= k < |b| => b[k] as int as char)
  }

  lemma EncodedIsAscii(data: Bytes)
    ensures forall k :: 0 <= k < |Base64.Encode(data)| ==> Base64.Encode(data)[k] as int < 256
  {
    Base64.EncodeShape(data);
    forall k | 0 <= k < |Base64.Encode(data)| ensures Base64.Encode(data)[k] as int < 256 {
      LetterIsAscii(Base64.Encode(data)[k]);
    }
  }

  lemma LetterIsAscii(c: char)
    requires Base64.IsLetter(c) || c == '='
    ensures c as int < 256
  {
    if Base64.IsLetter(c) {
      var i :| 0 <= i < 64 && Base64.Alphabet()[i] == c;
    }
  }

  lemma CharBits(c: char)
    requires c as int < 256
    ensures (c as int as bv8) as int as char == c
  {
  }

  lemma TextOfBytes(s: string)
    requires forall k :: 0 <= k < |s| ==> s[k] as int < 256
    ensures AsText(AsBytes(s)) == s
  {
    forall k | 0 <= k < |s| ensures AsText(AsBytes(s))[k] == s[k] { CharBits(s[k]); }
  }

  /** What is sent of a block of data, and what the server reads out of the query. */
  function Sent(data: Bytes): string {
    EncodedIsAscii(data);
    var text := AsBytes(Base64.Encode(data));
    UrlEncode.Encode(text[..UrlEncode.Taken(text, VALUE_SIZE - 3)])
  }

  function Arrived(data: Bytes): Option<string> {
    match UrlEncode.Decode(Sent(data)) case None => None case Some(b) => Some(AsText(b))
  }

  /** The whole encoding passes through the bounded parameter. */
  predicate ArrivesWhole(data: Bytes) {
    Arrived(data) == Some(Base64.Encode(data))
  }

  lemma {:induction false} EncodedLength(b: Bytes)
    ensures |b| <= |UrlEncode.Encode(b)| <= 3 * |b|
  {
    if b != [] { EncodedLength(b[1..]); }
  }

  /** What arrives is a prefix of the base64 text: all of it exactly when the percent-encoding of all but its last
      character is shorter than 509, so always for at most 126 bytes and never for more than 381. */
  lemma ArrivesExactly(data: Bytes)
    ensures Arrived(data).Some? && Arrived(data).value <= Base64.Encode(data)
    ensures ArrivesWhole(data) <==>
            data == [] ||
            (EncodedIsAscii(data);
             |UrlEncode.Encode(AsBytes(Base64.Encode(data))[..|Base64.Encode(data)| - 1])| < VALUE_SIZE - 3)
    ensures |data| <= 126 ==> ArrivesWhole(data)
    ensures |data| > 381 ==> !ArrivesWhole(data)
  {
    hide Base64.Encode, UrlEncode.Encode, UrlEncode.Decode, UrlEncode.Taken;
    EncodedIsAscii(data);
    var text := Base64.Encode(data);
    var b := AsBytes(text);
    var n := UrlEncode.Taken(b, VALUE_SIZE - 3);
    UrlEncode.DecodeEncode(b[..n]);
    UrlEncode.WholeSource(b, VALUE_SIZE);
    TextOfBytes(text);
    assert AsText(b[..n]) == text[..n];
    if data != [] { EncodedLength(b[..|b| - 1]); }
    assert b[..|b|] == b;
  }

  /** What the server decodes of a push: `cut` stands for its library's answer to a text that has been cut. */
  function Heard(data: Bytes, cut: Option<Bytes>): Option<Bytes> {
    if ArrivesWhole(data) then Base64.Decode(Arrived(data).value) else cut
  }

  /** A write that arrives whole is decoded to the bytes that were written. */
  lemma WriteRoundTrip(data: Bytes, cut: Option<Bytes>)
    requires ArrivesWhole(data)
    ensures Heard(data, cut) == Some(data)
  {
    Base64.DecodeEncode(data);
  }
}
