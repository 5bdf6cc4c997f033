/** Response parsing of module/http.c: C string searches, the chunk loop, and JSON field extraction. */
module Http {
  import opened Ascii
  import opened Lists

  const NUL: char := '\0'

  // ---------- C strings ----------

  /** The character at a position; past the end the zeroed buffer reads as NUL. */
  function At(s: string, i: nat): char {
    if i < |s| then s[i] else NUL
  }

  /** `memcpy` out of a C string. */
  function Copy(s: string, i: nat, n: nat): (r: string)
    ensures |r| == n
  {
    seq(n, k requires 0 <= k < n => At(s, i + k))
  }

  predicate Matches(s: string, i: nat, pat: string) {
    i + |pat| <= |s| && s[i..i + |pat|] == pat
  }

  /** `strstr` from a position: the first match at or after it. */
  function StrStr(s: string, from: nat, pat: string): (r: Option<nat>)
    ensures r.Some? ==> from <= r.value && Matches(s, r.value, pat)
    ensures r.Some? ==> forall k :: from <= k < r.value ==> !Matches(s, k, pat)
    ensures r.None? ==> forall k :: from <= k ==> !Matches(s, k, pat)
    decreases |s| - from
  {
    if Matches(s, from, pat) then Some(from)
    else if from >= |s| then None
    else StrStr(s, from + 1, pat)
  }

  /** `strchr` from a position. */
  function Find(s: string, from: nat, c: char): (r: Option<nat>)
    ensures r.Some? ==> from <= r.value < |s| && s[r.value] == c && forall k :: from <= k < r.value ==> s[k] != c
    ensures r.None? ==> forall k :: from <= k < |s| ==> s[k] != c
    decreases |s| - from
  {
    if from >= |s| then None else if s[from] == c then Some(from) else Find(s, from + 1, c)
  }

  lemma MatchesParts(s: string, i: nat, a: string, b: string)
    requires Matches(s, i, a + b)
    ensures Matches(s, i, a) && Matches(s, i + |a|, b)
    ensures forall k :: 0 <= k < |a| ==> At(s, i + k) == a[k]
    ensures b != "" ==> At(s, i + |a|) == b[0]
  {
    var t := s[i..i + |a| + |b|];
    assert i + |a + b| == i + |a| + |b| && t == a + b;
    forall k | 0 <= k < |a| + |b| ensures s[i + k] == (a + b)[k] { assert s[i + k] == t[k]; }
    assert s[i..i + |a|] == t[..|a|] && t[..|a|] == a;
    assert s[i + |a|..i + |a| + |b|] == t[|a|..] && t[|a|..] == b;
  }

  lemma StrStrIs(s: string, from: nat, pat: string, i: nat)
    requires from <= i && Matches(s, i, pat) && forall k :: from <= k < i ==> !Matches(s, k, pat)
    ensures StrStr(s, from, pat) == Some(i)
  {
    var r := StrStr(s, from, pat);
  }

  lemma FindIs(s: string, from: nat, c: char, i: nat)
    requires from <= i < |s| && s[i] == c && forall k :: from <= k < i ==> s[k] != c
    ensures Find(s, from, c) == Some(i)
  {
    var r := Find(s, from, c);
  }

  // ---------- Numbers ----------

  function HexDigit(c: char): (d: Option<nat>)
    ensures d.Some? ==> d.value < 16
  {
    if '0' <= c <= '9' then Some((c - '0') as nat)
    else if 'a' <= c <= 'f' then Some((c - 'a') as nat + 10)
    else if 'A' <= c <= 'F' then Some((c - 'A') as nat + 10)
    else None
  }

  /** Hexadecimal digits of either case count up from zero, and nothing else is one. */
  lemma HexDigitIs(c: char, i: nat)
    ensures i < 10 && c == DIGITS[i] ==> HexDigit(c) == Some(i)
    ensures i < 6 && (c == "abcdef"[i] || c == "ABCDEF"[i]) ==> HexDigit(c) == Some(10 + i)
    ensures HexDigit(c).Some? <==> c in DIGITS || c in "abcdef" || c in "ABCDEF"
  {
    LettersAt(i);
    LettersAre(c);
  }

  function DigitIn(c: char, base: nat): Option<nat> {
    match HexDigit(c)
    case None => None
    case Some(d) => if d < base then Some(d) else None
  }

  const ULONG: nat := 0x1_0000_0000_0000_0000

  /** The digits from a position: the value, which wraps at 64 bits, and where they end. */
  function Digits(s: string, i: nat, base: nat, acc: nat): (r: (nat, nat))
    ensures i <= r.1
    decreases |s| - i
  {
    if i < |s| && DigitIn(s[i], base).Some?
    then Digits(s, i + 1, base, (acc * base + DigitIn(s[i], base).value) % ULONG)
    else (acc, i)
  }

  /** `simple_strtoul`: base 16 swallows an "0x" prefix. */
  function StrToUl(s: string, i: nat, base: nat): (r: (nat, nat))
    ensures i <= r.1
  {
    if base == 16 && At(s, i) == '0' && (At(s, i + 1) == 'x' || At(s, i + 1) == 'X')
    then Digits(s, i + 2, base, 0) else Digits(s, i, base, 0)
  }

  predicate IsNewline(c: char) {
    c == '\r' || c == '\n'
  }

  function SkipNewlines(s: string, i: nat): (j: nat)
    ensures i <= j && !IsNewline(At(s, j)) && forall k :: i <= k < j ==> IsNewline(At(s, k))
    decreases |s| - i
  {
    if IsNewline(At(s, i)) then SkipNewlines(s, i + 1) else i
  }

  // ---------- The chunk loop ----------

  /** The chunked branch of `parse_http_response` with `room` bytes left in the body buffer. */
  function Unchunk(s: string, i: nat, room: nat): (r: string)
    ensures |r| <= room
    decreases room
  {
    if room == 0 then ""
    else
      var (size, end) := StrToUl(s, i, 16);
      if size == 0 then ""
      else
        var p := SkipNewlines(s, end);
        var n := if size >= room then room else size;
        Copy(s, p, n) + Unchunk(s, SkipNewlines(s, p + n), room - n)
  }

  lemma UnchunkTurn(s: string, i: nat, room: nat)
    requires room > 0
    ensures var (size, end) := StrToUl(s, i, 16);
            var p := SkipNewlines(s, end);
            var n := if size >= room then room else size;
            Unchunk(s, i, room) ==
            if size == 0 then "" else Copy(s, p, n) + Unchunk(s, SkipNewlines(s, p + n), room - n)
  {
  }

  lemma UnchunkNoRoom(s: string, i: nat)
    ensures Unchunk(s, i, 0) == ""
  {
  }

  method CopyInto(body: array<char>, at: nat, data: string)
    requires at + |data| <= body.Length
    modifies body
    ensures body[..at + |data|] == old(body[..at]) + data
    ensures forall k :: at + |data| <= k < body.Length ==> body[k] == old(body[k])
  {
    forall k | 0 <= k < |data| { body[at + k] := data[k]; }
  }

  /** The size line of a chunk and its data, cut to the room; no data means that the loop ends. */
  method NextChunk(response: string, chunk: nat, room: nat) returns (data: string, next: nat)
    requires room > 0
    ensures |data| <= room
    ensures Unchunk(response, chunk, room) == if data == "" then "" else data + Unchunk(response, next, room - |data|)
  {
    hide SkipNewlines, StrToUl, Copy, Unchunk;
    UnchunkTurn(response, chunk, room);
    var (size, end) := StrToUl(response, chunk, 16);
    if size == 0 {
      return "", chunk;
    }
    var start := SkipNewlines(response, end);
    if size >= room {
      size := room;
    }
    data := Copy(response, start, size);
    next := SkipNewlines(response, start + size);
  }

  lemma Assoc(a: string, b: string, c: string)
    ensures a + (b + c) == (a + b) + c
  {
  }

  method Terminate(body: array<char>, at: nat)
    requires at < body.Length
    modifies body
    ensures body[..] == old(body[..at]) + [NUL] + body[at + 1..] && body[at + 1..] == old(body[at + 1..])
  {
    body[at] := NUL;
    assert body[..] == body[..at] + [body[at]] + body[at + 1..];
  }

  method ParseChunked(response: string, bodyStart: nat, body: array<char>) returns (total: nat)
    requires body.Length > 0
    modifies body
    ensures total == |Unchunk(response, bodyStart, body.Length - 1)|
    ensures body[..] == Unchunk(response, bodyStart, body.Length - 1) + [NUL] + old(body[total + 1..])
  {
    hide Unchunk;
    ghost var all := Unchunk(response, bodyStart, body.Length - 1);
    var chunk: nat := bodyStart;
    total := 0;
    while total < body.Length - 1
      invariant total <= body.Length - 1
      invariant all == body[..total] + Unchunk(response, chunk, body.Length - 1 - total)
      invariant forall k :: total <= k < body.Length ==> body[k] == old(body[k])
    {
      var data, next := NextChunk(response, chunk, body.Length - 1 - total);
      if data == "" { break; }
      ghost var done := body[..total];
      CopyInto(body, total, data);
      total := total + |data|;
      chunk := next;
      Assoc(done, data, Unchunk(response, chunk, body.Length - 1 - total));
    }
    if total == body.Length - 1 { UnchunkNoRoom(response, chunk); }
    assert all == body[..total];
    Terminate(body, total);
    assert body[total + 1..] == old(body[total + 1..]);
  }

  // ---------- Framing (section 7.1 of RFC 9112) ----------

  /** A chunk as sent: its size line (hex digits, no extension) and its data. */
  datatype Chunk = Chunk(size: string, data: string)

  predicate AllHex(h: string) {
    forall k :: 0 <= k < |h| ==> HexDigit(h[k]).Some?
  }

  function HexValue(h: string): nat
    requires AllHex(h)
  {
    if h == "" then 0 else HexValue(h[..|h| - 1]) * 16 + HexDigit(h[|h| - 1]).value
  }

  ghost predicate IsChunk(c: Chunk) {
    c.size != "" && c.data != "" && AllHex(c.size) && HexValue(c.size) == |c.data| < ULONG
  }

  ghost predicate AreChunks(cs: seq<Chunk>) {
    forall k :: 0 <= k < |cs| ==> IsChunk(cs[k])
  }

  function WithChunk(c: Chunk, rest: string): string {
    (c.size + "\r\n") + (c.data + ("\r\n" + rest))
  }

  function Frame(cs: seq<Chunk>): string {
    if cs == [] then "0\r\n\r\n" else WithChunk(cs[0], Frame(cs[1..]))
  }

  function Payload(cs: seq<Chunk>): string {
    if cs == [] then "" else cs[0].data + Payload(cs[1..])
  }

  function Take(s: string, n: nat): string {
    if |s| <= n then s else s[..n]
  }

  /** No chunk that the buffer has room to start begins with CR or LF. */
  predicate NoneSwallowed(cs: seq<Chunk>, room: nat) {
    cs == [] || room == 0 ||
    (!(cs[0].data != "" && IsNewline(cs[0].data[0])) &&
     NoneSwallowed(cs[1..], if |cs[0].data| < room then room - |cs[0].data| else 0))
  }

  lemma HexGrows(h: string, done: nat)
    requires AllHex(h) && done < |h| && HexValue(h) < ULONG
    ensures HexDigit(h[done]).Some? && AllHex(h[..done])
    ensures HexValue(h[..done]) * 16 + HexDigit(h[done]).value == HexValue(h[..done + 1]) < ULONG
  {
    HexPrefix(h, done + 1);
    var next := h[..done + 1];
    assert next[..done] == h[..done] && next[done] == h[done];
  }

  lemma {:induction false} DigitsOfHex(s: string, i: nat, h: string, done: nat)
    requires AllHex(h) && done <= |h| && HexValue(h) < ULONG
    requires i + |h| <= |s| && s[i..i + |h|] == h && HexDigit(At(s, i + |h|)).None?
    ensures Digits(s, i + done, 16, HexValue(h[..done])) == (HexValue(h), i + |h|)
    decreases |h| - done
  {
    hide HexValue, HexDigit;
    if done == |h| {
      assert h[..done] == h;
    } else {
      HexGrows(h, done);
      assert s[i + done] == s[i..i + |h|][done];
      DigitsOfHex(s, i, h, done + 1);
    }
  }

  lemma {:induction false} HexPrefix(h: string, n: nat)
    requires AllHex(h) && n <= |h|
    ensures HexValue(h[..n]) <= HexValue(h)
    decreases |h| - n
  {
    if n == |h| {
      assert h[..n] == h;
    } else {
      HexPrefix(h, n + 1);
      var next := h[..n + 1];
      assert next[..n] == h[..n];
    }
  }

  lemma FrameStartsHex(cs: seq<Chunk>)
    requires AreChunks(cs)
    ensures Frame(cs) != "" && HexDigit(Frame(cs)[0]).Some? && !IsNewline(Frame(cs)[0])
  {
    if cs != [] {
      assert IsChunk(cs[0]) && HexDigit(cs[0].size[0]).Some?;
      assert Frame(cs)[0] == cs[0].size[0];
    }
  }

  /** The size line of a chunk is read back, and the loop stands before its data (or past swallowed newlines). */
  lemma SizeLine(s: string, i: nat, h: string)
    requires AllHex(h) && h != "" && HexValue(h) < ULONG
    requires Matches(s, i, h + "\r\n")
    ensures StrToUl(s, i, 16) == (HexValue(h), i + |h|)
    ensures SkipNewlines(s, i + |h|) == SkipNewlines(s, i + |h| + 2)
  {
    MatchesParts(s, i, h, "\r\n");
    assert s[i + |h|..i + |h| + 2][1] == '\n';
    assert s[i + |h|] == '\r' && s[i + |h| + 1] == '\n';
    assert h[..0] == "";
    DigitsOfHex(s, i, h, 0);
    assert |h| > 1 ==> HexDigit(h[1]).Some?;
    assert At(s, i + 1) != 'x' && At(s, i + 1) != 'X';
  }

  function HexChar(d: nat): char
    requires d < 16
  {
    if d < 10 then DIGITS[d] else "abcdef"[d - 10]
  }

  lemma HexCharIs(d: nat)
    requires d < 16
    ensures HexDigit(HexChar(d)) == Some(d)
  {
    HexDigitIs(HexChar(d), if d < 10 then d else d - 10);
    hide HexDigit;
  }

  /** The usual spelling of a number in hexadecimal, as servers write chunk sizes. */
  function ToHex(n: nat): (h: string)
    ensures h != ""
  {
    (if n < 16 then "" else ToHex(n / 16)) + [HexChar(n % 16)]
  }

  /** Every number has a spelling that counts as a size line with that value. */
  lemma {:induction false} HexOfToHex(n: nat)
    ensures AllHex(ToHex(n)) && HexValue(ToHex(n)) == n
  {
    hide HexDigit, HexChar;
    var h := ToHex(n);
    HexCharIs(n % 16);
    if n < 16 {
      assert h == [HexChar(n)] && h[..0] == "";
    } else {
      HexOfToHex(n / 16);
      assert h[..|h| - 1] == ToHex(n / 16);
    }
  }

  /** A number of hex digits that anything else ends is read with or without a leading "0x". */
  lemma PrefixIsSwallowed(s: string, i: nat, h: string)
    requires AllHex(h) && HexValue(h) < ULONG
    requires Matches(s, i, "0x" + h) && HexDigit(At(s, i + 2 + |h|)).None?
    ensures StrToUl(s, i, 16) == (HexValue(h), i + 2 + |h|)
  {
    hide HexDigit, HexValue, AllHex, Digits;
    MatchesParts(s, i, "0x", h);
    assert At(s, i) == '0' && At(s, i + 1) == 'x';
    assert h[..0] == "";
    EmptyIsZero();
    DigitsOfHex(s, i + 2, h, 0);
  }

  lemma EmptyIsZero()
    ensures AllHex("") && HexValue("") == 0
  {
  }

  lemma OneDigit(s: string, i: nat, d: nat, acc: nat)
    requires i < |s| && d < 10 && s[i] == DIGITS[d] && acc * 10 + d < ULONG
    ensures Digits(s, i, 10, acc) == Digits(s, i + 1, 10, acc * 10 + d)
  {
    HexDigitIs(s[i], d);
    hide HexDigit;
  }

  /** Three decimal digits that something else ends. */
  lemma ThreeDigits(s: string, i: nat, a: nat, b: nat, c: nat)
    requires a < 10 && b < 10 && c < 10 && i + 3 < |s| && s[i..i + 3] == [DIGITS[a], DIGITS[b], DIGITS[c]]
    requires s[i + 3] == ' '
    ensures StrToUl(s, i, 10) == (100 * a + 10 * b + c, i + 3)
  {
    hide Digits, HexDigit;
    var t := s[i..i + 3];
    assert s[i] == t[0] && s[i + 1] == t[1] && s[i + 2] == t[2];
    OneDigit(s, i, a, 0);
    OneDigit(s, i + 1, b, a);
    OneDigit(s, i + 2, c, a * 10 + b);
    NoDigit(s, i + 3, 100 * a + 10 * b + c);
  }

  lemma NoDigit(s: string, i: nat, acc: nat)
    requires i < |s| && s[i] == ' '
    ensures Digits(s, i, 10, acc) == (acc, i)
  {
  }

  lemma SkipNothing(s: string, i: nat)
    requires !IsNewline(At(s, i))
    ensures SkipNewlines(s, i) == i
  {
  }

  lemma SkipCrLf(s: string, i: nat)
    requires Matches(s, i, "\r\n") && !IsNewline(At(s, i + 2))
    ensures SkipNewlines(s, i) == i + 2
  {
    assert s[i..i + 2][0] == '\r' && s[i..i + 2][1] == '\n';
    SkipNothing(s, i + 2);
  }

  /** One chunk of a frame, as the loop meets it. */
  lemma ChunkStep(s: string, i: nat, c: Chunk, rest: string, room: nat)
    requires IsChunk(c) && room > 0 && rest != "" && !IsNewline(rest[0])
    requires Matches(s, i, WithChunk(c, rest))
    requires !IsNewline(c.data[0])
    ensures var next := i + |c.size| + 2 + |c.data| + 2;
            && Matches(s, next, rest)
            && Unchunk(s, i, room) ==
               Take(c.data, room) + Unchunk(s, next, if |c.data| < room then room - |c.data| else 0)
  {
    hide HexValue, AllHex, SkipNewlines, StrToUl, Matches, Unchunk, WithChunk, At;
    UnchunkTurn(s, i, room);
    var at := i + |c.size| + 2;
    ChunkLayout(s, i, c, rest);
    SizeLine(s, i, c.size);
    SkipNothing(s, at);
    var n := if |c.data| >= room then room else |c.data|;
    assert Copy(s, at, n) == Take(c.data, room);
    if n == |c.data| { SkipCrLf(s, at + n); }
  }

  lemma ChunkLayout(s: string, i: nat, c: Chunk, rest: string)
    requires Matches(s, i, WithChunk(c, rest))
    ensures var at := i + |c.size| + 2;
            && Matches(s, i, c.size + "\r\n")
            && Matches(s, at, c.data)
            && (forall k :: 0 <= k < |c.data| ==> At(s, at + k) == c.data[k])
            && Matches(s, at + |c.data|, "\r\n")
            && Matches(s, at + |c.data| + 2, rest)
            && (rest != "" ==> At(s, at + |c.data| + 2) == rest[0])
  {
    hide Matches;
    MatchesParts(s, i, c.size + "\r\n", c.data + ("\r\n" + rest));
    MatchesParts(s, i + |c.size| + 2, c.data, "\r\n" + rest);
    MatchesParts(s, i + |c.size| + 2 + |c.data|, "\r\n", rest);
  }

  /** A chunk whose data begins with CR or LF: what comes out instead begins with something else. */
  lemma SwallowedStep(s: string, i: nat, c: Chunk, rest: string, room: nat)
    requires IsChunk(c) && room > 0
    requires Matches(s, i, WithChunk(c, rest))
    requires IsNewline(c.data[0])
    ensures Unchunk(s, i, room) != "" && Unchunk(s, i, room)[0] != c.data[0]
  {
    hide HexValue, AllHex, SkipNewlines, StrToUl, Matches, Unchunk, WithChunk, At;
    ChunkLayout(s, i, c, rest);
    SizeLine(s, i, c.size);
    UnchunkTurn(s, i, room);
    var p := SkipNewlines(s, i + |c.size|);
    var n := if |c.data| >= room then room else |c.data|;
    assert Copy(s, p, n)[0] == At(s, p);
  }

  /** The loop returns the first `room` bytes of the payload exactly when no chunk it reaches begins with CR
      or LF; such bytes are taken for the line end. */
  lemma {:induction false} UnchunkFrame(s: string, i: nat, cs: seq<Chunk>, room: nat)
    requires AreChunks(cs) && Matches(s, i, Frame(cs))
    ensures Unchunk(s, i, room) == Take(Payload(cs), room) <==> NoneSwallowed(cs, room)
    decreases |cs|
  {
    hide Matches, IsChunk, Unchunk;
    if room == 0 || cs == [] {
      UnchunkEnds(s, i, cs, room);
    } else {
      var c, rest := cs[0], Frame(cs[1..]);
      ChunkHasData(c);
      var want := Take(Payload(cs), room);
      assert want[0] == c.data[0];
      if IsNewline(c.data[0]) {
        SwallowedStep(s, i, c, rest, room);
      } else {
        FrameStartsHex(cs[1..]);
        ChunkStep(s, i, c, rest, room);
        var left := if |c.data| < room then room - |c.data| else 0;
        var next := i + |c.size| + 2 + |c.data| + 2;
        UnchunkFrame(s, next, cs[1..], left);
        assert want == Take(c.data, room) + Take(Payload(cs[1..]), left);
        var l := |Take(c.data, room)|;
        assert Unchunk(s, i, room)[l..] == Unchunk(s, next, left) && want[l..] == Take(Payload(cs[1..]), left);
      }
    }
  }

  lemma ChunkHasData(c: Chunk)
    requires IsChunk(c)
    ensures c.data != ""
  {
  }

  lemma UnchunkEnds(s: string, i: nat, cs: seq<Chunk>, room: nat)
    requires Matches(s, i, Frame(cs)) && (room == 0 || cs == [])
    ensures Unchunk(s, i, room) == ""
  {
    if room > 0 { ZeroChunk(s, i); }
  }

  lemma ZeroChunk(s: string, i: nat)
    requires Matches(s, i, "0\r\n\r\n")
    ensures StrToUl(s, i, 16).0 == 0
  {
    var t := s[i..i + 5];
    assert t[0] == '0' && t[1] == '\r';
    assert s[i] == t[0] && s[i + 1] == t[1];
    assert HexDigit('\r').None?;
    assert Digits(s, i, 16, 0) == Digits(s, i + 1, 16, 0);
  }
}
