/** The read path end to end: the server's slice, base64 and JSON, the chunked response, and the kernel's
    parsing back to bytes. */
module ReadCodec {
  import opened Ascii
  import opened Lists
  import opened Http
  import opened Base64
  import Server

  const HTTP_BUFFER_SIZE: nat := 4096
  const CHUNKED: string := "Transfer-Encoding: chunked"

  // ---------- The kernel side ----------

  function CString(s: string): string {
    match Find(s, 0, NUL) case None => s case Some(i) => s[..i]
  }

  function Status(response: string): nat {
    match StrStr(response, 0, "HTTP/1.")
    case None => 500
    case Some(h) =>
      match Find(response, h, ' ')
      case None => 500
      case Some(sp) =>
        var v := StrToUl(response, sp + 1, 10).0;
        if 100 <= v <= 599 then v else 500
  }

  function BodyStart(response: string): Option<nat> {
    match StrStr(response, 0, "\r\n\r\n")
    case Some(i) => Some(i + 4)
    case None => match StrStr(response, 0, "\n\n")
      case Some(i) => Some(i + 2)
      case None => None
  }

  /** `parse_http_response`: what ends up in the body buffer. */
  function ParseBody(response: string, bodySize: nat): string
    requires bodySize > 0
  {
    match BodyStart(response)
    case None => ""
    case Some(b) =>
      if StrStr(response, 0, CHUNKED).Some? then Unchunk(response, b, bodySize - 1)
      else Take(response[b..], bodySize - 1)
  }

  /** `extract_json_field` on the text from a position. */
  function ExtractJsonField(json: string, from: nat, field: string, valueSize: nat): Option<string>
    requires valueSize > 0
  {
    var pattern := "\"" + field + "\"";
    match StrStr(json, from, pattern)
    case None => None
    case Some(f) =>
      match Find(json, f + |pattern|, '"')
      case None => None
      case Some(v) =>
        match Find(json, v + 1, '"')
        case None => None
        case Some(e) => Some(Take(json[v + 1..e], valueSize - 1))
  }

  /** `vtfs_http_read` from the received response on; None stands for its error returns. */
  function HttpRead(response: string, size: nat): Option<Bytes> {
    if Status(response) >= 400 then None
    else
      var body := CString(ParseBody(response, HTTP_BUFFER_SIZE));
      if StrStr(body, 0, "\"error\"").Some? then None
      else
        match StrStr(body, 0, "\"result\"")
        case None => None
        case Some(r) =>
          match StrStr(body, r, "\"data\"")
          case None => None
          case Some(d) =>
            match ExtractJsonField(body, d, "data", HTTP_BUFFER_SIZE)
            case None => None
            case Some(text) =>
              match Decode(text)
              case None => None
              case Some(bytes) => Some(if |bytes| > size then bytes[..size] else bytes)
  }

  // ---------- The server side ----------

  /** The controller's answer to a read, serialised. */
  function JsonBody(text: string): string {
    "{\"result\":{\"data\":\"" + text + "\"}}"
  }

  /** A status line with a code of three digits. */
  function StatusLine(a: nat, b: nat, c: nat): string
    requires a < 10 && b < 10 && c < 10
  {
    "HTTP/1.1 " + [DIGITS[a], DIGITS[b], DIGITS[c]] + " "
  }

  /** The head of a good response: status 200 and no blank line inside. */
  ghost predicate IsGoodHead(head: string) {
    StatusLine(2, 0, 0) <= head && StrStr(head + "\r\n\r\n", 0, "\r\n\r\n") == Some(|head|)
  }

  /** It announces chunks. */
  ghost predicate IsHead(head: string) {
    IsGoodHead(head) && StrStr(head, 0, CHUNKED).Some?
  }

  function Reply(head: string, body: string): string {
    head + ("\r\n\r\n" + body)
  }

  function Response(head: string, cs: seq<Chunk>): string {
    Reply(head, Frame(cs))
  }

  // ---------- The status line ----------

  /** The status is the decimal number behind the protocol version; numbers outside 100 to 599 count as 500. */
  lemma StatusIs(response: string, a: nat, b: nat, c: nat)
    requires a < 10 && b < 10 && c < 10 && StatusLine(a, b, c) <= response
    ensures Status(response) == if 1 <= a <= 5 then 100 * a + 10 * b + c else 500
  {
    var l := StatusLine(a, b, c);
    assert response[..|l|] == l && |l| == 13;
    forall k | 0 <= k < 13 ensures response[k] == l[k] { assert response[..|l|][k] == l[k]; }
    hide DIGITS;
    assert response[0..7] == l[0..7];
    StrStrIs(response, 0, "HTTP/1.", 0);
    FindIs(response, 0, ' ', 8);
    assert response[9..12] == l[9..12];
    ThreeDigits(response, 9, a, b, c);
  }

  /** A reply with an error status brings nothing, whatever its body says. */
  lemma ErrorStatusIsRefused(response: string, a: nat, b: nat, c: nat, size: nat)
    requires a < 10 && b < 10 && c < 10 && StatusLine(a, b, c) <= response && !(1 <= a <= 3)
    ensures HttpRead(response, size) == None
  {
    StatusIs(response, a, b, c);
  }

  // ---------- Searching the JSON text ----------

  predicate Plain(text: string) {
    forall k :: 0 <= k < |text| ==> text[k] != '"' && text[k] != NUL && !IsNewline(text[k])
  }

  lemma MatchChars(s: string, i: nat, pat: string, k: nat)
    requires Matches(s, i, pat) && k < |pat|
    ensures s[i + k] == pat[k]
  {
    assert s[i..i + |pat|][k] == pat[k];
  }

  lemma JsonChars(text: string, k: nat)
    requires Plain(text) && k < |JsonBody(text)|
    ensures var b := JsonBody(text);
            && |b| == |text| + 22
            && b[..19] == "{\"result\":{\"data\":\""
            && b[19..19 + |text|] == text
            && (b[k] == '"' <==> k in {1, 8, 11, 16, 18, 19 + |text|})
            && b[19 + |text|..] == "\"}}"
            && b[k] != NUL && !IsNewline(b[k])
  {
  }

  lemma ResultAt(text: string)
    requires Plain(text)
    ensures StrStr(JsonBody(text), 0, "\"result\"") == Some(1)
  {
    var b := JsonBody(text);
    JsonChars(text, 0);
    assert b[1..9] == b[..19][1..9];
    assert Matches(b, 1, "\"result\"");
    if Matches(b, 0, "\"result\"") { MatchChars(b, 0, "\"result\"", 0); }
    StrStrIs(b, 0, "\"result\"", 1);
  }

  lemma DataAt(text: string)
    requires Plain(text)
    ensures StrStr(JsonBody(text), 1, "\"data\"") == Some(11) && StrStr(JsonBody(text), 11, "\"data\"") == Some(11)
  {
    var b := JsonBody(text);
    JsonChars(text, 0);
    assert b[11..17] == b[..19][11..17];
    assert Matches(b, 11, "\"data\"");
    assert b[2] == b[..19][2] && b[9] == b[..19][9];
    forall k | 1 <= k < 11 ensures !Matches(b, k, "\"data\"") {
      if Matches(b, k, "\"data\"") {
        MatchChars(b, k, "\"data\"", 0);
        MatchChars(b, k, "\"data\"", 1);
        JsonChars(text, k);
        assert false;
      }
    }
    StrStrIs(b, 1, "\"data\"", 11);
    StrStrIs(b, 11, "\"data\"", 11);
  }

  /** The error marker cannot appear: its closing quote would need a payload of five letters, and base64 comes
      in fours. */
  lemma NoErrorMarker(text: string)
    requires Plain(text) && |text| % 4 == 0
    ensures StrStr(JsonBody(text), 0, "\"error\"").None?
  {
    var b := JsonBody(text);
    var pat := "\"error\"";
    JsonChars(text, 0);
    assert b[2] == b[..19][2] && b[9] == b[..19][9] && b[12] == b[..19][12] && b[17] == b[..19][17];
    forall k: nat ensures !Matches(b, k, pat) {
      if Matches(b, k, pat) {
        MatchChars(b, k, pat, 0);
        MatchChars(b, k, pat, 1);
        MatchChars(b, k, pat, 6);
        JsonChars(text, k);
        JsonChars(text, k + 1);
        JsonChars(text, k + 6);
        assert false;
      }
    }
  }

  /** The field extraction returns the payload, cut to the value buffer. */
  lemma DataExtracted(text: string, valueSize: nat)
    requires Plain(text) && valueSize > 0
    ensures ExtractJsonField(JsonBody(text), 11, "data", valueSize) == Some(Take(text, valueSize - 1))
  {
    var b := JsonBody(text);
    DataAt(text);
    assert "\"" + "data" + "\"" == "\"data\"";
    forall k | 17 <= k < 20 + |text| ensures b[k] == '"' <==> k == 18 || k == 19 + |text| {
      JsonChars(text, k);
    }
    JsonChars(text, 18);
    FindIs(b, 17, '"', 18);
    FindIs(b, 19, '"', 19 + |text|);
  }

  // ---------- The chunked response ----------

  lemma MatchesPrefix(h: string, rest: string, k: nat, pat: string)
    requires k + |pat| <= |h|
    ensures Matches(h + rest, k, pat) <==> Matches(h, k, pat)
  {
    assert (h + rest)[k..k + |pat|] == h[k..k + |pat|];
  }

  lemma HeadStatus(head: string, rest: string)
    requires IsGoodHead(head)
    ensures Status(head + rest) == 200
  {
    var r := head + rest;
    assert StatusLine(2, 0, 0) <= r by { assert r[..|head|] == head; }
    hide Status, StatusLine, StrStr;
    StatusIs(r, 2, 0, 0);
  }

  lemma BodyFound(head: string, body: string)
    requires IsGoodHead(head)
    ensures var r := Reply(head, body);
            Status(r) == 200 && BodyStart(r) == Some(|head| + 4) && r[|head| + 4..] == body
  {
    HeadStatus(head, "\r\n\r\n" + body);
    var h := head + "\r\n\r\n";
    var r := Reply(head, body);
    assert r == h + body;
    hide Status;
    forall k: nat | k <= |head| ensures Matches(r, k, "\r\n\r\n") <==> Matches(h, k, "\r\n\r\n") {
      MatchesPrefix(h, body, k, "\r\n\r\n");
    }
    StrStrIs(r, 0, "\r\n\r\n", |head|);
  }

  /** A response whose lines end in bare line feeds has its body behind the first empty one. */
  lemma BareBodyFound(head: string, body: string)
    requires StrStr(head + "\n\n", 0, "\n\n") == Some(|head|)
    requires StrStr(head + "\n\n" + body, 0, "\r\n\r\n").None?
    ensures BodyStart(head + "\n\n" + body) == Some(|head| + 2) && (head + "\n\n" + body)[|head| + 2..] == body
  {
    var h := head + "\n\n";
    forall k: nat | k <= |head| ensures Matches(h + body, k, "\n\n") <==> Matches(h, k, "\n\n") {
      MatchesPrefix(h, body, k, "\n\n");
    }
    StrStrIs(h + body, 0, "\n\n", |head|);
  }

  lemma HeadFound(head: string, body: string)
    requires IsHead(head)
    ensures var r := Reply(head, body);
            Status(r) == 200 && BodyStart(r) == Some(|head| + 4) && Matches(r, |head| + 4, body)
            && StrStr(r, 0, CHUNKED).Some?
  {
    BodyFound(head, body);
    hide Status, BodyStart, CHUNKED, StrStr;
    MarkerKept(head, "\r\n\r\n" + body);
  }

  lemma MarkerKept(head: string, rest: string)
    requires StrStr(head, 0, CHUNKED).Some?
    ensures StrStr(head + rest, 0, CHUNKED).Some?
  {
    hide CHUNKED;
    MatchesPrefix(head, rest, StrStr(head, 0, CHUNKED).value, CHUNKED);
  }

  /** A head that announces no chunks, before a body that cannot: there is no hyphen in the JSON text of a read. */
  lemma NoMarker(head: string, text: string)
    requires StrStr(head, 0, CHUNKED).None? && Plain(text) && '-' !in text
    ensures StrStr(Reply(head, JsonBody(text)), 0, CHUNKED).None?
  {
    var body := JsonBody(text);
    var r := Reply(head, body);
    NoHyphen(text);
    hide JsonBody;
    MarkerChars();
    hide CHUNKED;
    forall k: nat ensures !Matches(r, k, CHUNKED) {
      if k + 26 <= |head| {
        MatchesPrefix(head, "\r\n\r\n" + body, k, CHUNKED);
      } else if k + 26 <= |r| && k < |head| + 4 {
        var at := if k < |head| then |head| else k;
        assert IsNewline(r[at]);
        Mismatch(r, k, CHUNKED, at - k);
      } else if k + 26 <= |r| {
        assert r[k + 8] == body[k + 8 - |head| - 4];
        Mismatch(r, k, CHUNKED, 8);
      }
    }
  }

  lemma Mismatch(s: string, i: nat, pat: string, j: nat)
    requires j < |pat| && i + |pat| <= |s| && s[i + j] != pat[j]
    ensures !Matches(s, i, pat)
  {
    assert s[i..i + |pat|][j] == s[i + j];
  }

  lemma MarkerChars()
    ensures |CHUNKED| == 26 && CHUNKED[8] == '-' && forall j :: 0 <= j < 26 ==> !IsNewline(CHUNKED[j])
  {
  }

  lemma NoHyphen(text: string)
    requires '-' !in text
    ensures '-' !in JsonBody(text)
  {
  }

  lemma {:induction false} NoNewlineNoSwallow(cs: seq<Chunk>, room: nat)
    requires forall k :: 0 <= k < |Payload(cs)| ==> !IsNewline(Payload(cs)[k])
    ensures NoneSwallowed(cs, room)
  {
    if cs != [] && room > 0 {
      var p, t := Payload(cs), Payload(cs[1..]);
      assert forall k :: 0 <= k < |t| ==> t[k] == p[|cs[0].data| + k];
      assert cs[0].data != "" ==> cs[0].data[0] == p[0];
      NoNewlineNoSwallow(cs[1..], if |cs[0].data| < room then room - |cs[0].data| else 0);
    }
  }

  /** However the body is cut into chunks, the kernel gets the JSON text back, as far as the buffer goes. */
  lemma BodyArrives(head: string, cs: seq<Chunk>, text: string)
    requires IsHead(head) && AreChunks(cs) && Plain(text) && Payload(cs) == JsonBody(text)
    ensures Status(Response(head, cs)) == 200
    ensures ParseBody(Response(head, cs), HTTP_BUFFER_SIZE) == Take(JsonBody(text), HTTP_BUFFER_SIZE - 1)
  {
    hide IsHead, StrStr, Frame, NoneSwallowed, Unchunk, Status, CHUNKED;
    HeadFound(head, Frame(cs));
    forall k | 0 <= k < |Payload(cs)| ensures !IsNewline(Payload(cs)[k]) { JsonChars(text, k); }
    NoNewlineNoSwallow(cs, HTTP_BUFFER_SIZE - 1);
    UnchunkFrame(Response(head, cs), |head| + 4, cs, HTTP_BUFFER_SIZE - 1);
  }

  /** Without chunks everything behind the blank line is the body. */
  lemma PlainBodyArrives(head: string, text: string)
    requires IsGoodHead(head) && StrStr(head, 0, CHUNKED).None? && Plain(text) && '-' !in text
    ensures Status(Reply(head, JsonBody(text))) == 200
    ensures ParseBody(Reply(head, JsonBody(text)), HTTP_BUFFER_SIZE) == Take(JsonBody(text), HTTP_BUFFER_SIZE - 1)
  {
    BodyFound(head, JsonBody(text));
    NoMarker(head, text);
    hide IsGoodHead, Reply, StrStr, Status, BodyStart, JsonBody, CHUNKED, Plain, Take, Unchunk;
  }

  lemma JsonIsCString(text: string)
    requires Plain(text)
    ensures CString(JsonBody(text)) == JsonBody(text)
  {
    var b := JsonBody(text);
    forall k | 0 <= k < |b| ensures b[k] != NUL { JsonChars(text, k); }
  }

  lemma EncodedIsPlain(data: Bytes)
    ensures Plain(Encode(data)) && |Encode(data)| % 4 == 0 && '-' !in Encode(data)
  {
    hide Encode;
    EncodeShape(data);
    var text := Encode(data);
    forall k | 0 <= k < |text| ensures text[k] != '"' && text[k] != NUL && !IsNewline(text[k]) && text[k] != '-' {
      LetterIsPlain(text[k]);
    }
  }

  lemma LetterIsPlain(c: char)
    requires IsLetter(c) || c == '='
    ensures c != '"' && c != NUL && !IsNewline(c) && c != '-'
  {
  }

  /** The kernel's parsing of a body that arrived whole. */
  lemma BodyIsRead(response: string, slice: Bytes, size: nat)
    requires Status(response) < 400 && ParseBody(response, HTTP_BUFFER_SIZE) == JsonBody(Encode(slice))
    requires |slice| <= size && |JsonBody(Encode(slice))| < HTTP_BUFFER_SIZE
    ensures HttpRead(response, size) == Some(slice)
  {
    var text := Encode(slice);
    EncodedIsPlain(slice);
    JsonChars(text, 0);
    hide Encode, Decode, ParseBody, Status, StrStr, ExtractJsonField, CString, JsonBody;
    JsonIsCString(text);
    ResultAt(text);
    DataAt(text);
    NoErrorMarker(text);
    DataExtracted(text, HTTP_BUFFER_SIZE);
    DecodeEncode(slice);
  }

  /** A search in a text that has been cut finds what it found before, if that is still there. */
  lemma CutStrStr(s: string, n: nat, from: nat, pat: string)
    requires n <= |s|
    ensures var r := StrStr(s, from, pat);
            && (r.None? ==> StrStr(s[..n], from, pat).None?)
            && (r.Some? && r.value + |pat| <= n ==> StrStr(s[..n], from, pat) == r)
  {
    forall k: nat ensures Matches(s[..n], k, pat) <==> Matches(s, k, pat) && k + |pat| <= n {
      if k + |pat| <= n { assert s[..n][k..k + |pat|] == s[k..k + |pat|]; }
    }
    var r := StrStr(s, from, pat);
    if r.Some? && r.value + |pat| <= n { StrStrIs(s[..n], from, pat, r.value); }
    var c := StrStr(s[..n], from, pat);
  }

  /** The quotes of a body that ends within the payload. */
  lemma CutChars(text: string, n: nat)
    requires Plain(text) && 19 <= n <= 19 + |text|
    ensures n <= |JsonBody(text)|
    ensures var c := JsonBody(text)[..n];
            && CString(c) == c
            && Find(c, 17, '"') == Some(18) && Find(c, 19, '"').None?
  {
    JsonChars(text, 0);
    hide JsonBody;
    var c := JsonBody(text)[..n];
    forall k | 0 <= k < n ensures c[k] != NUL && (c[k] == '"' <==> k in {1, 8, 11, 16, 18}) { JsonChars(text, k); }
    FindIs(c, 17, '"', 18);
  }

  lemma CutField(text: string, n: nat)
    requires Plain(text) && 19 <= n <= 19 + |text|
    ensures n <= |JsonBody(text)|
    ensures ExtractJsonField(JsonBody(text)[..n], 11, "data", HTTP_BUFFER_SIZE) == None
  {
    hide JsonBody, StrStr, Find, CString;
    CutChars(text, n);
    DataAt(text);
    CutStrStr(JsonBody(text), n, 11, "\"data\"");
    assert "\"" + "data" + "\"" == "\"data\"";
  }

  /** A body that has lost its closing quote is refused: nothing of a slice that does not fit is passed on. */
  lemma CutBodyIsRefused(response: string, slice: Bytes, size: nat, n: nat)
    requires Status(response) < 400 && 19 <= n <= 19 + |Encode(slice)| && n <= |JsonBody(Encode(slice))|
    requires ParseBody(response, HTTP_BUFFER_SIZE) == JsonBody(Encode(slice))[..n]
    ensures HttpRead(response, size) == None
  {
    hide Encode, Decode, ParseBody, Status, StrStr, JsonBody, ExtractJsonField, CString, Find;
    var text := Encode(slice);
    EncodedIsPlain(slice);
    NoErrorMarker(text);
    ResultAt(text);
    DataAt(text);
    CutChars(text, n);
    CutField(text, n);
    CutStrStr(JsonBody(text), n, 0, "\"error\"");
    CutStrStr(JsonBody(text), n, 0, "\"result\"");
    CutStrStr(JsonBody(text), n, 1, "\"data\"");
  }

  /** What the kernel's buffer has room for. */
  predicate Fits(slice: Bytes) {
    |JsonBody(Encode(slice))| < HTTP_BUFFER_SIZE
  }

  /** Slices of up to 3054 bytes fit. A longer text always loses its closing quote: base64 comes in fours. */
  lemma UnfitIsCut(slice: Bytes)
    ensures |JsonBody(Encode(slice))| == |Encode(slice)| + 22
    ensures !Fits(slice) ==> HTTP_BUFFER_SIZE - 1 <= 19 + |Encode(slice)|
    ensures Fits(slice) <==> |slice| <= 3054
  {
    EncodedIsPlain(slice);
    JsonChars(Encode(slice), 0);
  }

  /** What arrives of a body is read back exactly when it is all of it, and refused otherwise. */
  lemma ArrivedIsRead(response: string, slice: Bytes, size: nat)
    requires Status(response) == 200 && |slice| <= size
    requires ParseBody(response, HTTP_BUFFER_SIZE) == Take(JsonBody(Encode(slice)), HTTP_BUFFER_SIZE - 1)
    ensures HttpRead(response, size) == if |slice| <= 3054 then Some(slice) else None
    ensures OutputLength(Encode(slice)) == |slice|
  {
    UnfitIsCut(slice);
    EncodeShape(slice);
    hide Encode, ParseBody, Status, HttpRead, JsonBody, OutputLength;
    if Fits(slice) {
      BodyIsRead(response, slice, size);
    } else {
      CutBodyIsRefused(response, slice, size, HTTP_BUFFER_SIZE - 1);
    }
  }

  lemma ServedWithin(t: Server.Table, path: string, offset: nat, size: nat)
    requires Server.ReadRow(t, path, offset, Some(size)).Success?
    ensures |Server.ReadRow(t, path, offset, Some(size)).data| <= size
  {
    Server.ReadAnswer(t, path, offset, Some(size));
    hide Server.ReadRow;
  }

  /** End to end, for every file content, offset and size: whatever slice the server serves, encoded, wrapped in
      JSON and sent in any chunks behind a head with status 200, comes out of the kernel's read unchanged exactly
      when it has at most 3054 bytes, and is refused otherwise. The decoder stays within the `size` bytes it is
      given. */
  lemma ReadRoundTrip(t: Server.Table, path: string, offset: nat, size: nat, head: string, cs: seq<Chunk>)
    requires Server.ReadRow(t, path, offset, Some(size)).Success?
    requires IsHead(head) && AreChunks(cs)
    requires Payload(cs) == JsonBody(Encode(Server.ReadRow(t, path, offset, Some(size)).data))
    ensures var slice := Server.ReadRow(t, path, offset, Some(size)).data;
            && OutputLength(Encode(slice)) == |slice| <= size
            && HttpRead(Response(head, cs), size) == if |slice| <= 3054 then Some(slice) else None
  {
    var slice := Server.ReadRow(t, path, offset, Some(size)).data;
    ServedWithin(t, path, offset, size);
    hide Server.ReadRow, Encode, IsHead, Response, ParseBody, Status, Payload, HttpRead, JsonBody,
         OutputLength, Plain, AreChunks;
    EncodedIsPlain(slice);
    BodyArrives(head, cs, Encode(slice));
    ArrivedIsRead(Response(head, cs), slice, size);
  }

  /** So it does from a reply without chunks. */
  lemma PlainRoundTrip(t: Server.Table, path: string, offset: nat, size: nat, head: string)
    requires Server.ReadRow(t, path, offset, Some(size)).Success?
    requires IsGoodHead(head) && StrStr(head, 0, CHUNKED).None?
    ensures var slice := Server.ReadRow(t, path, offset, Some(size)).data;
            HttpRead(Reply(head, JsonBody(Encode(slice))), size) == if |slice| <= 3054 then Some(slice) else None
  {
    var slice := Server.ReadRow(t, path, offset, Some(size)).data;
    ServedWithin(t, path, offset, size);
    hide Server.ReadRow, Encode, IsGoodHead, Reply, ParseBody, Status, HttpRead, JsonBody,
         OutputLength, Plain, StrStr, CHUNKED;
    EncodedIsPlain(slice);
    PlainBodyArrives(head, Encode(slice));
    ArrivedIsRead(Reply(head, JsonBody(Encode(slice))), slice, size);
  }
}
