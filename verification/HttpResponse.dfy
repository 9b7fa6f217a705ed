/** The response printer: header block, Content-Length or chunked body, and what a client reads back. */
module HttpResponses {
  import opened Strings
  import opened HttpText
  import opened HttpSockets

  // ---------- Header maps ----------

  predicate Less(a: string, b: string) {
    b != "" && (a == "" || a[0] < b[0] || (a[0] == b[0] && Less(a[1..], b[1..])))
  }

  /** Inserts or replaces; the map is kept in the order of its keys. */
  function Insert(hs: seq<Header>, name: string, value: string): seq<Header> {
    if hs == [] || Less(name, hs[0].name) then [Header(name, value)] + hs
    else if hs[0].name == name then [Header(name, value)] + hs[1..]
    else [hs[0]] + Insert(hs[1..], name, value)
  }

  predicate Contains(hs: seq<Header>, name: string) {
    exists i :: 0 <= i < |hs| && hs[i].name == name
  }

  function Value(hs: seq<Header>, name: string, default: string): string {
    if hs == [] then default
    else if hs[0].name == name then hs[0].value
    else Value(hs[1..], name, default)
  }

  lemma {:induction false} InsertedValue(hs: seq<Header>, name: string, value: string, other: string, default: string)
    ensures Value(Insert(hs, name, value), other, default) == if other == name then value else Value(hs, other, default)
  {
    if hs != [] && !Less(name, hs[0].name) && hs[0].name != name {
      InsertedValue(hs[1..], name, value, other, default);
    }
  }

  lemma {:induction false} InsertedNames(hs: seq<Header>, name: string, value: string)
    ensures forall h :: h in Insert(hs, name, value) ==> h == Header(name, value) || h in hs
    ensures Header(name, value) in Insert(hs, name, value)
    ensures forall h :: h in hs && h.name != name ==> h in Insert(hs, name, value)
  {
    if hs != [] && !Less(name, hs[0].name) && hs[0].name != name {
      InsertedNames(hs[1..], name, value);
    }
  }

  // ---------- Printing ----------

  function HeaderLines(hs: seq<Header>): string {
    if hs == [] then "" else hs[0].name + ": " + hs[0].value + CRLF + HeaderLines(hs[1..])
  }

  /** `cookies` maps the names of the cookies to their printed forms. */
  function CookieLines(cookies: seq<Header>): string {
    if cookies == [] then "" else "Set-Cookie: " + cookies[0].value + CRLF + CookieLines(cookies[1..])
  }

  function HeaderBlock(r: Response): string {
    "HTTP/1.1 " + Number(r.statusCode) + " " + r.statusText + CRLF
    + HeaderLines(r.headers) + CookieLines(r.cookies) + CRLF
  }

  function Chunk(data: string): string {
    HexNumber(|data|) + CRLF + data + CRLF
  }

  const LAST_CHUNK := "0\r\n\r\n"

  // ---------- The response as a value ----------

  datatype Response = Response(
    statusCode: nat, statusText: string, headers: seq<Header>, cookies: seq<Header>,
    sentHeaders: bool, sentLastPart: bool, chunkedMode: bool)

  const NEW_RESPONSE := Response(200, "OK", [], [], false, false, false)

  datatype Written = Written(response: Response, bytes: string)

  /** The headers and the mode that the first write settles. */
  function Framing(r: Response, data: string, lastPart: bool): Response {
    if lastPart then r.(headers := Insert(r.headers, "Content-Length", Number(|data|)))
    else
      var connection := Value(r.headers, "Connection", Value(r.headers, "connection", ""));
      if SameIgnoringCase(connection, "close") then r
      else r.(headers := Insert(r.headers, "Transfer-Encoding", "chunked"), chunkedMode := true)
  }

  /** An empty write sends nothing, in chunked mode in particular no chunk of size 0. */
  function BodyPart(data: string, chunked: bool): string {
    if data == "" then "" else if chunked then Chunk(data) else data
  }

  function WriteSpec(r: Response, data: string, lastPart: bool): Written {
    var framed := if r.sentHeaders then r else Framing(r, data, lastPart).(sentHeaders := true);
    var head := if r.sentHeaders then "" else HeaderBlock(framed);
    var body := BodyPart(data, framed.chunkedMode);
    var end := if lastPart && framed.chunkedMode then LAST_CHUNK else "";
    Written(framed.(sentLastPart := r.sentLastPart || lastPart), head + body + end)
  }

  // ---------- The printer ----------

  class HttpResponse {
    const socket: Socket
    var statusCode: nat
    var statusText: string
    var headers: seq<Header>
    var cookies: seq<Header>
    var sentHeaders: bool
    var sentLastPart: bool
    var chunkedMode: bool

    function Snapshot(): Response
      reads this
    {
      Response(statusCode, statusText, headers, cookies, sentHeaders, sentLastPart, chunkedMode)
    }

    constructor (socket: Socket)
      ensures this.socket == socket && Snapshot() == NEW_RESPONSE
    {
      this.socket := socket;
      statusCode, statusText, headers, cookies := 200, "OK", [], [];
      sentHeaders, sentLastPart, chunkedMode := false, false, false;
    }

    method SetHeader(name: string, value: string)
      requires !sentHeaders
      modifies this`headers
      ensures headers == Insert(old(headers), name, value)
    {
      headers := Insert(headers, name, value);
    }

    /** `text` is the printed cookie; a cookie without a name is ignored. */
    method SetCookie(name: string, text: string)
      requires !sentHeaders
      modifies this`cookies
      ensures cookies == if name == "" then old(cookies) else Insert(old(cookies), name, text)
    {
      if name != "" {
        cookies := Insert(cookies, name, text);
      }
    }

    method SetStatus(code: nat, description: string)
      modifies this`statusCode, this`statusText
      ensures Snapshot() == old(Snapshot()).(statusCode := code, statusText := description)
    {
      statusCode, statusText := code, description;
    }

    /** However few bytes each write accepts, a healthy socket gets all of the data, in order, once. */
    method WriteToSocket(data: string) returns (ok: bool)
      modifies socket`sent, socket`outcomes
      ensures old(socket.Healthy()) ==> ok && socket.Healthy() && socket.sent == old(socket.sent) + data
      ensures exists k :: 0 <= k <= |data| && socket.sent == old(socket.sent) + data[..k]
    {
      var position := 0;
      assert data[..0] == "";
      while socket.open && position < |data|
        invariant 0 <= position <= |data|
        invariant socket.sent == old(socket.sent) + data[..position]
        invariant old(socket.Healthy()) ==> socket.Healthy()
        decreases |socket.outcomes|, |data| - position
      {
        var written := socket.Write(data[position..]);
        if written == -1 {
          return false;
        }
        assert data[..position] + data[position..][..written] == data[..position + written];
        position := position + written;
      }
      ok := true;
    }

    method WriteHeaders()
      requires !sentHeaders
      modifies this`sentHeaders, socket`sent, socket`outcomes
      ensures sentHeaders
      ensures old(socket.Healthy()) ==>
        socket.Healthy() && socket.sent == old(socket.sent) + HeaderBlock(old(Snapshot()))
    {
      var buffer := "HTTP/1.1 " + Number(statusCode) + " " + statusText + CRLF;
      buffer := buffer + HeaderLines(headers) + CookieLines(cookies) + CRLF;
      var _ := WriteToSocket(buffer);
      sentHeaders := true;
    }

    /** The first write settles the framing and sends the header block. */
    method SendHeaders(data: string, lastPart: bool)
      requires !sentHeaders
      modifies this, socket`sent, socket`outcomes
      ensures Snapshot() == Framing(old(Snapshot()), data, lastPart).(sentHeaders := true)
      ensures old(socket.Healthy()) ==>
        socket.Healthy() && socket.sent == old(socket.sent) + HeaderBlock(Framing(old(Snapshot()), data, lastPart))
    {
      hide HeaderBlock, Number, Insert;
      if lastPart {
        headers := Insert(headers, "Content-Length", Number(|data|));
      } else {
        var connection := Value(headers, "Connection", Value(headers, "connection", ""));
        if !SameIgnoringCase(connection, "close") {
          headers := Insert(headers, "Transfer-Encoding", "chunked");
          chunkedMode := true;
        }
      }
      WriteHeaders();
    }

    /** Sends the data of one write, as a chunk or verbatim. */
    method SendData(data: string)
      modifies socket`sent, socket`outcomes
      ensures old(socket.Healthy()) ==>
        socket.Healthy() && socket.sent == old(socket.sent) + BodyPart(data, chunkedMode)
    {
      hide HexNumber;
      if |data| > 0 {
        if chunkedMode {
          var size := HexNumber(|data|);
          var _ := WriteToSocket(size);
          var _ := WriteToSocket(CRLF);
          var _ := WriteToSocket(data);
          var _ := WriteToSocket(CRLF);
          assert old(socket.sent) + size + CRLF + data + CRLF == old(socket.sent) + Chunk(data);
        } else {
          var _ := WriteToSocket(data);
        }
      } else {
        assert socket.sent == socket.sent + "";
      }
    }

    method Write(data: string, lastPart: bool)
      requires !sentLastPart
      modifies this, socket`sent, socket`outcomes
      ensures Snapshot() == WriteSpec(old(Snapshot()), data, lastPart).response
      ensures old(socket.Healthy()) ==>
        socket.Healthy() && socket.sent == old(socket.sent) + WriteSpec(old(Snapshot()), data, lastPart).bytes
    {
      hide HeaderBlock, Framing, BodyPart;
      ghost var head := "";
      if !sentHeaders {
        SendHeaders(data, lastPart);
        head := HeaderBlock(Framing(old(Snapshot()), data, lastPart));
        SameBlock(old(Snapshot()), data, lastPart);
      }
      SendData(data);
      ghost var end := "";
      if lastPart {
        if chunkedMode {
          var _ := WriteToSocket(LAST_CHUNK);
          end := LAST_CHUNK;
        }
        sentLastPart := true;
      }
      assert old(socket.sent) + head + BodyPart(data, chunkedMode) + end
          == old(socket.sent) + (head + BodyPart(data, chunkedMode) + end);
    }
  }

  /** The flag for sent headers is no part of the header block. */
  lemma SameBlock(r: Response, data: string, lastPart: bool)
    ensures HeaderBlock(Framing(r, data, lastPart)) == HeaderBlock(Framing(r, data, lastPart).(sentHeaders := true))
    ensures Framing(r, data, lastPart).sentLastPart == r.sentLastPart
  {
  }

  // ---------- What a handler does ----------

  datatype Op =
    | SetHeader(name: string, value: string)
    | SetCookie(name: string, text: string)
    | SetStatus(code: nat, text: string)
    | Write(data: string, last: bool)

  function Do(r: Response, op: Op): Written {
    match op
    case SetHeader(name, value) => Written(r.(headers := Insert(r.headers, name, value)), "")
    case SetCookie(name, text) =>
      Written(r.(cookies := if name == "" then r.cookies else Insert(r.cookies, name, text)), "")
    case SetStatus(code, text) => Written(r.(statusCode := code, statusText := text), "")
    case Write(data, last) => WriteSpec(r, data, last)
  }

  function DoAll(r: Response, ops: seq<Op>): Written
    decreases |ops|
  {
    if ops == [] then Written(r, "")
    else
      var first := Do(r, ops[0]);
      var later := DoAll(first.response, ops[1..]);
      Written(later.response, first.bytes + later.bytes)
  }

  /** No header after the headers are sent, no write after the last part. */
  predicate Legal(r: Response, ops: seq<Op>)
    decreases |ops|
  {
    ops == [] ||
    ((match ops[0]
      case SetHeader(_, _) => !r.sentHeaders
      case SetCookie(_, _) => !r.sentHeaders
      case SetStatus(_, _) => true
      case Write(_, _) => !r.sentLastPart)
     && Legal(Do(r, ops[0]).response, ops[1..]))
  }

  /** All data written, in order. */
  function Data(ops: seq<Op>): string {
    if ops == [] then "" else (if ops[0].Write? then ops[0].data else "") + Data(ops[1..])
  }

  // ---------- What a client reads ----------

  datatype Body = Body(data: string, rest: string) | Malformed

  /** The chunked decoder of section 4.1 of RFC 7230, without extensions and trailers. */
  function DecodeChunked(s: string): (b: Body)
    decreases |s|
  {
    var eol := IndexOf(s, CRLF, 0);
    if eol <= 0 || !AllHex(s[..eol]) then Malformed
    else
      var size, rest := ParseHex(s[..eol]), s[eol + 2..];
      if |rest| < size + 2 || rest[size..size + 2] != CRLF then Malformed
      else if size == 0 then Body("", rest[2..])
      else
        var b := DecodeChunked(rest[size + 2..]);
        if b.Malformed? then Malformed else Body(rest[..size] + b.data, b.rest)
  }

  /** A write in the two modes, byte by byte: a chunk is its size in hexadecimal digits, the data, and line breaks. */
  lemma BodyPartBytes(data: string)
    ensures BodyPart(data, false) == data && LAST_CHUNK == "0\r\n\r\n"
    ensures BodyPart(data, true) == if data == "" then "" else HexNumber(|data|) + "\r\n" + data + "\r\n"
  {
    hide HexNumber;
  }

  lemma ChunkSizeLine(n: nat, rest: string)
    ensures IndexOf(HexNumber(n) + CRLF + rest, CRLF, 0) == |HexNumber(n)|
  {
    HexRoundTrip(n);
    var h := HexNumber(n);
    var s := h + CRLF + rest;
    forall i | 0 <= i < |h|
      ensures !MatchesAt(s, CRLF, i)
    {
      assert s[i] == h[i] && HexValue(h[i]) >= 0;
      assert i + 2 <= |s| ==> s[i..i + 2][0] == s[i];
    }
    assert s[|h|..|h| + 2] == CRLF;
    IndexOfIs(s, CRLF, 0, |h|);
  }

  lemma DecodeChunk(data: string, rest: string)
    requires data != ""
    ensures DecodeChunked(Chunk(data) + rest) ==
      var b := DecodeChunked(rest); if b.Malformed? then Malformed else Body(data + b.data, b.rest)
  {
    var h, s := HexNumber(|data|), Chunk(data) + rest;
    assert s == h + CRLF + (data + CRLF + rest);
    ChunkSizeLine(|data|, data + CRLF + rest);
    HexRoundTrip(|data|);
    hide HexNumber, ParseHex, IndexOf;
    assert s[..|h|] == h;
    var rest' := s[|h| + 2..];
    assert rest' == data + CRLF + rest;
    assert rest'[|data|..|data| + 2] == CRLF && rest'[..|data|] == data && rest'[|data| + 2..] == rest;
  }

  lemma DecodeLastChunk(tail: string)
    ensures DecodeChunked(LAST_CHUNK + tail) == Body("", tail)
  {
    var s := LAST_CHUNK + tail;
    assert HexNumber(0) == "0";
    ChunkSizeLine(0, CRLF + tail);
    HexRoundTrip(0);
    assert s == "0" + CRLF + (CRLF + tail);
    assert s[..1] == "0" && s[3..] == CRLF + tail && s[3..][0..2] == CRLF && s[3..][2..] == tail;
  }

  // ---------- Round trip of the body ----------

  /** Once the headers are sent the writes send the data alone, in the mode that was settled. */
  lemma {:induction false} BodyBytes(r: Response, ops: seq<Op>, tail: string)
    requires r.sentHeaders && Legal(r, ops)
    ensures var w := DoAll(r, ops);
      && w.response.chunkedMode == r.chunkedMode && w.response.headers == r.headers && w.response.sentHeaders
      && (r.sentLastPart ==> w.bytes == "" && Data(ops) == "" && w.response.sentLastPart)
      && (!r.chunkedMode ==> w.bytes == Data(ops))
      && (r.chunkedMode && w.response.sentLastPart && !r.sentLastPart ==>
            DecodeChunked(w.bytes + tail) == Body(Data(ops), tail))
    decreases |ops|
  {
    hide DecodeChunked, HexNumber, HeaderBlock, Insert, LAST_CHUNK;
    if ops != [] {
      var first := Do(r, ops[0]);
      var later := DoAll(first.response, ops[1..]);
      BodyBytes(first.response, ops[1..], tail);
      if r.chunkedMode && ops[0].Write? && later.response.sentLastPart {
        ChunkedWrite(ops[0].data, ops[0].last, later.bytes, tail, Data(ops[1..]));
      } else if ops[0].Write? {
        assert "" + ops[0].data + "" == ops[0].data;
      } else {
        assert "" + later.bytes == later.bytes && "" + Data(ops[1..]) == Data(ops[1..]);
      }
    }
  }

  /** One write in chunked mode, in front of the bytes of the later ones. */
  lemma ChunkedWrite(data: string, last: bool, later: string, tail: string, laterData: string)
    requires if last then later == "" && laterData == "" else DecodeChunked(later + tail) == Body(laterData, tail)
    ensures var bytes := "" + BodyPart(data, true) + (if last then LAST_CHUNK else "") + later;
      DecodeChunked(bytes + tail) == Body(data + laterData, tail)
  {
    hide DecodeChunked, HexNumber, Chunk;
    var end := if last then LAST_CHUNK else "";
    var part := BodyPart(data, true);
    assert "" + part + end + later + tail == part + (end + later + tail);
    if last {
      DecodeLastChunk(tail);
      assert end + later + tail == LAST_CHUNK + tail;
    } else {
      assert end + later + tail == later + tail;
    }
    if data != "" {
      DecodeChunk(data, end + later + tail);
    } else {
      assert part + (end + later + tail) == end + later + tail;
      assert data + laterData == laterData;
    }
  }

  /** The response when the first write begins. */
  function BeforeWrite(r: Response, ops: seq<Op>): Response
    decreases |ops|
  {
    if ops == [] || ops[0].Write? then r else BeforeWrite(Do(r, ops[0]).response, ops[1..])
  }

  /** The first write is there and is not the last part. */
  predicate BeginsWithPart(ops: seq<Op>) {
    ops != [] && if ops[0].Write? then !ops[0].last else BeginsWithPart(ops[1..])
  }

  /** The data of the first write. */
  function FirstData(ops: seq<Op>): string {
    if ops == [] then "" else if ops[0].Write? then ops[0].data else FirstData(ops[1..])
  }

  /** The response that the first write leaves, and the operations before and behind that write. */
  lemma {:induction false} SplitAtFirstWrite(r: Response, ops: seq<Op>) returns (r1: Response, i: nat)
    requires !r.sentHeaders && !r.sentLastPart && Legal(r, ops) && DoAll(r, ops).response.sentLastPart
    ensures i < |ops| && ops[i].Write? && Data(ops) == ops[i].data + Data(ops[i + 1..])
    ensures !r1.sentHeaders && !r1.sentLastPart && r1.chunkedMode == r.chunkedMode
    ensures Legal(WriteSpec(r1, ops[i].data, ops[i].last).response, ops[i + 1..])
    ensures var w := WriteSpec(r1, ops[i].data, ops[i].last);
      var later := DoAll(w.response, ops[i + 1..]);
      DoAll(r, ops) == Written(later.response, w.bytes + later.bytes)
    ensures r1 == BeforeWrite(r, ops) && FirstData(ops) == ops[i].data && BeginsWithPart(ops) == !ops[i].last
    decreases |ops|
  {
    hide WriteSpec, Insert, Do, BeforeWrite;
    if ops[0].Write? {
      r1, i := r, 0;
      FirstIsWrite(r, ops);
    } else {
      var next := Do(r, ops[0]).response;
      SkipOp(r, ops);
      hide DoAll, Legal, Data;
      var j: nat;
      r1, j := SplitAtFirstWrite(next, ops[1..]);
      i := j + 1;
      assert ops[1..][j + 1..] == ops[i + 1..];
    }
  }

  lemma FirstIsWrite(r: Response, ops: seq<Op>)
    requires ops != [] && ops[0].Write?
    ensures Do(r, ops[0]) == WriteSpec(r, ops[0].data, ops[0].last) && BeforeWrite(r, ops) == r
  {
    hide WriteSpec;
  }

  /** An operation in front of the first write sends nothing and leaves the response unsent. */
  lemma SkipOp(r: Response, ops: seq<Op>)
    requires ops != [] && !ops[0].Write? && Legal(r, ops)
    ensures var next := Do(r, ops[0]).response;
      && Legal(next, ops[1..]) && DoAll(r, ops) == DoAll(next, ops[1..]) && Data(ops) == Data(ops[1..])
      && BeforeWrite(r, ops) == BeforeWrite(next, ops[1..])
      && next.sentHeaders == r.sentHeaders && next.sentLastPart == r.sentLastPart
      && next.chunkedMode == r.chunkedMode
  {
    hide Insert;
    var later := DoAll(Do(r, ops[0]).response, ops[1..]);
    assert "" + later.bytes == later.bytes && "" + Data(ops[1..]) == Data(ops[1..]);
  }

  // ---------- What the client sees of the framing ----------

  datatype Found = NotFound | Found(value: string)

  /** The first header whose name is `name`, ignoring case. */
  function ClientValue(hs: seq<Header>, name: string): Found {
    if hs == [] then NotFound
    else if SameIgnoringCase(hs[0].name, name) then Found(hs[0].value)
    else ClientValue(hs[1..], name)
  }

  /** The message body that the framing headers announce at the start of `s`: the rules 3 to 7 of that section. */
  function FramedBody(hs: seq<Header>, s: string): Body {
    match ClientValue(hs, "Transfer-Encoding")
    case Found(coding) => if SameIgnoringCase(coding, "chunked") then DecodeChunked(s) else Body(s, "")
    case NotFound =>
      match ClientValue(hs, "Content-Length")
      case Found(length) =>
        if !AllDigits(length) || ParseNat(length) > |s| then Malformed
        else Body(s[..ParseNat(length)], s[ParseNat(length)..])
      case NotFound => Body(s, "")
  }

  /** The rules 1 and 2: some responses end with the header block, whatever their headers announce. */
  predicate AllowsBody(verb: string, status: int) {
    && verb != "HEAD"
    && !(100 <= status < 200) && status != 204 && status != 304
    && !(verb == "CONNECT" && 200 <= status < 300)
  }

  /** What a client takes for the message body, by section 3.3.3 of RFC 7230, at the start of `s`. */
  function ClientBody(verb: string, status: int, hs: seq<Header>, s: string): Body {
    if AllowsBody(verb, status) then FramedBody(hs, s) else Body("", s)
  }

  predicate IsFramingName(name: string) {
    SameIgnoringCase(name, "Content-Length") || SameIgnoringCase(name, "Transfer-Encoding")
  }

  predicate NoFraming(hs: seq<Header>) {
    forall h :: h in hs ==> !IsFramingName(h.name)
  }

  lemma FramingNamesDiffer()
    ensures !SameIgnoringCase("Content-Length", "Transfer-Encoding")
    ensures !SameIgnoringCase("Transfer-Encoding", "Content-Length")
  {
    assert Lower("Content-Length")[0] == 'c' && Lower("Transfer-Encoding")[0] == 't';
  }

  /** An inserted framing header is the only one of its name. */
  lemma {:induction false} OnlyFramingHeader(hs: seq<Header>, name: string, value: string, other: string)
    requires NoFraming(hs) && IsFramingName(name) && IsFramingName(other)
    ensures ClientValue(Insert(hs, name, value), other)
         == if SameIgnoringCase(name, other) then Found(value) else NotFound
  {
    hide Lower;
    if hs == [] {
      assert [Header(name, value)][1..] == [];
    } else {
      assert hs[0] in hs;
      assert forall h :: h in hs[1..] ==> h in hs;
      OnlyFramingHeader(hs[1..], name, value, other);
      NoFramingFound(hs, other);
      if Less(name, hs[0].name) {
        assert ([Header(name, value)] + hs)[1..] == hs;
      }
    }
  }

  lemma {:induction false} NoFramingFound(hs: seq<Header>, other: string)
    requires NoFraming(hs) && IsFramingName(other)
    ensures ClientValue(hs, other) == NotFound
  {
    hide Lower;
    if hs != [] {
      assert hs[0] in hs;
      assert forall h :: h in hs[1..] ==> h in hs;
      NoFramingFound(hs[1..], other);
    }
  }

  // ---------- Where the client finds the end of the header block ----------

  const EMPTY_LINE := "\r\n\r\n"

  /** No text of the header block contains a line break. */
  predicate OneLineTexts(r: Response) {
    && NoLineEnd(r.statusText)
    && (forall h :: h in r.headers ==> NoLineEnd(h.name) && NoLineEnd(h.value))
    && (forall c :: c in r.cookies ==> NoLineEnd(c.value))
  }

  lemma BehindLine(text: string, rest: string)
    requires NoLineEnd(text)
    ensures var r := IndexOf(rest, EMPTY_LINE, 0);
      IndexOf(text + CRLF + rest, EMPTY_LINE, 0)
        == if CRLF <= rest then |text| else if r == -1 then -1 else |text| + 2 + r
  {
    var s := text + CRLF + rest;
    forall i | 0 <= i < |text| + 2
      ensures MatchesAt(s, EMPTY_LINE, i) <==> i == |text| && CRLF <= rest
    {
      if i + 4 <= |s| {
        assert s[i..i + 4][0] == s[i];
        if i == |text| {
          assert s[i..i + 4] == CRLF + rest[..2] && EMPTY_LINE[2..] == CRLF && s[i..i + 4][2..] == rest[..2];
        } else if i < |text| {
          assert s[i] == text[i] && text[i] in text;
        } else {
          assert s[i] == '\n';
        }
      }
      if i == |text| && CRLF <= rest {
        assert s[i..i + 4] == EMPTY_LINE;
      }
    }
    if CRLF <= rest {
      IndexOfIs(s, EMPTY_LINE, 0, |text|);
    } else {
      IndexOfSkips(s, EMPTY_LINE, 0, |text| + 2);
      IndexOfInSuffix(text + CRLF, rest, EMPTY_LINE, 0);
    }
  }

  /** `s` is a number of lines of length `n`, an empty line, and a body. */
  predicate EndsAt(s: string, n: nat) {
    if n == 0 then CRLF <= s else n >= 2 && !(CRLF <= s) && IndexOf(s, EMPTY_LINE, 0) == n - 2
  }

  lemma OneMoreLine(text: string, rest: string, n: nat)
    requires NoLineEnd(text) && text != "" && EndsAt(rest, n)
    ensures EndsAt(text + CRLF + rest, |text| + 2 + n)
  {
    BehindLine(text, rest);
    assert (text + CRLF + rest)[0] == text[0] && text[0] in text;
  }

  lemma {:induction false} CookieLinesEnd(cookies: seq<Header>, body: string)
    requires forall c :: c in cookies ==> NoLineEnd(c.value)
    ensures EndsAt(CookieLines(cookies) + CRLF + body, |CookieLines(cookies)|)
  {
    hide EndsAt;
    if cookies == [] {
      NoLinesEnd(body);
      assert "" + CRLF + body == CRLF + body;
    } else {
      assert cookies[0] in cookies;
      CookieLinesEnd(cookies[1..], body);
      var text, rest := "Set-Cookie: " + cookies[0].value, CookieLines(cookies[1..]) + CRLF + body;
      OneMoreLine(text, rest, |CookieLines(cookies[1..])|);
      assert CookieLines(cookies) + CRLF + body == text + CRLF + rest;
    }
  }

  lemma NoLinesEnd(body: string)
    ensures EndsAt(CRLF + body, 0)
  {
  }

  lemma {:induction false} HeaderLinesEnd(hs: seq<Header>, rest: string, n: nat)
    requires forall h :: h in hs ==> NoLineEnd(h.name) && NoLineEnd(h.value)
    requires EndsAt(rest, n)
    ensures EndsAt(HeaderLines(hs) + rest, |HeaderLines(hs)| + n)
  {
    hide EndsAt;
    if hs == [] {
      assert "" + rest == rest;
    } else {
      assert hs[0] in hs;
      HeaderLinesEnd(hs[1..], rest, n);
      var text, later := hs[0].name + ": " + hs[0].value, HeaderLines(hs[1..]) + rest;
      OneMoreLine(text, later, |HeaderLines(hs[1..])| + n);
      assert HeaderLines(hs) + rest == text + CRLF + later;
    }
  }

  /** The first empty line that a client finds is the end of the header block, whatever follows it. */
  lemma HeaderBlockEnds(r: Response, body: string)
    requires OneLineTexts(r)
    ensures IndexOf(HeaderBlock(r) + body, EMPTY_LINE, 0) == |HeaderBlock(r)| - 4
  {
    hide EndsAt, Number, HeaderLines, CookieLines;
    var text := "HTTP/1.1 " + Number(r.statusCode) + " " + r.statusText;
    assert forall k :: 0 <= k < |Number(r.statusCode)| ==> IsDigit(Number(r.statusCode)[k]);
    var rest := CookieLines(r.cookies) + CRLF + body;
    CookieLinesEnd(r.cookies, body);
    HeaderLinesEnd(r.headers, rest, |CookieLines(r.cookies)|);
    OneMoreLine(text, HeaderLines(r.headers) + rest, |HeaderLines(r.headers)| + |CookieLines(r.cookies)|);
    assert HeaderBlock(r) + body == text + CRLF + (HeaderLines(r.headers) + rest);
    var n := |text| + 2 + (|HeaderLines(r.headers)| + |CookieLines(r.cookies)|);
    EndIs(text + CRLF + (HeaderLines(r.headers) + rest), n);
  }

  lemma EndIs(s: string, n: nat)
    requires EndsAt(s, n) && n > 0
    ensures IndexOf(s, EMPTY_LINE, 0) == n - 2
  {
  }
}
