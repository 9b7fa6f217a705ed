/** Answering one request: finishing the response and deciding whether the connection stays open. */
module HttpKeepAlive {
  import opened Strings
  import opened HttpText
  import opened HttpSockets
  import opened HttpResponses
  import opened HttpHandlers

  /** What the connection handler reads from the request. */
  datatype Wish = Wish(connection: string, version: string)
  {
    predicate Close() {
      SameIgnoringCase(connection, "close") || SameIgnoringCase(version, "HTTP/1.0")
    }
  }

  function Prepared(wish: Wish): Response {
    if wish.Close() then NEW_RESPONSE.(headers := Insert([], "Connection", "close")) else NEW_RESPONSE
  }

  /** The response is finished for a handler that has not sent its last part, or has thrown. */
  function Finished(w: Written): Written {
    if w.response.sentLastPart then w
    else
      var end := WriteSpec(w.response, "", true);
      Written(end.response, w.bytes + end.bytes)
  }

  function Served(wish: Wish, ops: seq<Op>): Written {
    Finished(DoAll(Prepared(wish), ops))
  }

  /** The decision of the connection handler. */
  predicate KeepsOpen(wish: Wish, r: Response) {
    && !wish.Close()
    && !SameIgnoringCase(Value(r.headers, "Connection", ""), "close")
    && (Contains(r.headers, "Content-Length")
        || SameIgnoringCase(Value(r.headers, "Transfer-Encoding", ""), "chunked"))
  }

  // ---------- When the connection is closed ----------

  /**
   On the request: it wants the connection closed or has version 1.0. On what the handler has set before its first
   write: `Connection` is `close`; or its header is spelled `connection`, so that the printer refrains from chunks for
   it, and nothing else announces where the body ends.
   */
  predicate MustClose(wish: Wish, ops: seq<Op>) {
    || SameIgnoringCase(wish.connection, "close")
    || SameIgnoringCase(wish.version, "HTTP/1.0")
    || Names(LastSet(ops, "Connection"), "close")
    || (&& BeginsWithPart(ops)
        && LastSet(ops, "Connection").NotFound? && Names(LastSet(ops, "connection"), "close")
        && LastSet(ops, "Content-Length").NotFound? && !Names(LastSet(ops, "Transfer-Encoding"), "chunked"))
  }

  lemma EmptyIsNoWord()
    ensures !SameIgnoringCase("", "close") && !SameIgnoringCase("", "chunked") && SameIgnoringCase("chunked", "chunked")
  {
    assert |Lower("")| == 0 && |Lower("close")| == 5 && |Lower("chunked")| == 7;
  }

  /** The run with which a response is complete: the operations, and one more write if the last part is missing. */
  function Completed(r: Response, ops: seq<Op>): seq<Op> {
    if DoAll(r, ops).response.sentLastPart then ops else ops + [Write("", true)]
  }

  lemma CompletedRun(r: Response, ops: seq<Op>)
    requires Legal(r, ops) && !r.sentLastPart
    ensures var all := Completed(r, ops);
      && Legal(r, all) && DoAll(r, all) == Finished(DoAll(r, ops)) && DoAll(r, all).response.sentLastPart
      && Data(all) == Data(ops) && BeforeWrite(r, all) == BeforeWrite(r, ops)
      && BeginsWithPart(all) == BeginsWithPart(ops) && FirstData(all) == FirstData(ops)
  {
    hide Legal, DoAll, WriteSpec, Data, BeforeWrite, BeginsWithPart, FirstData;
    if !DoAll(r, ops).response.sentLastPart {
      FinishedIsOneMoreWrite(r, ops);
      OneMoreAtEnd(r, ops);
      FinishingEnds(DoAll(r, ops));
    }
  }

  /** For every handler: the decision to close is made exactly in these cases. */
  lemma ClosesExactly(wish: Wish, ops: seq<Op>)
    requires Legal(Prepared(wish), ops)
    ensures KeepsOpen(wish, Served(wish, ops).response) <==> !MustClose(wish, ops)
  {
    hide Legal, DoAll, Insert, Framing, BeforeWrite, LastSet, BeginsWithPart, Contains, Value, Lower, FirstData, Data;
    hide Finished, Completed;
    var r := Prepared(wish);
    var all := Completed(r, ops);
    CompletedRun(r, ops);
    if !wish.Close() {
      SettledByFirstWrite(r, all);
      SetBeforeWrite(r, ops, "Connection", "");
      SetBeforeWrite(r, ops, "connection", "");
      SetBeforeWrite(r, ops, "Content-Length", "");
      SetBeforeWrite(r, ops, "Transfer-Encoding", "");
      FramingHeaders(BeforeWrite(r, ops), FirstData(ops), !BeginsWithPart(ops));
      SetBeforeWrite(r, ops, "Connection", Value(BeforeWrite(r, ops).headers, "connection", ""));
      NothingSet("Connection", Value(BeforeWrite(r, ops).headers, "connection", ""));
      NothingSet("Connection", "");
      NothingSet("connection", "");
      NothingSet("Transfer-Encoding", "");
      NothingSet("Content-Length", "");
      EmptyIsNoWord();
    }
  }

  lemma NothingSet(name: string, default: string)
    ensures Value([], name, default) == default && !Contains([], name)
  {
  }

  /** Runs what a handler does on a response object. */
  method Perform(response: HttpResponse, ops: seq<Op>)
    requires Legal(response.Snapshot(), ops) && response.socket.Healthy()
    modifies response, response.socket`sent, response.socket`outcomes
    ensures response.Snapshot() == DoAll(old(response.Snapshot()), ops).response && response.socket.Healthy()
    ensures response.socket.sent == old(response.socket.sent) + DoAll(old(response.Snapshot()), ops).bytes
  {
    hide WriteSpec, Insert;
    ghost var all := DoAll(response.Snapshot(), ops);
    ghost var done := "";
    assert ops[0..] == ops;
    for i := 0 to |ops|
      invariant Legal(response.Snapshot(), ops[i..]) && response.socket.Healthy()
      invariant response.socket.sent == old(response.socket.sent) + done
      invariant all == Written(DoAll(response.Snapshot(), ops[i..]).response,
                               done + DoAll(response.Snapshot(), ops[i..]).bytes)
    {
      assert ops[i..][1..] == ops[i + 1..];
      ghost var bytes := Do(response.Snapshot(), ops[i]).bytes;
      ghost var later := DoAll(Do(response.Snapshot(), ops[i]).response, ops[i + 1..]).bytes;
      match ops[i] {
        case SetHeader(name, value) => response.SetHeader(name, value);
        case SetCookie(name, text) => response.SetCookie(name, text);
        case SetStatus(code, text) => response.SetStatus(code, text);
        case Write(data, last) => response.Write(data, last);
      }
      assert done + (bytes + later) == done + bytes + later;
      assert old(response.socket.sent) + (done + bytes) == old(response.socket.sent) + done + bytes;
      done := done + bytes;
    }
    assert done + "" == done;
  }

  /** Answers one request; says whether the connection has to be closed. */
  method Answer(socket: Socket, wish: Wish, ops: seq<Op>) returns (closeConnection: bool)
    requires socket.Healthy() && Legal(Prepared(wish), ops)
    modifies socket`sent, socket`outcomes
    ensures socket.Healthy() && socket.sent == old(socket.sent) + Served(wish, ops).bytes
    ensures closeConnection == !KeepsOpen(wish, Served(wish, ops).response)
    ensures closeConnection == MustClose(wish, ops)
  {
    hide WriteSpec, Insert, Legal, DoAll, Lower, MustClose;
    ClosesExactly(wish, ops);
    var response := new HttpResponse(socket);
    closeConnection := SameIgnoringCase(wish.connection, "close");
    if closeConnection {
      response.SetHeader("Connection", "close");
    } else {
      var http10 := SameIgnoringCase(wish.version, "HTTP/1.0");
      if http10 {
        closeConnection := true;
        response.SetHeader("Connection", "close");
      }
    }
    assert response.Snapshot() == Prepared(wish);
    Perform(response, ops);
    ghost var bytes := DoAll(Prepared(wish), ops).bytes;
    if !response.sentLastPart {
      ghost var end := WriteSpec(response.Snapshot(), "", true).bytes;
      response.Write("", true);
      assert old(socket.sent) + bytes + end == old(socket.sent) + (bytes + end);
    }
    if !closeConnection {
      var closeResponse := SameIgnoringCase(Value(response.headers, "Connection", ""), "close");
      if closeResponse {
        closeConnection := true;
      } else {
        var hasContentLength := Contains(response.headers, "Content-Length");
        if !hasContentLength {
          var hasChunkedMode := SameIgnoringCase(Value(response.headers, "Transfer-Encoding", ""), "chunked");
          if !hasChunkedMode {
            closeConnection := true;
          }
        }
      }
    }
  }

  /** The handler sets no framing headers itself. */
  predicate LeavesFraming(ops: seq<Op>) {
    forall op :: op in ops && op.SetHeader? ==> !IsFramingName(op.name)
  }

  lemma PreparedHasNoFraming(wish: Wish)
    ensures NoFraming(Prepared(wish).headers)
  {
    assert Lower("Connection")[2] == 'n' && Lower("Content-Length")[7] == '-' && |Lower("Transfer-Encoding")| == 17;
    assert |Lower("Connection")| == 10 && |Lower("Content-Length")| == 14;
  }

  /** Finishing is one more write. */
  lemma {:induction false} FinishedIsOneMoreWrite(r: Response, ops: seq<Op>)
    requires Legal(r, ops) && !r.sentLastPart && !DoAll(r, ops).response.sentLastPart
    ensures Legal(r, ops + [Write("", true)])
    ensures DoAll(r, ops + [Write("", true)]) == Finished(DoAll(r, ops))
    ensures Data(ops + [Write("", true)]) == Data(ops)
    decreases |ops|
  {
    hide WriteSpec, Insert, Do, DoAll, Legal, Data;
    var end: Op := Write("", true);
    if ops == [] {
      OneWrite(r, end);
    } else {
      var first := Do(r, ops[0]);
      LastPartStays(r, ops);
      OpInFront(r, ops, end);
      FinishedIsOneMoreWrite(first.response, ops[1..]);
      var later := DoAll(first.response, ops[1..]);
      var w := WriteSpec(later.response, "", true);
      assert first.bytes + (later.bytes + w.bytes) == first.bytes + later.bytes + w.bytes;
    }
  }

  lemma OneWrite(r: Response, op: Op)
    requires op.Write? && !r.sentLastPart
    ensures [] + [op] == [op] && Legal(r, [op]) && DoAll(r, [op]) == WriteSpec(r, op.data, op.last)
    ensures DoAll(r, []) == Written(r, "") && Data([op]) == op.data && Data([]) == ""
    ensures "" + WriteSpec(r, op.data, op.last).bytes == WriteSpec(r, op.data, op.last).bytes
  {
    hide WriteSpec;
    assert [op][1..] == [];
    var w := WriteSpec(r, op.data, op.last);
    assert w.bytes + "" == w.bytes && op.data + "" == op.data;
  }

  /** The first operation, with and without one more at the end. */
  lemma OpInFront(r: Response, ops: seq<Op>, op: Op)
    requires ops != [] && Legal(r, ops)
    ensures var first := Do(r, ops[0]); var later := DoAll(first.response, ops[1..]);
      && Legal(first.response, ops[1..]) && DoAll(r, ops) == Written(later.response, first.bytes + later.bytes)
      && (Legal(first.response, ops[1..] + [op]) ==> Legal(r, ops + [op]))
      && var more := DoAll(first.response, ops[1..] + [op]);
         DoAll(r, ops + [op]) == Written(more.response, first.bytes + more.bytes)
    ensures Data(ops[1..] + [op]) == Data(ops[1..]) ==> Data(ops + [op]) == Data(ops)
  {
    hide Do;
    assert (ops + [op])[1..] == ops[1..] + [op];
  }

  lemma {:induction false} LastPartStays(r: Response, ops: seq<Op>)
    requires Legal(r, ops)
    ensures r.sentLastPart ==> DoAll(r, ops).response.sentLastPart
    ensures ops != [] && !DoAll(r, ops).response.sentLastPart ==> !Do(r, ops[0]).response.sentLastPart
    decreases |ops|
  {
    hide Insert, HeaderBlock, BodyPart;
    if ops != [] {
      LastPartStays(Do(r, ops[0]).response, ops[1..]);
      DoKeepsLastPart(r, ops[0]);
    }
  }

  lemma DoKeepsLastPart(r: Response, op: Op)
    ensures r.sentLastPart ==> Do(r, op).response.sentLastPart
  {
    if op.Write? {
      SameBlock(r, op.data, op.last);
    }
  }

  // ---------- The framing the client sees ----------

  lemma LengthFraming(r: Response, data: string, tail: string)
    requires NoFraming(r.headers)
    ensures FramedBody(Framing(r, data, true).headers, data + tail) == Body(data, tail)
  {
    hide Insert, Lower, Number, ParseNat;
    FramingNamesDiffer();
    OnlyFramingHeader(r.headers, "Content-Length", Number(|data|), "Content-Length");
    OnlyFramingHeader(r.headers, "Content-Length", Number(|data|), "Transfer-Encoding");
    NumberRoundTrip(|data|);
    assert (data + tail)[..|data|] == data && (data + tail)[|data|..] == tail;
  }

  lemma ChunkedFraming(r: Response, data: string, s: string)
    requires NoFraming(r.headers) && Framing(r, data, false).chunkedMode && !r.chunkedMode
    ensures FramedBody(Framing(r, data, false).headers, s) == DecodeChunked(s)
  {
    hide Insert, Lower, DecodeChunked;
    OnlyFramingHeader(r.headers, "Transfer-Encoding", "chunked", "Transfer-Encoding");
  }

  lemma CloseFraming(r: Response, data: string, s: string)
    requires NoFraming(r.headers) && !Framing(r, data, false).chunkedMode
    ensures var hs := Framing(r, data, false).headers;
      && FramedBody(hs, s) == Body(s, "")
      && !Contains(hs, "Content-Length") && Value(hs, "Transfer-Encoding", "") == ""
  {
    hide Insert, DecodeChunked;
    NoFramingFound(r.headers, "Content-Length");
    NoFramingFound(r.headers, "Transfer-Encoding");
    AbsentValue(r.headers, "Transfer-Encoding", "");
    assert r.headers == Framing(r, data, false).headers;
    assert forall h :: h in r.headers ==> h.name != "Content-Length";
  }

  lemma {:induction false} AbsentValue(hs: seq<Header>, name: string, default: string)
    requires forall h :: h in hs ==> h.name != name
    ensures Value(hs, name, default) == default
  {
    if hs != [] {
      assert hs[0] in hs;
      AbsentValue(hs[1..], name, default);
    }
  }

  /** How a response was sent: the response of its header block, and the bytes behind the block. */
  datatype Sent = Sent(block: Response, body: string)

  /** The framing headers announce a body that holds `data` and ends before `tail`. */
  predicate Frames(sent: Sent, tail: string, data: string) {
    FramedBody(sent.block.headers, sent.body + tail) == Body(data, tail)
  }

  /** The client reads `data` from the body, and stops before `tail`. */
  predicate Reads(verb: string, sent: Sent, tail: string, data: string) {
    ClientBody(verb, sent.block.statusCode, sent.block.headers, sent.body + tail) == Body(data, tail)
  }

  lemma {:induction false} BeforeWriteLeavesFraming(r: Response, ops: seq<Op>)
    requires NoFraming(r.headers) && LeavesFraming(ops)
    ensures NoFraming(BeforeWrite(r, ops).headers)
    decreases |ops|
  {
    hide Insert, WriteSpec, IsFramingName;
    if ops != [] && !ops[0].Write? {
      assert ops[0] in ops;
      if ops[0].SetHeader? {
        InsertedNames(r.headers, ops[0].name, ops[0].value);
      }
      BeforeWriteLeavesFraming(Do(r, ops[0]).response, ops[1..]);
    }
  }

  lemma Regroup(head: string, part: string, end: string, later: string)
    ensures head + part + end + later == head + (part + end + later)
  {
  }

  /** The response that the header block shows: what was set before the first write, and the framing of that write. */
  function BlockOf(r: Response, ops: seq<Op>): Response {
    Framing(BeforeWrite(r, ops), FirstData(ops), !BeginsWithPart(ops)).(sentHeaders := true)
  }

  /** A complete run sends one header block; its body is self-delimiting unless it is ended by closing. */
  lemma CompleteRun(r: Response, ops: seq<Op>, tail: string) returns (sent: Sent)
    requires !r.sentHeaders && !r.sentLastPart && !r.chunkedMode && NoFraming(r.headers)
    requires Legal(r, ops) && LeavesFraming(ops) && DoAll(r, ops).response.sentLastPart
    ensures var w := DoAll(r, ops);
      && w.bytes == HeaderBlock(sent.block) + sent.body && sent.block.headers == w.response.headers
      && sent.block == BlockOf(r, ops)
      && Frames(sent, "", Data(ops))
      && (Frames(sent, tail, Data(ops)) || (!Contains(sent.block.headers, "Content-Length")
                                           && Value(sent.block.headers, "Transfer-Encoding", "") == ""))
  {
    var r1, i := SplitAtFirstWrite(r, ops);
    BeforeWriteLeavesFraming(r, ops);
    var data, last, rest := ops[i].data, ops[i].last, ops[i + 1..];
    hide NoFraming, LeavesFraming, DecodeChunked, Lower, Insert, HeaderBlock, HexNumber, FramedBody;
    var block := Framing(r1, data, last).(sentHeaders := true);
    var w := WriteSpec(r1, data, last);
    var later := DoAll(w.response, rest);
    BodyBytes(w.response, rest, tail);
    BodyBytes(w.response, rest, "");
    var part := BodyPart(data, block.chunkedMode);
    var end := if last && block.chunkedMode then LAST_CHUNK else "";
    sent := Sent(block, part + end + later.bytes);
    Regroup(HeaderBlock(block), part, end, later.bytes);
    FirstWriteReads(r1, data, last, later.bytes, Data(rest), tail);
    FirstWriteReads(r1, data, last, later.bytes, Data(rest), "");
    assert sent.body + "" == sent.body;
  }

  /** The body behind the first write, in each of the three framings. */
  lemma FirstWriteReads(r: Response, data: string, last: bool, later: string, laterData: string, tail: string)
    requires NoFraming(r.headers) && !r.chunkedMode
    requires last ==> later == "" && laterData == ""
    requires !last ==> if Framing(r, data, last).chunkedMode then DecodeChunked(later + tail) == Body(laterData, tail)
                       else later == laterData
    ensures var block := Framing(r, data, last);
      var body := BodyPart(data, block.chunkedMode) + (if last && block.chunkedMode then LAST_CHUNK else "") + later;
      if last || block.chunkedMode then FramedBody(block.headers, body + tail) == Body(data + laterData, tail)
      else
        && FramedBody(block.headers, body) == Body(data + laterData, "")
        && !Contains(block.headers, "Content-Length") && Value(block.headers, "Transfer-Encoding", "") == ""
  {
    hide NoFraming, FramedBody, DecodeChunked, Insert, HexNumber, Value, Contains;
    var block := Framing(r, data, last);
    var part := BodyPart(data, block.chunkedMode);
    if last {
      LengthFraming(r, data, tail);
      assert part + "" + later == data && data + laterData == data;
    } else if block.chunkedMode {
      var body := part + "" + later;
      ChunkedFraming(r, data, body + tail);
      ChunkedWrite(data, false, later, tail, laterData);
      assert body + tail == "" + part + "" + later + tail;
    } else {
      var body := part + "" + later;
      CloseFraming(r, data, body);
      assert body == data + laterData;
    }
  }

  /**
   Whatever the handler writes (nothing, a part before it throws, many parts), as long as it sets no framing
   headers: one header block is sent, its headers frame exactly the data written, and if the connection stays open
   they frame it without the connection being closed.
   */
  lemma KeptOpenIsSelfDelimiting(wish: Wish, ops: seq<Op>, tail: string) returns (sent: Sent)
    requires Legal(Prepared(wish), ops) && LeavesFraming(ops)
    ensures var w := Served(wish, ops);
      && w.response.sentLastPart
      && w.bytes == HeaderBlock(sent.block) + sent.body && sent.block.headers == w.response.headers
      && sent.block == BlockOf(Prepared(wish), ops)
      && Frames(sent, "", Data(ops))
      && (KeepsOpen(wish, w.response) ==> Frames(sent, tail, Data(ops)))
  {
    hide Legal, DoAll, WriteSpec, NoFraming, Frames, HeaderBlock, Data, Insert;
    PreparedHasNoFraming(wish);
    var r := Prepared(wish);
    var all := Completed(r, ops);
    CompletedRun(r, ops);
    assert LeavesFraming(all);
    sent := CompleteRun(r, all, tail);
    EmptyIsNoWord();
  }

  /** Framing headers that frame an empty body frame no data. */
  lemma NoBytesNoData(sent: Sent, data: string)
    requires Frames(sent, "", data) && sent.body == ""
    ensures data == ""
  {
    assert sent.body + "" == "";
  }

  /** The client and the framing headers agree exactly when the response may have a body, or has none. */
  lemma ReadsExactly(verb: string, sent: Sent, tail: string, data: string)
    requires Frames(sent, "", data) && Frames(sent, tail, data)
    ensures Reads(verb, sent, tail, data) <==> AllowsBody(verb, sent.block.statusCode) || sent.body == ""
  {
    hide FramedBody;
    if sent.body == "" {
      NoBytesNoData(sent, data);
      assert sent.body + tail == tail;
    } else {
      assert sent.body + tail != tail by { assert |sent.body + tail| > |tail|; }
    }
  }

  /**
   What a client reads of a response on a connection that stays open: exactly the data written, stopping before the
   next response, if and only if the request method and the status allow a body or no byte of one was sent. The code
   looks at neither of the two.
   */
  lemma ClientReadsExactly(verb: string, wish: Wish, ops: seq<Op>, tail: string) returns (sent: Sent)
    requires Legal(Prepared(wish), ops) && LeavesFraming(ops) && KeepsOpen(wish, Served(wish, ops).response)
    ensures Served(wish, ops).bytes == HeaderBlock(sent.block) + sent.body
    ensures Reads(verb, sent, tail, Data(ops)) <==> AllowsBody(verb, sent.block.statusCode) || sent.body == ""
  {
    hide Legal, LeavesFraming, Served, KeepsOpen, Reads, Frames, HeaderBlock, Data, AllowsBody;
    sent := KeptOpenIsSelfDelimiting(wish, ops, tail);
    ReadsExactly(verb, sent, tail, Data(ops));
  }

  /** A handler can send a body with status 204; a client takes it for the beginning of the next response. */
  lemma NoContentWithBody(tail: string) returns (sent: Sent)
    ensures var wish, ops := Wish("", "HTTP/1.1"), [SetStatus(204, "No Content"), Write("x", true)];
      && Legal(Prepared(wish), ops) && LeavesFraming(ops)
      && KeepsOpen(wish, Served(wish, ops).response)
      && Served(wish, ops).bytes == HeaderBlock(sent.block) + sent.body
      && ClientBody("GET", sent.block.statusCode, sent.block.headers, sent.body + tail) == Body("", "x" + tail)
  {
    hide Lower, HeaderBlock, Number, Insert, Contains, Value;
    var wish, ops := Wish("", "HTTP/1.1"), [SetStatus(204, "No Content"), Write("x", true)];
    assert ops[1..] == [Write("x", true)] && ops[1..][1..] == [];
    PlainWishStaysOpen();
    var before := NEW_RESPONSE.(statusCode := 204, statusText := "No Content");
    sent := Sent(Framing(before, "x", true).(sentHeaders := true), "x");
    LengthKeepsOpen(Number(1));
  }

  lemma PlainWishStaysOpen()
    ensures !Wish("", "HTTP/1.1").Close()
  {
    assert |Lower("")| == 0 && |Lower("close")| == 5;
    assert Lower("HTTP/1.1")[7] == '1' && Lower("HTTP/1.0")[7] == '0';
  }

  lemma LengthKeepsOpen(length: string)
    ensures var hs := Insert([], "Content-Length", length);
      Contains(hs, "Content-Length") && !SameIgnoringCase(Value(hs, "Connection", ""), "close")
  {
    var hs := Insert([], "Content-Length", length);
    assert hs == [Header("Content-Length", length)] && hs[0].name == "Content-Length";
    assert [Header("Content-Length", length)][1..] == [];
    assert |Lower("")| == 0 && |Lower("close")| == 5;
  }

  lemma FinishingEnds(w: Written)
    ensures Finished(w).response.sentLastPart
  {
  }
}
