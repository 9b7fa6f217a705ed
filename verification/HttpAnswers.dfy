/** Answers on the wire: what a client reads from the bytes alone, for one response and for a whole connection. */
module HttpAnswers {
  import opened Strings
  import opened HttpText
  import opened HttpResponses
  import opened HttpHandlers
  import opened HttpClients
  import opened HttpKeepAlive

  /** The texts a handler sets are lines, and no header name contains a colon. */
  predicate OneLine(op: Op) {
    match op
    case SetHeader(name, value) => NoLineEnd(name) && NoLineEnd(value) && ':' !in name
    case SetCookie(_, text) => NoLineEnd(text)
    case SetStatus(_, text) => NoLineEnd(text)
    case Write(_, _) => true
  }

  predicate OneLineOps(ops: seq<Op>) {
    forall op :: op in ops ==> OneLine(op)
  }

  predicate Printable(r: Response) {
    OneLineTexts(r) && PlainNames(r.headers)
  }

  lemma InsertedIsPrintable(r: Response, name: string, value: string)
    requires Printable(r) && NoLineEnd(name) && NoLineEnd(value) && ':' !in name
    ensures Printable(r.(headers := Insert(r.headers, name, value)))
  {
    InsertedNames(r.headers, name, value);
  }

  lemma CookieIsPrintable(r: Response, name: string, text: string)
    requires Printable(r) && NoLineEnd(text)
    ensures Printable(r.(cookies := Insert(r.cookies, name, text)))
  {
    InsertedNames(r.cookies, name, text);
  }

  lemma {:induction false} BeforeWriteIsPrintable(r: Response, ops: seq<Op>)
    requires Printable(r) && OneLineOps(ops)
    ensures Printable(BeforeWrite(r, ops))
    decreases |ops|
  {
    hide Insert, WriteSpec, Printable;
    if ops != [] && !ops[0].Write? {
      assert ops[0] in ops;
      match ops[0] {
        case SetHeader(name, value) => InsertedIsPrintable(r, name, value);
        case SetCookie(name, text) =>
          if name != "" {
            CookieIsPrintable(r, name, text);
          }
        case SetStatus(code, text) => StatusIsPrintable(r, code, text);
      }
      BeforeWriteIsPrintable(Do(r, ops[0]).response, ops[1..]);
    }
  }

  lemma StatusIsPrintable(r: Response, code: nat, text: string)
    requires Printable(r) && NoLineEnd(text)
    ensures Printable(r.(statusCode := code, statusText := text))
  {
  }

  lemma FramingIsPrintable(r: Response, data: string, last: bool)
    requires Printable(r)
    ensures Printable(Framing(r, data, last))
  {
    hide Insert, Printable, Number, SameIgnoringCase, Value;
    if last {
      LengthIsOneLine(|data|);
      InsertedIsPrintable(r, "Content-Length", Number(|data|));
    } else {
      ChunksArePrintable(r);
    }
  }

  lemma LengthIsOneLine(n: nat)
    ensures NoLineEnd(Number(n))
  {
    assert forall k :: 0 <= k < |Number(n)| ==> IsDigit(Number(n)[k]);
  }

  lemma ChunksArePrintable(r: Response)
    requires Printable(r)
    ensures Printable(r.(headers := Insert(r.headers, "Transfer-Encoding", "chunked"), chunkedMode := true))
  {
    hide Insert, Printable;
    InsertedIsPrintable(r, "Transfer-Encoding", "chunked");
    var framed := r.(headers := Insert(r.headers, "Transfer-Encoding", "chunked"));
    ChunkedIsPrintable(framed);
  }

  lemma SentIsPrintable(r: Response)
    requires Printable(r)
    ensures Printable(r.(sentHeaders := true))
  {
  }

  lemma ChunkedIsPrintable(r: Response)
    requires Printable(r)
    ensures Printable(r.(chunkedMode := true))
  {
  }

  lemma PreparedIsPrintable(wish: Wish)
    ensures Printable(Prepared(wish))
  {
    hide Insert, Printable;
    assert Printable(NEW_RESPONSE) by { NewIsPrintable(); }
    InsertedIsPrintable(NEW_RESPONSE, "Connection", "close");
  }

  lemma NewIsPrintable()
    ensures Printable(NEW_RESPONSE)
  {
  }

  // ---------- One response ----------

  lemma BlockIsPrintable(wish: Wish, ops: seq<Op>)
    requires OneLineOps(ops)
    ensures Printable(BlockOf(Prepared(wish), ops))
  {
    hide Printable, BeforeWrite, Framing, Prepared, FirstData, BeginsWithPart;
    PreparedIsPrintable(wish);
    BeforeWriteIsPrintable(Prepared(wish), ops);
    FramingIsPrintable(BeforeWrite(Prepared(wish), ops), FirstData(ops), !BeginsWithPart(ops));
    SentIsPrintable(Framing(BeforeWrite(Prepared(wish), ops), FirstData(ops), !BeginsWithPart(ops)));
  }

  /** The cookies in a header block do not frame its body. */
  lemma {:induction false} CookiesDoNotFrame(hs: seq<Header>, cookies: seq<Header>, name: string)
    requires IsFramingName(name)
    ensures ClientValue(hs + CookieHeaders(cookies), name) == ClientValue(hs, name)
    decreases |hs|, |cookies|
  {
    hide SameIgnoringCase;
    if hs != [] {
      assert (hs + CookieHeaders(cookies))[1..] == hs[1..] + CookieHeaders(cookies);
      CookiesDoNotFrame(hs[1..], cookies, name);
    } else {
      var cs := CookieHeaders(cookies);
      assert hs + cs == cs;
      if cookies != [] {
        assert cs[1..] == CookieHeaders(cookies[1..]);
        CookiesDoNotFrame([], cookies[1..], name);
        assert [] + CookieHeaders(cookies[1..]) == CookieHeaders(cookies[1..]);
        SetCookieIsNoFramingName(name);
      }
    }
  }

  lemma SetCookieIsNoFramingName(name: string)
    requires IsFramingName(name)
    ensures !SameIgnoringCase("Set-Cookie", name)
  {
    assert |Lower("Set-Cookie")| == 10 && |Lower("Content-Length")| == 14 && |Lower("Transfer-Encoding")| == 17;
  }

  lemma FramedAsBlock(hs: seq<Header>, cookies: seq<Header>, s: string)
    ensures FramedBody(hs + CookieHeaders(cookies), s) == FramedBody(hs, s)
  {
    hide DecodeChunked, ParseNat, Lower;
    CookiesDoNotFrame(hs, cookies, "Content-Length");
    CookiesDoNotFrame(hs, cookies, "Transfer-Encoding");
  }

  /** The `Connection` header that the printer looks at. */
  function ConnectionOf(wish: Wish, ops: seq<Op>): string {
    Or(LastSet(ops, "Connection"), if wish.Close() then "close" else Or(LastSet(ops, "connection"), ""))
  }

  /** Not even an empty chunk is sent behind the header block. */
  predicate SendsNoBody(wish: Wish, ops: seq<Op>) {
    Data(ops) == "" && (BeginsWithPart(ops) ==> SameIgnoringCase(ConnectionOf(wish, ops), "close"))
  }

  lemma NothingIsNoChunk()
    ensures DecodeChunked("") == Malformed
  {
  }

  /** A body that is framed as `data` is empty exactly if there is no data and no chunk. */
  lemma EmptyBody(r: Response, first: string, last: bool, body: string, data: string)
    requires NoFraming(r.headers) && !r.chunkedMode
    requires FramedBody(Framing(r, first, last).headers, body) == Body(data, "")
    ensures body == "" <==> data == "" && !Framing(r, first, last).chunkedMode
  {
    hide DecodeChunked, ParseNat, Lower, Insert, Number;
    if Framing(r, first, last).chunkedMode {
      ChunkedFraming(r, first, body);
      NothingIsNoChunk();
    } else if last {
      FramingNamesDiffer();
      OnlyFramingHeader(r.headers, "Content-Length", Number(|first|), "Content-Length");
      OnlyFramingHeader(r.headers, "Content-Length", Number(|first|), "Transfer-Encoding");
    } else {
      CloseFraming(r, first, body);
    }
  }

  lemma PreparedHeader(wish: Wish, name: string, default: string)
    ensures Value(Prepared(wish).headers, name, default)
         == if wish.Close() && name == "Connection" then "close" else default
  {
    NothingSet(name, default);
    InsertedValue([], "Connection", "close", name, default);
  }

  lemma BlockChunks(wish: Wish, ops: seq<Op>)
    ensures BlockOf(Prepared(wish), ops).chunkedMode
        <==> BeginsWithPart(ops) && !SameIgnoringCase(ConnectionOf(wish, ops), "close")
  {
    hide Insert, LastSet, BeginsWithPart, Lower, FirstData, Value;
    var r := Prepared(wish);
    var b := BeforeWrite(r, ops);
    BeforeWriteIsUnsent(r, ops);
    hide BeforeWrite;
    SetBeforeWrite(r, ops, "connection", "");
    SetBeforeWrite(r, ops, "Connection", Value(b.headers, "connection", ""));
    PreparedHeader(wish, "connection", "");
    PreparedHeader(wish, "Connection", Value(b.headers, "connection", ""));
    assert "connection"[0] != "Connection"[0];
  }

  lemma {:induction false} BeforeWriteIsUnsent(r: Response, ops: seq<Op>)
    ensures BeforeWrite(r, ops).chunkedMode == r.chunkedMode
    decreases |ops|
  {
    if ops != [] && !ops[0].Write? {
      BeforeWriteIsUnsent(Do(r, ops[0]).response, ops[1..]);
    }
  }

  /** A header that the framing of the first write does not insert is the one that was set last. */
  lemma BlockHeader(wish: Wish, ops: seq<Op>, name: string)
    requires !IsFramingName(name)
    ensures Value(BlockOf(Prepared(wish), ops).headers, name, "")
         == Or(LastSet(ops, name), if wish.Close() && name == "Connection" then "close" else "")
  {
    hide Insert, LastSet, BeginsWithPart, FirstData, Value, BeforeWrite, Lower, Number;
    var r := Prepared(wish);
    var b := BeforeWrite(r, ops);
    SetBeforeWrite(r, ops, name, "");
    PreparedHeader(wish, name, "");
    InsertedValue(b.headers, "Content-Length", Number(|FirstData(ops)|), name, "");
    InsertedValue(b.headers, "Transfer-Encoding", "chunked", name, "");
  }

  lemma BlockStatus(wish: Wish, ops: seq<Op>)
    ensures var block := BlockOf(Prepared(wish), ops);
      Status(block.statusCode, block.statusText) == LastStatus(ops, Status(200, "OK"))
  {
    hide Insert, LastSet, LastStatus, BeginsWithPart, FirstData, Value, BeforeWrite, Lower, Number;
    SetBeforeWrite(Prepared(wish), ops, "", "");
  }

  lemma {:induction false} ValueInFront(hs: seq<Header>, more: seq<Header>, name: string)
    requires forall h :: h in more ==> h.name != name
    ensures Value(hs + more, name, "") == Value(hs, name, "")
  {
    if hs == [] {
      assert hs + more == more;
      AbsentValue(more, name, "");
    } else {
      assert (hs + more)[1..] == hs[1..] + more;
      ValueInFront(hs[1..], more, name);
    }
  }

  lemma {:induction false} CookieHeadersAre(cookies: seq<Header>)
    ensures forall h :: h in CookieHeaders(cookies) ==> h.name == "Set-Cookie"
    ensures forall c :: c in cookies ==> Header("Set-Cookie", c.value) in CookieHeaders(cookies)
  {
    if cookies != [] {
      CookieHeadersAre(cookies[1..]);
    }
  }

  lemma {:induction false} ValueIsThere(hs: seq<Header>, name: string, default: string)
    ensures Value(hs, name, default) == default || Header(name, Value(hs, name, default)) in hs
  {
    if hs != [] && hs[0].name != name {
      ValueIsThere(hs[1..], name, default);
      assert forall h :: h in hs[1..] ==> h in hs;
    }
  }

  /** The last text set for a cookie is in its own line. */
  lemma BlockCookie(wish: Wish, ops: seq<Op>, name: string)
    requires name != "" && LastCookie(ops, name).Found?
    ensures Header("Set-Cookie", LastCookie(ops, name).value)
         in CookieHeaders(BlockOf(Prepared(wish), ops).cookies)
  {
    hide Insert, LastSet, LastStatus, LastCookie, BeginsWithPart, FirstData, Value, BeforeWrite, Lower, Number;
    var r := Prepared(wish);
    var cookies := BeforeWrite(r, ops).cookies;
    var text := LastCookie(ops, name).value;
    var other := text + "x";
    assert |other| > |text|;
    SetBeforeWrite(r, ops, name, other);
    ValueIsThere(cookies, name, other);
    CookieHeadersAre(cookies);
  }

  /**
   What a client reads at the start of a connection on which one response is sent, from the bytes alone: the status, the
   headers and the cookies that the handler set last before its first write, and behind them the body.
   */
  lemma HeadOnTheWire(wish: Wish, ops: seq<Op>, tail: string) returns (body: string)
    requires Legal(Prepared(wish), ops) && LeavesFraming(ops) && OneLineOps(ops)
    ensures var head := ReadHead(Served(wish, ops).bytes + tail);
      && head.Head? && head.body == body + tail
      && Status(head.statusCode, head.statusText) == LastStatus(ops, Status(200, "OK"))
      && (forall name | !IsFramingName(name) && name != "Set-Cookie" ::
            Value(head.headers, name, "")
              == Or(LastSet(ops, name), if wish.Close() && name == "Connection" then "close" else ""))
      && (forall name | name != "" && LastCookie(ops, name).Found? ::
            Header("Set-Cookie", LastCookie(ops, name).value) in head.headers)
    ensures var head := ReadHead(Served(wish, ops).bytes + tail);
      && FramedBody(head.headers, body) == Body(Data(ops), "")
      && (!MustClose(wish, ops) ==> FramedBody(head.headers, body + tail) == Body(Data(ops), tail))
    ensures body == "" <==> SendsNoBody(wish, ops)
  {
    hide Legal, LeavesFraming, OneLineOps, Served, HeaderBlock, ReadHead, Data, LastSet, LastStatus, LastCookie, Value;
    hide Printable, BlockOf, FramedBody, KeepsOpen, MustClose, IsFramingName, Prepared, BeginsWithPart;
    var sent := KeptOpenIsSelfDelimiting(wish, ops, tail);
    body := sent.body;
    var block := BlockOf(Prepared(wish), ops);
    BlockIsPrintable(wish, ops);
    HeadIs(wish, ops, block, body, tail);
    ClosesExactly(wish, ops);
    assert body + "" == body;
    FramedAsBlock(block.headers, block.cookies, body);
    FramedAsBlock(block.headers, block.cookies, body + tail);
    BlockStatus(wish, ops);
    CookieHeadersAre(block.cookies);
    forall name | !IsFramingName(name) && name != "Set-Cookie"
      ensures Value(block.headers + CookieHeaders(block.cookies), name, "")
           == Or(LastSet(ops, name), if wish.Close() && name == "Connection" then "close" else "")
    {
      BlockHeader(wish, ops, name);
      ValueInFront(block.headers, CookieHeaders(block.cookies), name);
    }
    forall name | name != "" && LastCookie(ops, name).Found?
      ensures Header("Set-Cookie", LastCookie(ops, name).value) in block.headers + CookieHeaders(block.cookies)
    {
      BlockCookie(wish, ops, name);
    }
    BodyIsEmpty(wish, ops, body);
  }

  lemma HeadIs(wish: Wish, ops: seq<Op>, block: Response, body: string, tail: string)
    requires Printable(block) && Served(wish, ops).bytes == HeaderBlock(block) + body
    ensures ReadHead(Served(wish, ops).bytes + tail)
         == Head(block.statusCode, block.statusText, block.headers + CookieHeaders(block.cookies), body + tail)
  {
    hide Served, HeaderBlock, ReadHead;
    HeadComesBack(block, body + tail);
    assert HeaderBlock(block) + body + tail == HeaderBlock(block) + (body + tail);
  }

  lemma BodyIsEmpty(wish: Wish, ops: seq<Op>, body: string)
    requires LeavesFraming(ops) && FramedBody(BlockOf(Prepared(wish), ops).headers, body) == Body(Data(ops), "")
    ensures body == "" <==> SendsNoBody(wish, ops)
  {
    hide FramedBody, Data, Framing, BeforeWrite, FirstData, BeginsWithPart, NoFraming, LeavesFraming, ConnectionOf;
    hide SameIgnoringCase;
    var r := Prepared(wish);
    PreparedHasNoFraming(wish);
    BeforeWriteLeavesFraming(r, ops);
    BeforeWriteIsUnsent(r, ops);
    EmptyBody(BeforeWrite(r, ops), FirstData(ops), !BeginsWithPart(ops), body, Data(ops));
    BlockChunks(wish, ops);
  }

  /**
   For every handler that leaves the framing to the library and sets one-line texts: what a client reads of its
   response, from the bytes, is exactly the data written and ends exactly where the response ends, if and only if the
   request method and the status allow a body or no byte of one was sent. Behind a response that leaves the connection
   open this holds whatever follows; otherwise nothing follows.
   */
  lemma AnswerOnTheWire(verb: string, wish: Wish, ops: seq<Op>, tail: string)
    requires Legal(Prepared(wish), ops) && LeavesFraming(ops) && OneLineOps(ops)
    requires MustClose(wish, ops) ==> tail == ""
    ensures ReadResponse(verb, Served(wish, ops).bytes + tail) == Body(Data(ops), tail)
        <==> AllowsBody(verb, LastStatus(ops, Status(200, "OK")).code) || SendsNoBody(wish, ops)
  {
    hide Legal, LeavesFraming, OneLineOps, Served, HeaderBlock, ReadHead, Data, LastSet, LastStatus, LastCookie, Value;
    hide FramedBody, MustClose, IsFramingName, Prepared, AllowsBody, SendsNoBody;
    var body := HeadOnTheWire(wish, ops, tail);
    var head := ReadHead(Served(wish, ops).bytes + tail);
    assert body + "" == body;
    if body == "" {
      assert body + tail == tail;
      EmptyFramed(head.headers, Data(ops));
    } else {
      assert |body + tail| > |tail|;
    }
  }

  lemma EmptyFramed(hs: seq<Header>, data: string)
    requires FramedBody(hs, "") == Body(data, "")
    ensures data == ""
  {
    NothingIsNoChunk();
  }

}
