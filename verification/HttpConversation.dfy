/** A whole connection seen from the client: requests sent in any pieces, answers read one after the other. */
module HttpConversations {
  import opened Strings
  import opened HttpText
  import opened HttpRequests
  import opened HttpLimits
  import opened HttpResponses
  import opened HttpHandlers
  import opened HttpClients
  import opened HttpKeepAlive
  import opened HttpAnswers
  import opened HttpConnections
  import opened HttpMessages
  import opened HttpPipelining
  import opened HttpPipelineRuns

  // ---------- The client ----------

  datatype Responses = Responses(bodies: seq<string>, rest: string) | Garbled

  /** Reads one response for each request, whose methods are in `verbs`. */
  function ReadResponses(verbs: seq<string>, s: string): Responses {
    if verbs == [] then Responses([], s)
    else
      match ReadResponse(verbs[0], s)
      case Malformed => Garbled
      case Body(data, rest) =>
        match ReadResponses(verbs[1..], rest)
        case Garbled => Garbled
        case Responses(bodies, rest') => Responses([data] + bodies, rest')
  }

  function Verbs(rs: seq<Request>): seq<string> {
    if rs == [] then [] else [rs[0].verb] + Verbs(rs[1..])
  }

  // ---------- The handler ----------

  /** What a handler writes for each of the requests, the ones in `before` having been handled. */
  function BodiesWritten(service: Service, before: seq<Request>, rs: seq<Request>): seq<string>
    decreases |rs|
  {
    if rs == [] then []
    else [Data(service(before + [rs[0]]))] + BodiesWritten(service, before + [rs[0]], rs[1..])
  }

  /** The handler leaves the framing to the library, sets one-line texts, and sends a body only where one is allowed. */
  predicate WellAnswered(r: Request, ops: seq<Op>) {
    && Legal(Prepared(WishOf(r)), ops) && LeavesFraming(ops) && OneLineOps(ops)
    && (AllowsBody(r.verb, LastStatus(ops, Status(200, "OK")).code) || SendsNoBody(WishOf(r), ops))
  }

  ghost predicate AnswersWell(service: Service) {
    forall history: seq<Request>, r :: WellAnswered(r, service(history + [r]))
  }

  // ---------- The conversation ----------

  /** `out` is what a connection has sent for `rs`, and a client reads it as the bodies written. */
  ghost predicate ReadInTurn(service: Service, before: seq<Request>, rs: seq<Request>, out: string) {
    ReadResponses(Verbs(rs), out) == Responses(BodiesWritten(service, before, rs), "")
  }

  lemma NothingInTurn(service: Service, before: seq<Request>)
    ensures ReadInTurn(service, before, [], "")
  {
  }

  lemma OneInTurn(service: Service, before: seq<Request>, r: Request, rs: seq<Request>, out: string)
    requires AnswersWell(service) && ReadInTurn(service, before + [r], rs, out)
    requires MustClose(WishOf(r), service(before + [r])) ==> out == ""
    ensures ReadInTurn(service, before, [r] + rs, Served(WishOf(r), service(before + [r])).bytes + out)
  {
    hide ReadResponse, Served, MustClose, Legal, LeavesFraming, OneLineOps, Data, LastStatus, AllowsBody, SendsNoBody;
    hide WishOf;
    var ops := service(before + [r]);
    assert WellAnswered(r, ops);
    AnswerOnTheWire(r.verb, WishOf(r), ops, out);
    assert ([r] + rs)[0] == r && ([r] + rs)[1..] == rs;
    assert Verbs([r] + rs) == [r.verb] + Verbs(rs);
    assert ([r.verb] + Verbs(rs))[1..] == Verbs(rs);
  }

  /** The requests dispatched, and what the client reads in answer. */
  lemma {:induction false} ServedInTurn(cfg: Config, service: Service, c: Connection, ms: seq<Message>, start: nat,
          ends: seq<nat>)
    returns (n: nat, out: string)
    requires AnswersWell(service)
    ensures n <= |ms|
    ensures var c' := Serve(cfg, service, c, ms, start, 0, ends); var rs := Requests(cfg, ms, start, ends)[..n];
      && c'.dispatched == c.dispatched + rs && c'.sent == c.sent + out
      && ReadInTurn(service, c.dispatched, rs, out)
    decreases |ms|
  {
    hide Charge, RequestOf, Encoded, AnswersWell, Served, ReadInTurn, KeepsOpen;
    n, out := 0, "";
    var rs := Requests(cfg, ms, start, ends);
    if ms != [] && c.open && Charge(ms[0], start, 0, ends) <= cfg.maxSize {
      var r := RequestOf(cfg, ms[0], Charge(ms[0], start, 0, ends));
      var c1, next := Dispatch(service, c, r), start + |Encoded(ms[0])|;
      var n', out' := ServedInTurn(cfg, service, c1, ms[1..], next, ends);
      var bytes := Served(WishOf(r), service(c.dispatched + [r])).bytes;
      var later := Requests(cfg, ms[1..], next, ends);
      n, out := n' + 1, bytes + out';
      assert rs[..n] == [r] + later[..n'];
      assert c.dispatched + [r] + later[..n'] == c.dispatched + ([r] + later[..n']);
      assert c.sent + bytes + out' == c.sent + (bytes + out');
      AnsweredOrClosed(cfg, service, c, r, ms[1..], next, ends, out');
      OneInTurn(service, c.dispatched, r, later[..n'], out');
    } else {
      assert rs[..0] == [] && c.sent + "" == c.sent;
      NothingInTurn(service, c.dispatched);
    }
  }

  /** Nothing is sent behind an answer that closes the connection. */
  lemma AnsweredOrClosed(cfg: Config, service: Service, c: Connection, r: Request, ms: seq<Message>, start: nat,
                         ends: seq<nat>, out: string)
    requires AnswersWell(service)
    requires Serve(cfg, service, Dispatch(service, c, r), ms, start, 0, ends).sent == Dispatch(service, c, r).sent + out
    ensures MustClose(WishOf(r), service(c.dispatched + [r])) ==> out == ""
  {
    hide Charge, RequestOf, Encoded, Served, MustClose, KeepsOpen, Legal, WishOf, LeavesFraming, OneLineOps;
    var ops := service(c.dispatched + [r]);
    assert WellAnswered(r, ops);
    ClosesExactly(WishOf(r), ops);
  }

  /**
   A connection from end to end: a client sends requests in any pieces, the handler answers each of them, and the client
   that reads one response for each dispatched request gets exactly what the handler wrote for it, in order, and has
   then read everything that was sent, whether the connection is still open, was closed after an answer, or was refused.
   */
  lemma ClientGetsAnswers(cfg: Config, service: Service, ms: seq<Message>, pieces: seq<string>)
    requires cfg.maxSize >= 0 && ReadsInts(cfg.lib.toInt) && AllWellFormed(ms) && AnswersWell(service)
    requires Concat(pieces) == EncodedAll(ms) && Pieces(pieces)
    ensures var c := Deliver(cfg, service, NEW_CONNECTION, pieces);
      && c.dispatched <= Requests(cfg, ms, 0, Ends(0, pieces))
      && ReadResponses(Verbs(c.dispatched), c.sent) == Responses(BodiesWritten(service, [], c.dispatched), "")
  {
    hide ReadsInts, AllWellFormed, Deliver, Serve, Pieces, Requests, AnswersWell, ReadResponses;
    Pipelining(cfg, service, ms, pieces);
    var n, out := ServedInTurn(cfg, service, NEW_CONNECTION, ms, 0, Ends(0, pieces));
    var rs := Requests(cfg, ms, 0, Ends(0, pieces))[..n];
    assert [] + rs == rs && "" + out == out;
  }

  /** What a client reads behind the answers when a request is too large. */
  lemma RefusalIsRead()
    ensures ReadHead(TOO_LARGE)
         == Head(413, "entity too large", [Header("Connection", "close")], "413 Entity too large\r\n")
  {
    hide ReadHead, HeaderBlock;
    var text, hs := "entity too large", [Header("Connection", "close")];
    var r := NEW_RESPONSE.(statusCode := 413, statusText := text, headers := hs);
    var body := "413 Entity too large\r\n";
    RefusalBlock(r);
    NoLineEnds();
    HeadComesBack(r, body);
    assert hs + CookieHeaders([]) == hs;
  }

  lemma NoLineEnds()
    ensures NoLineEnd("entity too large") && NoLineEnd("Connection") && NoLineEnd("close") && ':' !in "Connection"
  {
  }

  lemma RefusalBlock(r: Response)
    requires r.statusCode == 413 && r.statusText == "entity too large" && r.cookies == []
    requires r.headers == [Header("Connection", "close")]
    ensures TOO_LARGE == HeaderBlock(r) + "413 Entity too large\r\n"
  {
    hide Number, HeaderLines, CookieLines;
    RefusalStatus();
    RefusalHeader(r.headers);
    var status, header := "HTTP/1.1 413 entity too large\r\n", "Connection: close\r\n";
    assert CookieLines([]) == "" by { NoCookieLines(); }
    assert status + header + "" + CRLF == status + header + CRLF;
  }

  lemma RefusalStatus()
    ensures "HTTP/1.1 " + Number(413) + " " + "entity too large" + CRLF == "HTTP/1.1 413 entity too large\r\n"
  {
    assert Number(4) == "4";
    assert Number(41) == "4" + "1" == "41";
    assert Number(413) == "41" + "3" == "413";
  }

  lemma RefusalHeader(hs: seq<Header>)
    requires hs == [Header("Connection", "close")]
    ensures HeaderLines(hs) == "Connection: close\r\n"
  {
    assert hs[1..] == [];
    assert "Connection" + ": " + "close" + CRLF + "" == "Connection: close\r\n";
  }

  lemma NoCookieLines()
    ensures CookieLines([]) == ""
  {
  }
}
