/** The loop that reads pipelined requests from a connection and answers them. */
module HttpConnections {
  import opened Strings
  import opened HttpText
  import opened HttpSockets
  import opened HttpRequests
  import opened HttpLimits
  import opened HttpResponses
  import opened HttpKeepAlive

  const TOO_LARGE :=
    "HTTP/1.1 413 entity too large\r\n" + "Connection: close\r\n" + "\r\n" + "413 Entity too large\r\n"

  datatype Option<T> = None | Some(value: T)

  /** What the request handler does with its response, given all requests dispatched so far. */
  type Service = seq<Request> -> seq<Op>

  function WishOf(r: Request): Wish {
    Wish(LastValue(r.headers, "connection"), r.version)
  }

  /** The request being read, the requests dispatched, the bytes of the responses, and how the connection stands. */
  datatype Connection =
    Connection(current: Option<Request>, dispatched: seq<Request>, sent: string, refused: bool, open: bool)

  const NEW_CONNECTION := Connection(None, [], "", false, true)

  predicate Reading(c: Connection) {
    c.current.Some? ==> Pending(c.current.value)
  }

  function Current(c: Connection): Request {
    if c.current.Some? then c.current.value else NEW_REQUEST
  }

  function Dispatch(service: Service, c: Connection, r: Request): Connection {
    var history := c.dispatched + [r];
    var w := Served(WishOf(r), service(history));
    c.(current := None, dispatched := history, sent := c.sent + w.bytes, open := KeepsOpen(WishOf(r), w.response))
  }

  /** The connection once its current request has become `r`. */
  function Settle(service: Service, c: Connection, r: Request): Connection {
    match r.status
    case Abort => c.(current := None, refused := true, open := false)
    case Complete => Dispatch(service, c, r)
    case _ => c.(current := Some(r))
  }

  function Rank(c: Connection): nat {
    if !c.open then 0 else if c.current.Some? && c.current.value.status == WaitForBody then 2 else 1
  }

  /** All bytes that have arrived are read, unless the connection is closed before. */
  function ReadAll(cfg: Config, service: Service, c: Connection, s: string): (c': Connection)
    requires Reading(c)
    ensures Reading(c')
    decreases |s|, Rank(c)
  {
    if !c.open || s == "" then c
    else
      var r := Current(c);
      var step := ReadStep(cfg, r, s);
      StepKeepsPending(cfg, r, s);
      ReadsOrEnds(cfg, r, s);
      ReadAll(cfg, service, Settle(service, c, step.request), step.rest)
  }

  /** The bytes arrive in pieces. */
  function Deliver(cfg: Config, service: Service, c: Connection, pieces: seq<string>): (c': Connection)
    requires Reading(c)
    ensures Reading(c')
    decreases |pieces|
  {
    if pieces == [] then c else Deliver(cfg, service, ReadAll(cfg, service, c, pieces[0]), pieces[1..])
  }

  /** A handler never writes after its last part and sets no header after the first part. */
  ghost predicate LegalService(service: Service) {
    forall history :: history != [] ==> Legal(Prepared(WishOf(history[|history| - 1])), service(history))
  }

  class HttpConnectionHandler {
    const cfg: Config
    const service: Service
    const socket: Socket
    var currentRequest: HttpRequest?
    var dispatched: seq<Request>
    ghost var sent: string
    ghost var refused: bool

    ghost function Snapshot(): Connection
      reads this, socket, currentRequest
    {
      Connection(if currentRequest == null then None else Some(currentRequest.Snapshot()),
                 dispatched, sent, refused, socket.open)
    }

    ghost predicate Valid()
      reads this, socket, currentRequest
    {
      && LegalService(service)
      && (currentRequest != null ==> currentRequest.cfg == cfg && Pending(currentRequest.Snapshot()))
      && (socket.open ==> socket.Healthy() && !refused)
      && (if refused then sent <= socket.sent <= sent + TOO_LARGE else socket.sent == sent)
    }

    constructor (cfg: Config, service: Service, socket: Socket)
      requires LegalService(service) && socket.Healthy() && socket.sent == ""
      ensures Valid() && Snapshot() == NEW_CONNECTION
      ensures this.socket == socket && this.cfg == cfg && this.service == service
    {
      hide LegalService, TOO_LARGE;
      this.cfg, this.service, this.socket := cfg, service, socket;
      currentRequest := null;
      dispatched, sent, refused := [], "", false;
    }

    /** Collects data for the request until it is final or nothing is left. */
    method Collect(ghost c: Connection)
      requires currentRequest != null && currentRequest.cfg == cfg && Pending(currentRequest.Snapshot())
      requires socket.open && socket.available != ""
      requires c.open && c.current == Some(currentRequest.Snapshot())
      modifies currentRequest, socket`available
      ensures PendingOrFinal(currentRequest.Snapshot())
      ensures Pending(currentRequest.Snapshot()) ==> socket.available == ""
      ensures |socket.available| < |old(socket.available)| || currentRequest.status == Abort
           || (currentRequest.status == Complete && old(currentRequest.status) == WaitForBody
               && socket.available == old(socket.available))
      ensures ReadAll(cfg, service, c, old(socket.available))
           == ReadAll(cfg, service, Settle(service, c, currentRequest.Snapshot()), socket.available)
    {
      hide ReadAll, ReadStep, Served, KeepsOpen;
      ghost var before, first := currentRequest.Snapshot(), socket.available;
      while socket.available != "" && currentRequest.status != Complete && currentRequest.status != Abort
        invariant PendingOrFinal(currentRequest.Snapshot())
        invariant |socket.available| < |first| || currentRequest.status == Abort
          || (currentRequest.status == Complete && before.status == WaitForBody && socket.available == first)
          || (currentRequest.Snapshot() == before && socket.available == first)
        invariant ReadAll(cfg, service, Settle(service, c, currentRequest.Snapshot()), socket.available)
               == ReadAll(cfg, service, c, first)
        decreases |socket.available|, currentRequest.status != Complete && currentRequest.status != Abort
      {
        ghost var r, s := currentRequest.Snapshot(), socket.available;
        StepKeepsPending(cfg, r, s);
        ReadsOrEnds(cfg, r, s);
        OneStep(cfg, service, c, r, s);
        currentRequest.ReadFromSocket(socket);
      }
    }

    /** The error message, and the end of the connection. */
    method Refuse()
      requires socket.open && socket.sent == sent
      modifies this`currentRequest, this`refused, socket
      ensures Snapshot() == old(Snapshot()).(current := None, refused := true, open := false)
      ensures currentRequest == null && socket.available == "" && sent <= socket.sent <= sent + TOO_LARGE
    {
      hide TOO_LARGE;
      var written := socket.Write(TOO_LARGE);
      assert socket.sent == sent + TOO_LARGE[..if written < 0 then 0 else written];
      socket.Disconnect();
      currentRequest := null;
      refused := true;
    }

    /** Answers the complete request, and closes the connection if it must be. */
    method Respond()
      requires currentRequest != null && currentRequest.status == Complete
      requires LegalService(service) && socket.Healthy() && socket.sent == sent
      modifies this, socket
      ensures currentRequest == null && (socket.open ==> socket.Healthy())
      ensures Snapshot() == Dispatch(service, old(Snapshot()), old(currentRequest.Snapshot()))
      ensures socket.available == if socket.open then old(socket.available) else ""
      ensures socket.sent == sent && refused == old(refused)
    {
      hide Legal, Served, KeepsOpen, WishOf, LegalService;
      var r := currentRequest.Snapshot();
      AnswerIsLegal(service, dispatched, r);
      dispatched := dispatched + [r];
      var closeConnection := Answer(socket, WishOf(r), service(dispatched));
      sent := sent + Served(WishOf(r), service(dispatched)).bytes;
      if closeConnection {
        socket.Disconnect();
      }
      currentRequest := null;
    }

    /** One round of the loop: bytes for one request, and its end if it is reached. */
    method ReadOne()
      requires Valid() && socket.open && socket.available != ""
      modifies this, socket, currentRequest
      ensures Valid() && (currentRequest == old(currentRequest) || currentRequest == null || fresh(currentRequest))
      ensures ReadAll(cfg, service, Snapshot(), socket.available)
           == ReadAll(cfg, service, old(Snapshot()), old(socket.available))
      ensures |socket.available| < |old(socket.available)|
           || (socket.available == old(socket.available) && Rank(Snapshot()) < Rank(old(Snapshot())))
      ensures socket.open || socket.available == ""
    {
      hide ReadAll, Served, KeepsOpen, NEW_REQUEST, Legal, TOO_LARGE, LegalService, Pending;
      ghost var before, first := Snapshot(), socket.available;
      if currentRequest == null {
        currentRequest := new HttpRequest(cfg);
        NewRequest(cfg, service, before, first);
      }
      ghost var c := Snapshot();
      assert c.current.value.status == WaitForBody ==> Rank(before) == 2;
      Collect(c);
      assert currentRequest.status == Complete && socket.available == first ==> Rank(before) == 2;
      ClosedReadsNothing(cfg, service, Settle(service, c, currentRequest.Snapshot()), socket.available);
      if currentRequest.status == Abort {
        Refuse();
      } else if currentRequest.status == Complete {
        Respond();
      }
    }

    /** Reads and answers all requests that have arrived. */
    method ReadHttp()
      requires Valid() && socket.open
      modifies this, socket, currentRequest
      ensures Valid() && (currentRequest == old(currentRequest) || currentRequest == null || fresh(currentRequest))
      ensures Snapshot() == ReadAll(cfg, service, old(Snapshot()), old(socket.available))
      ensures socket.available == ""
    {
      hide ReadAll, Rank;
      while socket.available != ""
        invariant Valid() && (currentRequest == old(currentRequest) || currentRequest == null || fresh(currentRequest))
        invariant socket.open || socket.available == ""
        invariant ReadAll(cfg, service, Snapshot(), socket.available)
            == ReadAll(cfg, service, old(Snapshot()), old(socket.available))
        decreases |socket.available|, Rank(Snapshot())
      {
        ReadOne();
      }
      NothingToRead(cfg, service, Snapshot());
    }
  }

  lemma AnswerIsLegal(service: Service, history: seq<Request>, r: Request)
    requires LegalService(service)
    ensures Legal(Prepared(WishOf(r)), service(history + [r]))
  {
    hide Legal;
    var all := history + [r];
    assert all[|all| - 1] == r;
  }

  lemma NothingToRead(cfg: Config, service: Service, c: Connection)
    requires Reading(c)
    ensures ReadAll(cfg, service, c, "") == c
  {
  }

  lemma ClosedReadsNothing(cfg: Config, service: Service, c: Connection, s: string)
    requires Reading(c)
    ensures !c.open ==> ReadAll(cfg, service, c, s) == ReadAll(cfg, service, c, "")
  {
  }

  lemma OneStep(cfg: Config, service: Service, c: Connection, r: Request, s: string)
    requires c.open && Pending(r) && s != "" && PendingOrFinal(ReadStep(cfg, r, s).request)
    ensures var step := ReadStep(cfg, r, s);
      ReadAll(cfg, service, Settle(service, c, r), s)
          == ReadAll(cfg, service, Settle(service, c, step.request), step.rest)
  {
    hide ReadStep, Served, KeepsOpen;
    var step := ReadStep(cfg, r, s);
    var c' := Settle(service, c, r);
    assert c'.open && Current(c') == r;
    assert Settle(service, c', step.request) == Settle(service, c, step.request);
  }

  /** A new request object is created only when there is something to read. */
  lemma NewRequest(cfg: Config, service: Service, c: Connection, s: string)
    requires c.open && c.current == None && s != ""
    ensures Pending(NEW_REQUEST) && NEW_REQUEST.status == WaitForRequest
    ensures ReadAll(cfg, service, c, s) == ReadAll(cfg, service, c.(current := Some(NEW_REQUEST)), s)
  {
    hide ReadStep, Served, KeepsOpen;
  }
}
