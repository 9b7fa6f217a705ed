/** Whole runs of a connection: reading a stream in pieces is serving its requests one after the other. */
module HttpPipelineRuns {
  import opened Strings
  import opened HttpText
  import HttpForm
  import opened HttpRequests
  import opened HttpLimits
  import opened HttpMessages
  import opened HttpPipelining
  import opened HttpConnections
  import opened HttpKeepAlive

  // ---------- What a cut costs ----------

  /** The number of characters between the last line feed and a position. */
  function LineOffset(text: string, position: nat): nat
    requires position <= |text|
  {
    if position == 0 || text[position - 1] == '\n' then 0 else 1 + LineOffset(text, position - 1)
  }

  /** A piece that ends inside a line of a head has the front of that line counted once more. */
  function CutCost(head: string, start: nat, end: nat): nat {
    if start < end < start + |head| then LineOffset(head, end - start) else 0
  }

  function Overcharge(head: string, start: nat, ends: seq<nat>): nat {
    if ends == [] then 0 else CutCost(head, start, ends[0]) + Overcharge(head, start, ends[1..])
  }

  /** The size the parser arrives at for a message at `start`; `paid` is for ends that are no longer listed. */
  function Charge(m: Message, start: nat, paid: nat, ends: seq<nat>): nat {
    |Encoded(m)| + paid + Overcharge(Head(m), start, ends)
  }

  /** Where the pieces end in the stream. */
  function Ends(from: nat, pieces: seq<string>): (ends: seq<nat>)
    ensures |ends| == |pieces|
    ensures forall i :: 0 <= i < |ends| ==> ends[i] >= from
    decreases |pieces|
  {
    if pieces == [] then [] else [from + |pieces[0]|] + Ends(from + |pieces[0]|, pieces[1..])
  }

  // ---------- The reference: one message after the other ----------

  function Serve(cfg: Config, service: Service, c: Connection, ms: seq<Message>, start: nat, paid: nat,
          ends: seq<nat>): Connection
    decreases |ms|
  {
    if ms == [] || !c.open then c
    else
      var size := Charge(ms[0], start, paid, ends);
      if size > cfg.maxSize then c.(current := None, refused := true, open := false)
      else
        var c' := Dispatch(service, c, RequestOf(cfg, ms[0], size));
        Serve(cfg, service, c', ms[1..], start + |Encoded(ms[0])|, 0, ends)
  }

  predicate AllWellFormed(ms: seq<Message>) {
    forall m :: m in ms ==> WellFormed(m)
  }

  function EncodedAll(ms: seq<Message>): string {
    if ms == [] then "" else Encoded(ms[0]) + EncodedAll(ms[1..])
  }

  // ---------- The cost of a cut is what the line buffer holds ----------

  predicate EndsLine(s: string) {
    s == "" || s[|s| - 1] == '\n'
  }

  lemma {:induction false} OffsetBehind(before: string, part: string, after: string)
    requires EndsLine(before) && '\n' !in part
    ensures LineOffset(before + part + after, |before| + |part|) == |part|
    decreases |part|
  {
    var text := before + part + after;
    if part == "" {
      assert before != "" ==> text[|before| - 1] == before[|before| - 1];
    } else {
      var front, last := part[..|part| - 1], part[|part| - 1];
      OffsetBehind(before, front, [last] + after);
      assert text == before + front + ([last] + after);
      assert text[|before| + |part| - 1] == last && last in part;
    }
  }

  /** The lines in front of line `k`. */
  lemma {:induction false} LineStart(m: Message, k: nat) returns (before: string)
    requires k <= Count(m)
    ensures Head(m) == before + LinesFrom(m, k) && EndsLine(before)
    decreases k
  {
    hide Text;
    if k == 0 {
      before := "";
    } else {
      var earlier := LineStart(m, k - 1);
      before := earlier + (Text(m, k - 1) + CRLF);
      assert before + LinesFrom(m, k) == earlier + (Text(m, k - 1) + CRLF + LinesFrom(m, k));
    }
  }

  lemma OffsetInLine(m: Message, k: nat, part: string)
    requires WellFormed(m) && k < Count(m) && part <= Text(m, k)
    ensures |LinesFrom(m, k)| <= |Head(m)| && |part| + 2 <= |LinesFrom(m, k)|
    ensures LineOffset(Head(m), |Head(m)| - |LinesFrom(m, k)| + |part|) == |part|
  {
    hide Text, WellFormed, LineOffset, Head, EndsLine, LinesFrom;
    var before := LineStart(m, k);
    var head, lines := Head(m), LinesFrom(m, k);
    LineText(m, k);
    LinesStep(m, k);
    PartOfLine(part, Text(m, k), lines);
    OffsetOf(head, before, part, lines, |head| - |lines| + |part|);
  }

  lemma LineText(m: Message, k: nat)
    requires WellFormed(m) && k < Count(m)
    ensures '\n' !in Text(m, k)
  {
    hide WellFormedHead;
    TextHasNoLineEnd(m, k);
  }

  lemma OffsetOf(head: string, before: string, part: string, lines: string, n: nat)
    requires head == before + lines && EndsLine(before) && '\n' !in part && |part| <= |lines|
    requires part + lines[|part|..] == lines && n == |before| + |part|
    ensures LineOffset(head, n) == |part|
  {
    hide LineOffset, EndsLine;
    var after := lines[|part|..];
    AllInThree(head, before, part, after, lines);
    OffsetBehind(before, part, after);
  }

  lemma LinesStep(m: Message, k: nat)
    requires k < Count(m)
    ensures Text(m, k) <= LinesFrom(m, k) && |LinesFrom(m, k)| >= |Text(m, k)| + 2
  {
  }

  lemma PartOfLine(part: string, text: string, lines: string)
    requires part <= text <= lines && '\n' !in text
    ensures '\n' !in part && |part| <= |text| && part + lines[|part|..] == lines
  {
    assert part == text[..|part|] == lines[..|part|];
    assert forall i :: 0 <= i < |part| ==> part[i] == text[i];
  }

  lemma AllInThree(all: string, a: string, b: string, c: string, rest: string)
    requires all == a + rest && rest == b + c
    ensures all == a + b + c
  {
  }

  /** A piece that ends in front of what is left costs as much as the line buffer holds. */
  lemma CutCostIs(cfg: Config, m: Message, k: nat, r: Request, left: string, start: nat)
    requires WellFormed(m) && At(cfg, m, k, r, left) && k <= Count(m)
    ensures 0 < |left| <= |Encoded(m)|
    ensures CutCost(Head(m), start, start + |Encoded(m)| - |left|) == |r.lineBuffer|
  {
    hide Text, WellFormed, StateAt, Keys;
    if k < Count(m) {
      OffsetInLine(m, k, r.lineBuffer);
      assert |r.lineBuffer| + |left| == |LinesFrom(m, k)| + |m.body|;
    } else {
      assert |r.body| + |left| == |m.body|;
      assert r.lineBuffer == "" by { InBodyHasNoLine(m); }
    }
  }

  lemma InBodyHasNoLine(m: Message)
    ensures InBody(m).lineBuffer == ""
  {
  }

  // ---------- One step ----------

  /**
   The outcome of one step: abort only when the forecast, with the cut at the end of the piece, is over the limit;
   completion exactly at the last byte; or a place further on in the message.
   */
  predicate InStep(cfg: Config, m: Message, r: Request, left: string, s: string, rest: string, later: string,
                   start: nat, k': nat, left': string)
    requires |left| <= |Encoded(m)|
  {
    var step := ReadStep(cfg, r, s);
    if step.request.status == Abort then
      Forecast(r, left) + CutCost(Head(m), start, start + |Encoded(m)| - |left| + |s|) > cfg.maxSize
    else if step.request.status == Complete then
      && |left| <= |s| && Forecast(r, left) <= cfg.maxSize
      && step == Step(RequestOf(cfg, m, Forecast(r, left)), s[|left|..])
    else
      && k' <= Count(m) && At(cfg, m, k', step.request, left') && step.rest + later == left' + rest
      && |step.rest| < |s| && |s| - |step.rest| == |left| - |left'|
      && Forecast(step.request, left') == Forecast(r, left) + |step.request.lineBuffer|
      && (step.rest != "" ==> step.request.lineBuffer == "")
  }

  /** The parser stays in step with the message, completes it, or gives up because it has become too large. */
  lemma StepAt(cfg: Config, m: Message, k: nat, r: Request, left: string, s: string, rest: string, later: string,
          start: nat)
    returns (k': nat, left': string)
    requires WellFormed(m) && ReadsInts(cfg.lib.toInt) && k <= Count(m) && At(cfg, m, k, r, left)
    requires s != "" && s + later == left + rest && NoSplit(s, later) && |left| <= |Encoded(m)|
    ensures InStep(cfg, m, r, left, s, rest, later, start, k', left')
  {
    hide WellFormed, ReadsInts, ReadStep, At;
    if k < Count(m) {
      k', left' := HeadStepAt(cfg, m, k, r, left, s, rest, later, start);
    } else {
      k', left' := BodyStepAt(cfg, m, k, r, left, s, rest, later);
    }
  }

  lemma BodyStepAt(cfg: Config, m: Message, k: nat, r: Request, left: string, s: string, rest: string, later: string)
    returns (k': nat, left': string)
    requires k == Count(m) && At(cfg, m, k, r, left) && s != "" && s + later == left + rest
    ensures var step := ReadStep(cfg, r, s);
      if |left| <= |s| then
        && step == Step(RequestOf(cfg, m, Forecast(r, left)), s[|left|..]) && Forecast(r, left) <= cfg.maxSize
        && step.request.status == Complete
      else
        && k' == k && At(cfg, m, k', step.request, left') && step.rest + later == left' + rest
        && step.rest == "" && |s| == |left| - |left'| && step.request.status == WaitForBody
        && Forecast(step.request, left') == Forecast(r, left) && step.request.lineBuffer == ""
  {
    hide ReadStep, StateAt, AddParameters, TakeCookies, Text, LinesFrom;
    BodyRead(cfg, m, r, left, s, rest, later);
    InBodyHasNoLine(m);
    RequestIsComplete(cfg, m, Forecast(r, left));
    k', left' := k, "";
    if |left| > |s| {
      left' := left[|s|..];
      assert later == (s + later)[|s|..] == (left + rest)[|s|..] == left' + rest;
      assert "" + later == later;
    }
  }

  lemma RequestIsComplete(cfg: Config, m: Message, size: int)
    ensures RequestOf(cfg, m, size).status == Complete
  {
  }

  lemma AtLine(cfg: Config, m: Message, k: nat, r: Request, left: string)
    requires k < Count(m) && At(cfg, m, k, r, left)
    ensures r.lineBuffer <= Text(m, k)
  {
  }

  lemma HeadStepAt(cfg: Config, m: Message, k: nat, r: Request, left: string, s: string, rest: string, later: string,
          start: nat)
    returns (k': nat, left': string)
    requires WellFormed(m) && ReadsInts(cfg.lib.toInt) && k < Count(m) && At(cfg, m, k, r, left)
    requires s != "" && s + later == left + rest && NoSplit(s, later)
    requires |left| <= |Encoded(m)|
    ensures InStep(cfg, m, r, left, s, rest, later, start, k', left')
  {
    hide WellFormed, ReadsInts, ReadStep, NextState, Checked, RequestOf, Text, NoSplit, NoMultiPart, At, CutCost, Tail;
    AtLine(cfg, m, k, r, left);
    AtHeading(cfg, m, k, r, left);
    HeadRead(cfg, m, k, r, left, s, rest, later);
    var tail := Tail(m, k, r);
    TailShape(m, k, r);
    LeftIsTail(cfg, m, k, r, left);
    if |tail| <= |s| {
      var size := r.currentSize + |r.lineBuffer| + |tail|;
      k', left' := k + 1, LinesFrom(m, k + 1) + m.body;
      SuffixTaken(s, later, tail, left', rest);
      if size <= cfg.maxSize {
        LineStepAt(cfg, m, k, size);
      }
    } else {
      k', left' := k, left[|s|..];
      PartStepAt(cfg, m, k, r, left, s, rest, later, start);
    }
  }

  lemma SuffixTaken(s: string, later: string, tail: string, after: string, rest: string)
    requires s + later == tail + after + rest && |tail| <= |s|
    ensures s[|tail|..] + later == after + rest
  {
    assert s[|tail|..] + later == (s + later)[|tail|..] == (tail + after + rest)[|tail|..] == after + rest;
  }

  lemma LineStepAt(cfg: Config, m: Message, k: nat, size: int)
    requires WellFormed(m) && k < Count(m) && size <= cfg.maxSize
    ensures var r, left' := Checked(cfg, NextState(cfg, m, k, size)), LinesFrom(m, k + 1) + m.body;
      if r.status == Abort then size + |left'| > cfg.maxSize
      else if r.status == Complete then left' == "" && r == RequestOf(cfg, m, size)
      else At(cfg, m, k + 1, r, left') && r.lineBuffer == "" && r.currentSize == size
  {
    hide WellFormed, Text, RequestOf, Keys;
    HeadDone(cfg, m, k, size);
    RequestIsComplete(cfg, m, size);
    assert k + 1 == Count(m) ==> LinesFrom(m, k + 1) + m.body == m.body;
  }

  lemma PartStepAt(cfg: Config, m: Message, k: nat, r: Request, left: string, s: string, rest: string, later: string,
          start: nat)
    requires WellFormed(m) && k < Count(m) && At(cfg, m, k, r, left) && s != "" && s + later == left + rest
    requires |s| < |Tail(m, k, r)| && left == Tail(m, k, r) + (LinesFrom(m, k + 1) + m.body)
    requires NoSplit(s, later) && |left| <= |Encoded(m)|
    ensures CutCost(Head(m), start, start + |Encoded(m)| - |left| + |s|) == |r.lineBuffer| + |s|
    ensures var size, left' := r.currentSize + |r.lineBuffer| + |s|, left[|s|..];
      && "" + later == left' + rest
      && (size <= cfg.maxSize && r.lineBuffer + s <= Text(m, k) ==>
            At(cfg, m, k, r.(lineBuffer := r.lineBuffer + s, currentSize := size), left'))
  {
    hide WellFormed, StateAt, Text, NoSplit, Tail, LineOffset;
    PrefixTaken(s, later, left, rest);
    Joins(Tail(m, k, r), LinesFrom(m, k + 1) + m.body, rest);
    PartialLine(m, k, r, s, later, LinesFrom(m, k + 1) + m.body + rest);
    OffsetInLine(m, k, r.lineBuffer + s);
    assert |r.lineBuffer| + |left| == |LinesFrom(m, k)| + |m.body|;
    assert r.lineBuffer + s + left[|s|..] == r.lineBuffer + left by {
      Joins(r.lineBuffer, s, left[|s|..]);
    }
  }

  lemma Joins(a: string, b: string, c: string)
    ensures a + b + c == a + (b + c)
  {
  }

  lemma PrefixTaken(s: string, later: string, left: string, rest: string)
    requires s + later == left + rest && |s| <= |left|
    ensures left == s + left[|s|..] && "" + later == left[|s|..] + rest
  {
    assert s == (s + later)[..|s|] == (left + rest)[..|s|] == left[..|s|];
    assert later == (s + later)[|s|..] == (left + rest)[|s|..] == left[|s|..] + rest;
  }

  // ---------- Charges as pieces are used up ----------

  predicate AllFrom(ends: seq<nat>, from: nat) {
    forall i :: 0 <= i < |ends| ==> ends[i] >= from
  }

  lemma {:induction false} NoOvercharge(head: string, start: nat, ends: seq<nat>)
    requires AllFrom(ends, start + |head|)
    ensures Overcharge(head, start, ends) == 0
    decreases |ends|
  {
    if ends != [] {
      NoOvercharge(head, start, ends[1..]);
    }
  }

  /** Ends in front of the first message cost nothing. */
  lemma {:induction false} ServeSkips(cfg: Config, service: Service, c: Connection, ms: seq<Message>, start: nat,
          paid: nat, ends: seq<nat>)
    requires ends != [] && ends[0] <= start
    ensures Serve(cfg, service, c, ms, start, paid, ends) == Serve(cfg, service, c, ms, start, paid, ends[1..])
    decreases |ms|
  {
    hide Encoded, Head, RequestOf, Dispatch, LineOffset;
    if ms != [] && c.open {
      var size := Charge(ms[0], start, paid, ends);
      assert size == Charge(ms[0], start, paid, ends[1..]);
      var c' := Dispatch(service, c, RequestOf(cfg, ms[0], size));
      ServeSkips(cfg, service, c', ms[1..], start + |Encoded(ms[0])|, 0, ends);
    }
  }

  /** The end of a piece within the first message is paid for. */
  lemma ServePays(cfg: Config, service: Service, c: Connection, ms: seq<Message>, start: nat, paid: nat, ends: seq<nat>)
    requires ms != [] && ends != [] && ends[0] <= start + |Encoded(ms[0])|
    ensures Serve(cfg, service, c, ms, start, paid, ends)
         == Serve(cfg, service, c, ms, start, paid + CutCost(Head(ms[0]), start, ends[0]), ends[1..])
  {
    hide Encoded, Head, RequestOf, Dispatch, LineOffset, CutCost;
    if c.open {
      var size := Charge(ms[0], start, paid, ends);
      var c' := Dispatch(service, c, RequestOf(cfg, ms[0], size));
      ServeSkips(cfg, service, c', ms[1..], start + |Encoded(ms[0])|, 0, ends);
    }
  }

  /** The first message does not depend on the request that is being read for it. */
  lemma ServeForgets(cfg: Config, service: Service, c: Connection, r: Request, ms: seq<Message>, start: nat, paid: nat,
          ends: seq<nat>)
    requires ms != [] && c.open
    ensures Serve(cfg, service, c.(current := Some(r)), ms, start, paid, ends)
        == Serve(cfg, service, c, ms, start, paid, ends)
  {
    hide Charge, RequestOf, Served, KeepsOpen;
    var size := Charge(ms[0], start, paid, ends);
    var r' := RequestOf(cfg, ms[0], size);
    assert Dispatch(service, c.(current := Some(r)), r') == Dispatch(service, c, r');
  }

  // ---------- One piece ----------

  /** A connection in the middle of the first of the messages; `left` is what is not yet read of it. */
  datatype Place = Place(ms: seq<Message>, start: nat, paid: nat, k: nat, left: string)

  predicate Synced(cfg: Config, c: Connection, at: Place) {
    && AllWellFormed(at.ms)
    && if at.ms == [] then c.current == None && at.left == ""
       else at.k <= Count(at.ms[0]) && At(cfg, at.ms[0], at.k, Current(c), at.left) && |at.left| <= |Encoded(at.ms[0])|
  }

  /** All that is left of the stream. */
  function Stream(at: Place): string {
    at.left + EncodedAll(if at.ms == [] then [] else at.ms[1..])
  }

  /** Where the next byte is in the stream. */
  function Position(at: Place): nat
    requires at.ms != [] ==> |at.left| <= |Encoded(at.ms[0])|
  {
    if at.ms == [] then at.start else at.start + |Encoded(at.ms[0])| - |at.left|
  }

  /** The size forecast for the first message is its length and what has been paid for it. */
  predicate Balanced(c: Connection, at: Place) {
    at.ms != [] ==> Forecast(Current(c), at.left) == |Encoded(at.ms[0])| + at.paid
  }

  function ServeAt(cfg: Config, service: Service, c: Connection, at: Place, ends: seq<nat>): Connection {
    Serve(cfg, service, c, at.ms, at.start, at.paid, ends)
  }

  /** In front of the first of the messages. */
  function FirstPlace(ms: seq<Message>, start: nat): Place {
    Place(ms, start, 0, 0, if ms == [] then "" else Encoded(ms[0]))
  }

  lemma FirstIsSynced(cfg: Config, c: Connection, ms: seq<Message>, start: nat)
    requires AllWellFormed(ms) && c.current == None && cfg.maxSize >= 0
    ensures var at := FirstPlace(ms, start);
      Synced(cfg, c, at) && Balanced(c, at) && Stream(at) == EncodedAll(ms) && Position(at) == start
  {
    hide WellFormed, Text;
    if ms != [] {
      assert "" + Encoded(ms[0]) == Encoded(ms[0]);
      NewIsFirst(cfg, ms[0]);
    }
  }

  lemma NewIsFirst(cfg: Config, m: Message)
    requires cfg.maxSize >= 0
    ensures At(cfg, m, 0, NEW_REQUEST, Encoded(m)) && Forecast(NEW_REQUEST, Encoded(m)) == |Encoded(m)|
  {
    assert "" + Encoded(m) == Encoded(m);
  }

  lemma Aborted(cfg: Config, service: Service, c: Connection, at: Place, s: string, ends: seq<nat>)
    requires Reading(c) && c.open && s != "" && at.ms != [] && |at.left| <= |Encoded(at.ms[0])|
    requires ReadStep(cfg, Current(c), s).request.status == Abort && Balanced(c, at)
    requires ends != [] && ends[0] == Position(at) + |s|
    requires Forecast(Current(c), at.left) + CutCost(Head(at.ms[0]), at.start, ends[0]) > cfg.maxSize
    ensures ReadAll(cfg, service, c, s) == ServeAt(cfg, service, c, at, ends) && !ReadAll(cfg, service, c, s).open
  {
    hide ReadStep, Encoded, Head, CutCost, RequestOf, Dispatch;
    assert Charge(at.ms[0], at.start, at.paid, ends) > cfg.maxSize;
  }

  lemma Completed(cfg: Config, service: Service, c: Connection, at: Place, s: string, later: string, ends: seq<nat>)
    returns (c': Connection, at': Place)
    requires cfg.maxSize >= 0 && Reading(c) && c.open && s != "" && at.ms != [] && Synced(cfg, c, at) && Balanced(c, at)
    requires s + later == Stream(at) && |at.left| <= |s| && Forecast(Current(c), at.left) <= cfg.maxSize
    requires ReadStep(cfg, Current(c), s)
        == Step(RequestOf(cfg, at.ms[0], Forecast(Current(c), at.left)), s[|at.left|..])
    requires ends != [] && ends[0] == Position(at) + |s| && AllFrom(ends, ends[0])
    ensures Reading(c') && c'.current == None
    ensures ReadAll(cfg, service, c, s) == ReadAll(cfg, service, c', s[|at.left|..])
    ensures ServeAt(cfg, service, c, at, ends) == ServeAt(cfg, service, c', at', ends)
    ensures Synced(cfg, c', at') && Balanced(c', at') && s[|at.left|..] + later == Stream(at')
    ensures Position(at') == ends[0] - |s[|at.left|..]| && at'.start == Position(at')
  {
    hide ReadStep, CutCost, RequestOf, Served, KeepsOpen, WellFormed, At, Head, Overcharge;
    var m, rest := at.ms[0], EncodedAll(at.ms[1..]);
    var size := Forecast(Current(c), at.left);
    RequestIsComplete(cfg, m, size);
    NoOvercharge(Head(m), at.start, ends);
    c' := Dispatch(service, c, RequestOf(cfg, m, size));
    at' := FirstPlace(at.ms[1..], at.start + |Encoded(m)|);
    FirstIsSynced(cfg, c', at.ms[1..], at.start + |Encoded(m)|);
    assert s[|at.left|..] + later == (s + later)[|at.left|..] == (at.left + rest)[|at.left|..] == rest;
  }

  /** A request that goes on. */
  lemma Continued(cfg: Config, service: Service, c: Connection, at: Place, s: string, later: string, ends: seq<nat>,
                  k': nat, left': string)
    returns (c': Connection, at': Place)
    requires Reading(c) && c.open && s != "" && at.ms != [] && Synced(cfg, c, at) && Balanced(c, at)
    requires var step := ReadStep(cfg, Current(c), s);
      && step.request.status != Abort && step.request.status != Complete && PendingOrFinal(step.request)
      && k' <= Count(at.ms[0]) && At(cfg, at.ms[0], k', step.request, left')
      && step.rest + later == left' + EncodedAll(at.ms[1..])
      && |step.rest| < |s| && |s| - |step.rest| == |at.left| - |left'|
      && Forecast(step.request, left') == Forecast(Current(c), at.left) + |step.request.lineBuffer|
      && (step.rest != "" ==> step.request.lineBuffer == "")
    requires ends != [] && ends[0] == Position(at) + |s|
    ensures var step := ReadStep(cfg, Current(c), s);
      && Reading(c') && c'.open && ReadAll(cfg, service, c, s) == ReadAll(cfg, service, c', step.rest)
      && Synced(cfg, c', at') && Balanced(c', at') && step.rest + later == Stream(at')
      && Position(at') == ends[0] - |step.rest|
      && ServeAt(cfg, service, c, at, ends)
           == ServeAt(cfg, service, c', at', if step.rest == "" then ends[1..] else ends)
  {
    hide ReadStep, CutCost, RequestOf, Served, KeepsOpen, WellFormed, At, Head, Overcharge, Encoded, Serve;
    var step, m := ReadStep(cfg, Current(c), s), at.ms[0];
    c' := c.(current := Some(step.request));
    assert m in at.ms;
    CutCostIs(cfg, m, k', step.request, left', at.start);
    at' := Place(at.ms, at.start, at.paid + |step.request.lineBuffer|, k', left');
    ServeForgets(cfg, service, c, step.request, at.ms, at.start, at.paid, ends);
    if step.rest == "" {
      ServePays(cfg, service, c', at.ms, at.start, at.paid, ends);
    }
  }

  /** Reading one piece is serving what it completes. */
  lemma {:induction false} RunPiece(cfg: Config, service: Service, c: Connection, at: Place, s: string, later: string,
          ends: seq<nat>)
    returns (at': Place)
    requires cfg.maxSize >= 0 && ReadsInts(cfg.lib.toInt) && Reading(c) && c.open && Synced(cfg, c, at)
        && Balanced(c, at)
    requires s != "" && s + later == Stream(at) && NoSplit(s, later)
    requires ends != [] && ends[0] == Position(at) + |s| && AllFrom(ends, ends[0])
    ensures var c' := ReadAll(cfg, service, c, s);
      if !c'.open then ServeAt(cfg, service, c, at, ends) == c'
      else
        && Synced(cfg, c', at') && Balanced(c', at') && Stream(at') == later && Position(at') == ends[0]
        && ServeAt(cfg, service, c, at, ends) == ServeAt(cfg, service, c', at', ends[1..])
    decreases |s|
  {
    hide ReadsInts, ReadStep, At, CutCost, Head, Encoded, Serve, ReadAll, WellFormed, RequestOf, Charge;
    var m, r := at.ms[0], Current(c);
    assert m in at.ms;
    var k', left' := StepAt(cfg, m, at.k, r, at.left, s, EncodedAll(at.ms[1..]), later, at.start);
    CutCostIs(cfg, m, at.k, r, at.left, at.start);
    var step := ReadStep(cfg, r, s);
    StepKeepsPending(cfg, r, s);
    at' := at;
    hide Balanced, Stream, Synced;
    if step.request.status == Abort {
      Aborted(cfg, service, c, at, s, ends);
    } else {
      var c';
      if step.request.status == Complete {
        c', at' := Completed(cfg, service, c, at, s, later, ends);
        if step.rest == "" {
          ServeSkips(cfg, service, c', at'.ms, at'.start, at'.paid, ends);
        }
      } else {
        c', at' := Continued(cfg, service, c, at, s, later, ends, k', left');
      }
      NothingHappens(cfg, service, c', at', step.rest, ends);
      if c'.open && step.rest != "" {
        RestIsSuffix(cfg, r, s);
        at' := RunPiece(cfg, service, c', at', step.rest, later, ends);
      } else if step.rest == "" {
        assert step.rest + later == later;
      }
    }
  }

  lemma NothingHappens(cfg: Config, service: Service, c: Connection, at: Place, s: string, ends: seq<nat>)
    requires Reading(c)
    ensures !c.open ==> ReadAll(cfg, service, c, s) == c && ServeAt(cfg, service, c, at, ends) == c
    ensures s == "" ==> ReadAll(cfg, service, c, s) == c
  {
  }

  // ---------- All pieces ----------

  function Concat(pieces: seq<string>): string {
    if pieces == [] then "" else pieces[0] + Concat(pieces[1..])
  }

  /** Every piece holds something, and none ends inside a line break. */
  predicate Pieces(pieces: seq<string>) {
    pieces != [] ==> pieces[0] != "" && NoSplit(pieces[0], Concat(pieces[1..])) && Pieces(pieces[1..])
  }

  lemma {:induction false} RunPieces(cfg: Config, service: Service, c: Connection, at: Place, pieces: seq<string>)
    requires cfg.maxSize >= 0 && ReadsInts(cfg.lib.toInt) && Reading(c) && c.open && Synced(cfg, c, at)
        && Balanced(c, at)
    requires Concat(pieces) == Stream(at) && Pieces(pieces)
    ensures Deliver(cfg, service, c, pieces) == ServeAt(cfg, service, c, at, Ends(Position(at), pieces))
    decreases |pieces|
  {
    hide ReadsInts, At, Head, Encoded, Serve, ReadAll, WellFormed, NoSplit;
    if pieces == [] {
      if at.ms != [] {
        SomethingIsLeft(cfg, c, at);
      }
      ServeNothing(cfg, service, c, at, []);
    } else {
      var s, later := pieces[0], Concat(pieces[1..]);
      var ends := Ends(Position(at), pieces);
      var at' := RunPiece(cfg, service, c, at, s, later, ends);
      var c' := ReadAll(cfg, service, c, s);
      if c'.open {
        RunPieces(cfg, service, c', at', pieces[1..]);
      } else {
        ClosedStays(cfg, service, c', pieces[1..]);
      }
    }
  }

  lemma SomethingIsLeft(cfg: Config, c: Connection, at: Place)
    requires Synced(cfg, c, at) && at.ms != []
    ensures Stream(at) != ""
  {
    hide At, WellFormed, Encoded;
    assert at.ms[0] in at.ms;
    CutCostIs(cfg, at.ms[0], at.k, Current(c), at.left, at.start);
  }

  lemma ServeNothing(cfg: Config, service: Service, c: Connection, at: Place, ends: seq<nat>)
    ensures at.ms == [] ==> ServeAt(cfg, service, c, at, ends) == c
  {
  }

  lemma {:induction false} ClosedStays(cfg: Config, service: Service, c: Connection, pieces: seq<string>)
    requires Reading(c) && !c.open
    ensures Deliver(cfg, service, c, pieces) == c
    decreases |pieces|
  {
    if pieces != [] {
      NothingHappens(cfg, service, c, FirstPlace([], 0), pieces[0], []);
      ClosedStays(cfg, service, c, pieces[1..]);
    }
  }

  // ---------- The main results ----------

  /**
   However a stream of well-formed requests is cut into pieces, as long as no piece ends inside a line break: reading
   the pieces is the same as serving the requests one after the other. A request is dispatched if and only if its
   charge, its length and once more the front of each line of its head that a piece ends in, is within the limit.
   */
  lemma Pipelining(cfg: Config, service: Service, ms: seq<Message>, pieces: seq<string>)
    requires cfg.maxSize >= 0 && ReadsInts(cfg.lib.toInt) && AllWellFormed(ms)
    requires Concat(pieces) == EncodedAll(ms) && Pieces(pieces)
    ensures Deliver(cfg, service, NEW_CONNECTION, pieces)
        == Serve(cfg, service, NEW_CONNECTION, ms, 0, 0, Ends(0, pieces))
  {
    hide ReadsInts, WellFormed, Deliver, Serve, Pieces, Synced, Balanced, Stream;
    FirstIsSynced(cfg, NEW_CONNECTION, ms, 0);
    RunPieces(cfg, service, NEW_CONNECTION, FirstPlace(ms, 0), pieces);
  }

  /** The requests dispatched for a stream that is served to its end. */
  function Requests(cfg: Config, ms: seq<Message>, start: nat, ends: seq<nat>): (rs: seq<Request>)
    ensures |rs| == |ms|
  {
    if ms == [] then []
    else [RequestOf(cfg, ms[0], Charge(ms[0], start, 0, ends))] + Requests(cfg, ms[1..], start + |Encoded(ms[0])|, ends)
  }

  predicate AllFit(cfg: Config, ms: seq<Message>, start: nat, ends: seq<nat>) {
    ms != [] ==> Charge(ms[0], start, 0, ends) <= cfg.maxSize && AllFit(cfg, ms[1..], start + |Encoded(ms[0])|, ends)
  }

  /** The handler leaves a connection open unless its request wants it closed. */
  ghost predicate StaysOpen(service: Service) {
    forall history: seq<Request>, r ::
      !WishOf(r).Close() ==> KeepsOpen(WishOf(r), Served(WishOf(r), service(history + [r])).response)
  }

  /** The request does not ask for the connection to be closed. */
  predicate KeepAlive(m: Message) {
    !Wish(LastValue(Without(Keys(m.headers), "cookie"), "connection"), m.version).Close()
  }

  predicate AllKeepAlive(ms: seq<Message>) {
    forall m :: m in ms ==> KeepAlive(m)
  }

  /** A dispatched request has the words, headers, body and parameters of its message. */
  lemma RequestOfMessage(cfg: Config, m: Message, size: int)
    ensures var r := RequestOf(cfg, m, size);
      && r.verb == m.verb && r.version == m.version && r.body == m.body && r.path == HttpForm.PathOnly(m.path)
      && r.headers == Without(Keys(m.headers), "cookie")
      && r.parameters == HttpForm.DecodeParameters(cfg.hexToInt, m.path, LastValue(Keys(m.headers), "content-type"),
            m.body)
  {
    hide HttpForm.PathOnly, HttpForm.DecodeParameters, LastValue, Without, ValuesOf, AddCookieHeaders;
    assert Keys(m.headers)[..|m.headers|] == Keys(m.headers);
    var ps := HttpForm.DecodeParameters(cfg.hexToInt, m.path, LastValue(Keys(m.headers), "content-type"), m.body);
    assert [] + ps == ps;
  }

  /** The first `n` requests are dispatched; the others are not because the next one is too large. */
  lemma {:induction false} ServedInOrder(cfg: Config, service: Service, c: Connection, ms: seq<Message>, start: nat,
          ends: seq<nat>)
    returns (n: nat)
    requires c.open && StaysOpen(service) && AllKeepAlive(ms)
    ensures n <= |ms| && (n == |ms| <==> AllFit(cfg, ms, start, ends))
    ensures var c' := Serve(cfg, service, c, ms, start, 0, ends);
      && c'.dispatched == c.dispatched + Requests(cfg, ms, start, ends)[..n]
      && c'.open == (n == |ms|) && c'.refused == (c.refused || n < |ms|)
    decreases |ms|
  {
    hide Charge, RequestOf, Encoded, KeepAlive, StaysOpen, Dispatch;
    n := 0;
    if ms != [] && Charge(ms[0], start, 0, ends) <= cfg.maxSize {
      var size := Charge(ms[0], start, 0, ends);
      var r := RequestOf(cfg, ms[0], size);
      assert ms[0] in ms;
      RequestOfMessage(cfg, ms[0], size);
      KeptAlive(service, c, ms[0], r);
      var n' := ServedInOrder(cfg, service, Dispatch(service, c, r), ms[1..], start + |Encoded(ms[0])|, ends);
      n := n' + 1;
      OneMore(c.dispatched, r, Requests(cfg, ms[1..], start + |Encoded(ms[0])|, ends), n');
    }
  }

  lemma OneMore(before: seq<Request>, r: Request, later: seq<Request>, n: nat)
    requires n <= |later|
    ensures before + [r] + later[..n] == before + ([r] + later)[..n + 1]
  {
  }

  lemma KeptAlive(service: Service, c: Connection, m: Message, r: Request)
    requires StaysOpen(service) && KeepAlive(m)
    requires r.version == m.version && r.headers == Without(Keys(m.headers), "cookie")
    ensures var c' := Dispatch(service, c, r);
      c'.open && c'.dispatched == c.dispatched + [r] && c'.refused == c.refused
  {
    hide Served, KeepsOpen;
    assert !WishOf(r).Close();
  }

  /**
   Of keep-alive requests, with a handler that keeps connections open, the loop dispatches exactly the requests of
   the stream, in order, or the first ones of them; the connection is refused if and only if a charge is over the
   limit.
   */
  lemma DispatchedExactly(cfg: Config, service: Service, ms: seq<Message>, pieces: seq<string>)
    requires cfg.maxSize >= 0 && ReadsInts(cfg.lib.toInt) && AllWellFormed(ms) && AllKeepAlive(ms) && StaysOpen(service)
    requires Concat(pieces) == EncodedAll(ms) && Pieces(pieces)
    ensures var c, rs := Deliver(cfg, service, NEW_CONNECTION, pieces), Requests(cfg, ms, 0, Ends(0, pieces));
      && c.dispatched <= rs
      && (c.dispatched == rs <==> AllFit(cfg, ms, 0, Ends(0, pieces)))
      && (c.refused <==> !AllFit(cfg, ms, 0, Ends(0, pieces)))
  {
    hide ReadsInts, WellFormed, Deliver, Serve, Pieces, StaysOpen, Requests, AllFit, AllKeepAlive;
    Pipelining(cfg, service, ms, pieces);
    var n := ServedInOrder(cfg, service, NEW_CONNECTION, ms, 0, Ends(0, pieces));
  }

  /** Pieces that end where lines end cost nothing: each request that is within the limit is dispatched. */
  lemma {:induction false} LinesCostNothing(head: string, start: nat, ends: seq<nat>)
    requires forall i :: 0 <= i < |ends| && start < ends[i] < start + |head| ==> head[ends[i] - start - 1] == '\n'
    ensures Overcharge(head, start, ends) == 0
    decreases |ends|
  {
    if ends != [] {
      LinesCostNothing(head, start, ends[1..]);
    }
  }
}
