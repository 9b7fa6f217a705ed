/** Progress of the request parser, and the bounds on what it reads. */
module HttpLimits {
  import opened Strings
  import opened HttpText
  import opened HttpSockets
  import opened HttpForm
  import HttpMultiPart
  import opened HttpRequests

  /** A request that waits for more bytes. */
  predicate Pending(r: Request) {
    && r.status != Complete && r.status != Abort
    && (r.status != WaitForBody ==> r.boundary == "" && !HasLineEnd(r.lineBuffer))
  }

  predicate PendingOrFinal(r: Request) {
    r.status == Complete || r.status == Abort || Pending(r)
  }

  lemma RequestLineKeeps(r: Request, line: string)
    ensures var r' := RequestLine(r, line);
      && r'.(verb := r.verb, path := r.path, version := r.version, status := r.status) == r
      && (r'.status == r.status || r'.status == WaitForHeader || r'.status == Abort)
  {
    hide Trim, Split, ContainsText;
  }

  lemma HeaderLineKeeps(cfg: Config, r: Request, line: string)
    ensures var r' := HeaderLine(cfg, r, line);
      r' == EndOfHeaders(cfg, r) || r'.(headers := r.headers, currentHeader := r.currentHeader) == r
  {
    hide Trim, Lower, LastValue, HasHeader, EndOfHeaders, MatchesAt;
  }

  lemma LineDoneKeepsPending(cfg: Config, r: Request)
    requires r.status == WaitForRequest || r.status == WaitForHeader
    requires r.boundary == ""
    ensures PendingOrFinal(LineDone(cfg, r))
  {
    hide Trim, LastValue, HeaderLine, RequestLine, BoundaryOf;
    RequestLineKeeps(r.(lineBuffer := ""), Trim(r.lineBuffer));
    HeaderLineKeeps(cfg, r.(lineBuffer := ""), Trim(r.lineBuffer));
  }

  lemma CheckKeepsPending(cfg: Config, r: Request)
    requires PendingOrFinal(r)
    ensures PendingOrFinal(Checked(cfg, r))
  {
    hide LastValue, PathOnly, DecodeParameters;
  }

  lemma StepKeepsPending(cfg: Config, r: Request, s: string)
    requires Pending(r)
    ensures PendingOrFinal(ReadStep(cfg, r, s).request)
  {
    hide LineDone, Checked, LineUpTo, BytesUpTo, AddMultiPart;
    if r.status != WaitForBody {
      var r' := LineGrows(r, LineUpTo(s, LineLimit(cfg, r)));
      LineDoneKeepsPending(cfg, r');
      CheckKeepsPending(cfg, HeadStep(cfg, r, s).request);
    } else {
      CheckKeepsPending(cfg, BodyStep(cfg, r, s).request);
    }
  }

  /** A step that reads nothing ends the request. */
  lemma ReadsOrEnds(cfg: Config, r: Request, s: string)
    requires Pending(r) && s != ""
    ensures |ReadStep(cfg, r, s).rest| <= |s|
    ensures var step := ReadStep(cfg, r, s);
      || |step.rest| < |s|
      || step.request.status == Abort
      || (step.request.status == Complete && r.status == WaitForBody && step.rest == s)
  {
    hide LineUpTo, BytesUpTo, LineDone, HttpMultiPart.ParseParts, LastValue, PathOnly, DecodeParameters;
    assert s[0..] == s;
    if r.status != WaitForBody {
      var line := LineUpTo(s, LineLimit(cfg, r));
      if line == "" {
        assert r.lineBuffer + line == r.lineBuffer;
      }
    }
  }

  /** A step reads from the front. */
  lemma RestIsSuffix(cfg: Config, r: Request, s: string)
    ensures var rest := ReadStep(cfg, r, s).rest; |rest| <= |s| && rest == s[|s| - |rest|..]
  {
    hide LineUpTo, BytesUpTo, LineDone, LineGrows, AddMultiPart, HasLineEnd, Checked;
  }

  // ---------- Bounds ----------

  /** What holds of a request once `consumed` bytes have been read for it. */
  predicate Bounded(cfg: Config, r: Request, consumed: int) {
    && (r.tempFile == "" || |r.tempFile| <= r.expectedBodySize <= cfg.maxMultiPartSize)
    && (r.body == "" || |r.body| <= r.expectedBodySize)
    && match r.status
       case WaitForRequest => InHead(cfg, r, consumed)
       case WaitForHeader => InHead(cfg, r, consumed)
       case WaitForBody =>
         if r.boundary == "" then
           && consumed <= r.currentSize <= cfg.maxSize && r.tempFile == ""
           && (r.expectedBodySize > 0 ==> r.currentSize + r.expectedBodySize - |r.body| <= cfg.maxSize)
         else r.expectedBodySize <= cfg.maxMultiPartSize && r.body == ""
       case _ => r.boundary == "" ==> consumed <= cfg.maxSize + 1
  }

  predicate InHead(cfg: Config, r: Request, consumed: int) {
    r.boundary == "" && r.body == "" && r.tempFile == "" && consumed <= r.currentSize <= cfg.maxSize
  }

  /** Each line is read with a limit that is at least 1, so never with the value 0 that means no limit. */
  lemma LineLimitIsPositive(cfg: Config, r: Request, consumed: int)
    requires Bounded(cfg, r, consumed) && (r.status == WaitForRequest || r.status == WaitForHeader)
    ensures 1 <= LineLimit(cfg, r) <= cfg.maxSize + 1 - consumed
  {
  }

  lemma LineWithinLimit(s: string, max: int)
    requires max > 0
    ensures |LineUpTo(s, max)| <= max
  {
  }

  lemma LineDoneShape(cfg: Config, r: Request)
    requires r.status == WaitForRequest || r.status == WaitForHeader
    requires r.boundary == "" && r.body == "" && r.tempFile == ""
    ensures var r' := LineDone(cfg, r);
      && r'.currentSize == r.currentSize && r'.body == "" && r'.tempFile == ""
      && (r'.status == WaitForRequest || r'.status == WaitForHeader ==> r'.boundary == "")
      && (r'.status == WaitForBody ==> if r'.boundary == "" then r'.expectedBodySize + r.currentSize <= cfg.maxSize
                                       else r'.expectedBodySize <= cfg.maxMultiPartSize)
  {
    hide Trim, LastValue, HeaderLine, RequestLine, BoundaryOf;
    RequestLineKeeps(r.(lineBuffer := ""), Trim(r.lineBuffer));
    HeaderLineKeeps(cfg, r.(lineBuffer := ""), Trim(r.lineBuffer));
  }

  lemma HeadIsBounded(cfg: Config, r: Request, consumed: int, s: string)
    requires (r.status == WaitForRequest || r.status == WaitForHeader) && InHead(cfg, r, consumed)
    ensures var step := ReadStep(cfg, r, s); Bounded(cfg, step.request, consumed + |s| - |step.rest|)
  {
    hide LineUpTo, LineDone, LastValue, PathOnly, DecodeParameters, AddCookieHeaders, Without, ValuesOf;
    var line := LineUpTo(s, LineLimit(cfg, r));
    LineWithinLimit(s, LineLimit(cfg, r));
    LineDoneShape(cfg, LineGrows(r, line));
  }

  lemma PlainBodyIsBounded(cfg: Config, r: Request, consumed: int, s: string)
    requires r.status == WaitForBody && Bounded(cfg, r, consumed) && r.boundary == ""
    ensures var step := ReadStep(cfg, r, s); Bounded(cfg, step.request, consumed + |s| - |step.rest|)
  {
    hide BytesUpTo, MultiPartBody, HeadStep, LastValue, PathOnly, DecodeParameters, AddCookieHeaders, Without, ValuesOf;
  }

  lemma MultiPartIsBounded(cfg: Config, r: Request, consumed: int, s: string)
    requires r.status == WaitForBody && Bounded(cfg, r, consumed) && r.boundary != ""
    ensures var step := ReadStep(cfg, r, s); Bounded(cfg, step.request, consumed + |s| - |step.rest|)
  {
    hide BytesUpTo, HttpMultiPart.ParseParts, PlainBody, HeadStep, LastValue, PathOnly, DecodeParameters,
        AddCookieHeaders, Without, ValuesOf;
  }

  /** The loop that collects data for one request, on the bytes that have arrived. */
  function Collect(cfg: Config, r: Request, s: string): (step: Step)
    requires PendingOrFinal(r)
    ensures PendingOrFinal(step.request) && |step.rest| <= |s|
    decreases |s|, r.status != Complete && r.status != Abort
  {
    if s == "" || r.status == Complete || r.status == Abort then Step(r, s)
    else
      StepKeepsPending(cfg, r, s);
      ReadsOrEnds(cfg, r, s);
      var step := ReadStep(cfg, r, s);
      Collect(cfg, step.request, step.rest)
  }

  datatype Collected = Collected(request: Request, consumed: int)

  /** One request from bytes that arrive in pieces. */
  function CollectPieces(cfg: Config, r: Request, pieces: seq<string>): (c: Collected)
    requires PendingOrFinal(r)
    ensures PendingOrFinal(c.request)
    decreases |pieces|
  {
    if pieces == [] then Collected(r, 0)
    else
      var step := Collect(cfg, r, pieces[0]);
      var later := CollectPieces(cfg, step.request, pieces[1..]);
      Collected(later.request, |pieces[0]| - |step.rest| + later.consumed)
  }

  lemma {:induction false} CollectIsBounded(cfg: Config, r: Request, consumed: int, s: string)
    requires PendingOrFinal(r) && Bounded(cfg, r, consumed)
    ensures var step := Collect(cfg, r, s); Bounded(cfg, step.request, consumed + |s| - |step.rest|)
    decreases |s|, r.status != Complete && r.status != Abort
  {
    hide ReadStep, Bounded;
    if s != "" && r.status != Complete && r.status != Abort {
      StepKeepsPending(cfg, r, s);
      ReadsOrEnds(cfg, r, s);
      var step := ReadStep(cfg, r, s);
      StepIsBounded(cfg, r, consumed, s);
      CollectIsBounded(cfg, step.request, consumed + |s| - |step.rest|, step.rest);
    }
  }

  lemma StepIsBounded(cfg: Config, r: Request, consumed: int, s: string)
    requires Pending(r) && Bounded(cfg, r, consumed)
    ensures var step := ReadStep(cfg, r, s); Bounded(cfg, step.request, consumed + |s| - |step.rest|)
  {
    hide ReadStep;
    if r.status == WaitForBody && r.boundary == "" {
      PlainBodyIsBounded(cfg, r, consumed, s);
    } else if r.status == WaitForBody {
      MultiPartIsBounded(cfg, r, consumed, s);
    } else {
      HeadIsBounded(cfg, r, consumed, s);
    }
  }

  lemma {:induction false} PiecesAreBounded(cfg: Config, r: Request, consumed: int, pieces: seq<string>)
    requires PendingOrFinal(r) && Bounded(cfg, r, consumed)
    ensures var c := CollectPieces(cfg, r, pieces); Bounded(cfg, c.request, consumed + c.consumed)
    decreases |pieces|
  {
    hide Bounded, Collect;
    if pieces != [] {
      var step := Collect(cfg, r, pieces[0]);
      CollectIsBounded(cfg, r, consumed, pieces[0]);
      PiecesAreBounded(cfg, step.request, consumed + |pieces[0]| - |step.rest|, pieces[1..]);
    }
  }

  /**
   Whatever the bytes and the pieces they arrive in: a request without a multipart body never takes more than one
   byte over the limit, and the temporary file of a multipart body never grows over the announced size, which is
   within its own limit.
   */
  lemma SizeBound(cfg: Config, pieces: seq<string>)
    requires cfg.maxSize >= 0
    ensures var c := CollectPieces(cfg, NEW_REQUEST, pieces);
      && (c.request.boundary == "" ==> c.consumed <= cfg.maxSize + 1)
      && (c.request.tempFile == "" || |c.request.tempFile| <= c.request.expectedBodySize <= cfg.maxMultiPartSize)
      && (c.request.body == "" || |c.request.body| <= c.request.expectedBodySize)
  {
    PiecesAreBounded(cfg, NEW_REQUEST, 0, pieces);
  }

  // ---------- Progress ----------

  /** What has been received of the body. */
  function Received(r: Request): nat {
    if r.boundary == "" then |r.body| else |r.tempFile|
  }

  /**
   A body is awaited only if a length was announced, and then less than the announced length has been received,
   unless that is negative.
   */
  predicate Announced(cfg: Config, r: Request) {
    match r.status
    case WaitForRequest => r.expectedBodySize == 0
    case WaitForHeader => r.expectedBodySize == 0
    case WaitForBody =>
      && r.expectedBodySize != 0
      && r.expectedBodySize == cfg.lib.toInt(LastValue(r.headers, "content-length"))
      && (r.expectedBodySize > 0 ==> Received(r) < r.expectedBodySize)
    case _ => true
  }

  predicate NegativeLength(cfg: Config, r: Request) {
    r.status == WaitForBody && cfg.lib.toInt(LastValue(r.headers, "content-length")) < 0
  }

  lemma LineTakesByte(s: string, max: int)
    requires s != "" && max > 0
    ensures LineUpTo(s, max) != "" && LineUpTo(s, max) <= s
  {
  }

  /** A step on available bytes takes at least one of them, except for a body of negative length. */
  lemma Progress(cfg: Config, r: Request, consumed: int, s: string)
    requires Pending(r) && Bounded(cfg, r, consumed) && Announced(cfg, r) && s != ""
    ensures |ReadStep(cfg, r, s).rest| < |s| <==> !NegativeLength(cfg, r)
  {
    hide LineUpTo, LineDone, LastValue, Checked, AddMultiPart, HasLineEnd;
    if r.status != WaitForBody {
      LineTakesByte(s, LineLimit(cfg, r));
    }
  }

  lemma CheckKeepsAnnounced(cfg: Config, r: Request)
    requires Announced(cfg, r)
    ensures Announced(cfg, Checked(cfg, r))
  {
    hide LastValue, PathOnly, DecodeParameters;
  }

  lemma LineDoneIsAnnounced(cfg: Config, r: Request)
    requires (r.status == WaitForRequest || r.status == WaitForHeader) && r.expectedBodySize == 0
    requires r.body == "" && r.tempFile == ""
    ensures Announced(cfg, LineDone(cfg, r))
  {
    hide Trim, LastValue, HeaderLine, RequestLine, BoundaryOf;
    RequestLineKeeps(r.(lineBuffer := ""), Trim(r.lineBuffer));
    HeaderLineKeeps(cfg, r.(lineBuffer := ""), Trim(r.lineBuffer));
  }

  lemma StepKeepsAnnounced(cfg: Config, r: Request, consumed: int, s: string)
    requires Pending(r) && Bounded(cfg, r, consumed) && Announced(cfg, r)
    ensures Announced(cfg, ReadStep(cfg, r, s).request)
  {
    hide LineDone, Checked, LineUpTo, BytesUpTo, AddMultiPart, LastValue;
    if r.status != WaitForBody {
      LineDoneIsAnnounced(cfg, LineGrows(r, LineUpTo(s, LineLimit(cfg, r))));
      CheckKeepsAnnounced(cfg, HeadStep(cfg, r, s).request);
    } else {
      CheckKeepsAnnounced(cfg, BodyStep(cfg, r, s).request);
    }
  }

  lemma {:induction false} CollectKeepsAnnounced(cfg: Config, r: Request, consumed: int, s: string)
    requires PendingOrFinal(r) && Bounded(cfg, r, consumed) && Announced(cfg, r)
    ensures Announced(cfg, Collect(cfg, r, s).request)
    decreases |s|, r.status != Complete && r.status != Abort
  {
    hide ReadStep, Bounded, Announced;
    if s != "" && r.status != Complete && r.status != Abort {
      StepKeepsPending(cfg, r, s);
      ReadsOrEnds(cfg, r, s);
      StepIsBounded(cfg, r, consumed, s);
      StepKeepsAnnounced(cfg, r, consumed, s);
      var step := ReadStep(cfg, r, s);
      CollectKeepsAnnounced(cfg, step.request, consumed + |s| - |step.rest|, step.rest);
    }
  }

  lemma {:induction false} PiecesKeepAnnounced(cfg: Config, r: Request, consumed: int, pieces: seq<string>)
    requires PendingOrFinal(r) && Bounded(cfg, r, consumed) && Announced(cfg, r)
    ensures Announced(cfg, CollectPieces(cfg, r, pieces).request)
    decreases |pieces|
  {
    hide Bounded, Collect, Announced;
    if pieces != [] {
      var step := Collect(cfg, r, pieces[0]);
      CollectIsBounded(cfg, r, consumed, pieces[0]);
      CollectKeepsAnnounced(cfg, r, consumed, pieces[0]);
      PiecesKeepAnnounced(cfg, step.request, consumed + |pieces[0]| - |step.rest|, pieces[1..]);
    }
  }

  /** Whatever has arrived before: the next bytes make progress, except for a body of negative length. */
  lemma RunsMakeProgress(cfg: Config, pieces: seq<string>, s: string)
    requires cfg.maxSize >= 0 && s != ""
    ensures var r := CollectPieces(cfg, NEW_REQUEST, pieces).request;
      r.status != Complete && r.status != Abort ==> (|ReadStep(cfg, r, s).rest| < |s| <==> !NegativeLength(cfg, r))
  {
    hide ReadStep, CollectPieces;
    var c := CollectPieces(cfg, NEW_REQUEST, pieces);
    PiecesAreBounded(cfg, NEW_REQUEST, 0, pieces);
    PiecesKeepAnnounced(cfg, NEW_REQUEST, 0, pieces);
    if c.request.status != Complete && c.request.status != Abort {
      Progress(cfg, c.request, c.consumed, s);
    }
  }
}
