/** A delivery that divides a line break: where the head of the request ends, and when the request is read right. */
module HttpSplitLines {
  import opened Strings
  import opened HttpText
  import opened HttpSockets
  import HttpMultiPart
  import opened HttpRequests
  import opened HttpLimits
  import opened HttpMessages
  import opened HttpPipelining

  // ---------- A message cut inside the line break of line k ----------

  /** The lines in front of line `k`, from line `j` on. */
  function LinesBefore(m: Message, j: nat, k: nat): string
    requires j <= k < Count(m)
    decreases k - j
  {
    if j == k then "" else Text(m, j) + CRLF + LinesBefore(m, j + 1, k)
  }

  /** The message up to the carriage return behind line `k`. */
  function Front(m: Message, k: nat): string
    requires k < Count(m)
  {
    LinesBefore(m, 0, k) + (Text(m, k) + "\r")
  }

  /** What follows the line feed behind line `k`. */
  function Back(m: Message, k: nat): string
    requires k < Count(m)
  {
    LinesFrom(m, k + 1) + m.body
  }

  lemma {:induction false} LinesJoin(m: Message, j: nat, k: nat)
    requires j <= k < Count(m)
    ensures LinesFrom(m, j) == LinesBefore(m, j, k) + (Text(m, k) + CRLF + LinesFrom(m, k + 1))
    decreases k - j
  {
    hide Text;
    if j < k {
      LinesJoin(m, j + 1, k);
    }
  }

  lemma CutIsInLineBreak(m: Message, k: nat)
    requires k < Count(m)
    ensures Encoded(m) == Front(m, k) + ("\n" + Back(m, k))
  {
    hide Text, LinesFrom, LinesBefore;
    LinesJoin(m, 0, k);
    assert CRLF == "\r" + "\n";
  }

  /** The request with which the head ends, but for its size. */
  function HeadAfterCut(m: Message, k: nat): Request
    requires k < Count(m)
  {
    StateAt(m, if k + 1 < Count(m) then k + 1 else k)
  }

  /** What stands behind the end of the head, when `tail` follows the message. */
  function BehindHead(m: Message, k: nat, tail: string): string
    requires k < Count(m)
  {
    if k + 1 < Count(m) then Back(m, k) + tail else "\n" + Back(m, k) + tail
  }

  lemma HeadersAfterCut(m: Message, k: nat)
    requires k < Count(m)
    ensures HeadAfterCut(m, k).headers == Keys(m.headers) <==> k >= |m.headers|
  {
    var hs := Keys(m.headers);
    assert hs[..|hs|] == hs;
  }

  // ---------- One step ----------

  /** A whole line in an empty buffer. */
  lemma BufferedLine(cfg: Config, r: Request, line: string, more: string)
    requires (r.status == WaitForRequest || r.status == WaitForHeader) && r.lineBuffer == "" && HasLineEnd(line)
    requires LineUpTo(line + more, LineLimit(cfg, r)) == line
    ensures ReadStep(cfg, r, line + more) ==
      Step(Checked(cfg, LineDone(cfg, r.(lineBuffer := line, currentSize := r.currentSize + |line|))), more)
  {
    hide LineUpTo, LineDone, Checked, HasLineEnd;
    assert "" + line == line && (line + more)[|line|..] == more;
  }

  lemma WholeLine(cfg: Config, m: Message, k: nat, size: nat, more: string)
    requires WellFormedHead(m) && k + 1 < Count(m) && size + |Text(m, k)| + 2 <= cfg.maxSize
    ensures ReadStep(cfg, StateAt(m, k).(currentSize := size), Text(m, k) + CRLF + more)
         == Step(StateAt(m, k + 1).(currentSize := size + |Text(m, k)| + 2), more)
  {
    hide WellFormedHead, LineUpTo, Text, Keys, LineDone, Checked, ReadStep;
    var r, line := StateAt(m, k).(currentSize := size), Text(m, k) + CRLF;
    TextHasNoLineEnd(m, k);
    LineBreakEnds(Text(m, k), more, LineLimit(cfg, r));
    assert line[|Text(m, k)|] == '\r';
    BufferedLine(cfg, r, line, more);
    LineParsedInHead(cfg, m, k, size + |line|);
    WaitingStays(cfg, m, k + 1, size + |line|);
  }

  lemma LineBreakEnds(text: string, more: string, limit: int)
    requires NoLineEnd(text) && limit >= |text| + 2
    ensures LineUpTo(text + CRLF + more, limit) == text + CRLF
  {
    hide IndexOf, MatchesAt;
    assert text + CRLF + more == (text + "\r") + "\n" + more;
    FirstOf(text + "\r", '\n', more);
  }

  lemma LineOf(s: string, rest: string, limit: int)
    requires NoLineEnd(s) && limit > |s|
    ensures LineUpTo(s + "\r", limit) == s + "\r"
    ensures LineUpTo("\n" + rest, limit) == "\n"
  {
    hide IndexOf, MatchesAt;
    NotFound(s + "\r", '\n');
    FirstOf("", '\n', rest);
    assert "" + "\n" + rest == "\n" + rest;
  }

  /** A line that ends with a carriage return alone is done at once. */
  lemma HalfLine(cfg: Config, r: Request, text: string)
    requires (r.status == WaitForRequest || r.status == WaitForHeader) && r.lineBuffer == "" && NoLineEnd(text)
    requires r.currentSize + |text| + 1 <= cfg.maxSize
    ensures ReadStep(cfg, r, text + "\r") ==
      Step(Checked(cfg, LineDone(cfg, r.(lineBuffer := text + "\r", currentSize := r.currentSize + |text| + 1))), "")
  {
    hide LineUpTo, LineDone, Checked, ReadStep;
    var line := text + "\r";
    LineOf(text, "", LineLimit(cfg, r));
    assert line[|text|] == '\r' && line + "" == line;
    BufferedLine(cfg, r, line, "");
  }

  lemma CarriageReturnIsEnough(m: Message, k: nat)
    requires WellFormedHead(m) && k + 1 < Count(m)
    ensures Trim(Text(m, k) + "\r") == Trim(Text(m, k) + CRLF)
  {
    hide Trim, ContainsText;
    var text := Text(m, k);
    if k == 0 {
      assert m.verb[0] in m.verb;
      assert (text + "\r")[0] == m.verb[0];
    } else {
      FieldIsWellFormed(m, k - 1);
      assert (text + "\r")[0] == m.headers[k - 1].name[0];
    }
    TrimSpaceBehind(text + "\r", '\n');
    assert text + "\r" + ['\n'] == text + CRLF;
  }

  lemma SameTrimmedLine(cfg: Config, m: Message, k: nat, size: nat)
    requires WellFormedHead(m) && k + 1 < Count(m)
    ensures var r := StateAt(m, k).(currentSize := size);
      LineDone(cfg, r.(lineBuffer := Text(m, k) + "\r")) == LineDone(cfg, r.(lineBuffer := Text(m, k) + CRLF))
  {
    hide WellFormedHead, Trim, Text, RequestLine, HeaderLine, Keys;
    CarriageReturnIsEnough(m, k);
  }

  lemma WaitingStays(cfg: Config, m: Message, k: nat, size: nat)
    requires k < Count(m) && size <= cfg.maxSize
    ensures Checked(cfg, StateAt(m, k).(currentSize := size)) == StateAt(m, k).(currentSize := size)
    ensures Pending(StateAt(m, k).(currentSize := size))
  {
    hide Keys, Lower;
  }

  /** The first half of a line break ends the request line or header. */
  lemma FirstHalf(cfg: Config, m: Message, k: nat, size: nat)
    requires WellFormedHead(m) && k + 1 < Count(m)
    requires size + |Text(m, k)| + 1 <= cfg.maxSize
    ensures ReadStep(cfg, StateAt(m, k).(currentSize := size), Text(m, k) + "\r")
         == Step(StateAt(m, k + 1).(currentSize := size + |Text(m, k)| + 1), "")
  {
    hide WellFormedHead, Text, Keys, Lower, ReadStep, LineDone, Checked;
    var size' := size + |Text(m, k)| + 1;
    TextHasNoLineEnd(m, k);
    HalfLine(cfg, StateAt(m, k).(currentSize := size), Text(m, k));
    SameTrimmedLine(cfg, m, k, size');
    LineParsedInHead(cfg, m, k, size');
    WaitingStays(cfg, m, k + 1, size');
  }

  lemma EmptyLine(cfg: Config, r: Request, line: string)
    requires r.status == WaitForHeader && (line == "\n" || line == "\r" || line == CRLF)
    ensures LineDone(cfg, r.(lineBuffer := line)) == EndOfHeaders(cfg, r.(lineBuffer := ""))
  {
    hide EndOfHeaders, IndexOf, MatchesAt;
    assert line != CRLF ==> line[1..] == "";
    TrimLine("");
    assert "" + CRLF == CRLF;
    NotFound("", ':');
  }

  /** The second half is taken for the empty line that ends the head, whatever headers were still to come. */
  lemma SecondHalf(cfg: Config, r: Request, rest: string)
    requires r.status == WaitForHeader && r.lineBuffer == "" && r.currentSize < cfg.maxSize
    ensures ReadStep(cfg, r, "\n" + rest)
         == Step(Checked(cfg, EndOfHeaders(cfg, r.(currentSize := r.currentSize + 1))), rest)
  {
    hide LineUpTo, EndOfHeaders, Checked, LineDone;
    LineOf("", rest, LineLimit(cfg, r));
    assert "" + "\n" == "\n" && ("\n" + rest)[1..] == rest;
    assert '\n' in "\n";
    EmptyLine(cfg, r.(currentSize := r.currentSize + 1), "\n");
  }

  // ---------- Both pieces ----------

  lemma CollectStep(cfg: Config, r: Request, s: string)
    requires Pending(r) && s != "" && PendingOrFinal(ReadStep(cfg, r, s).request)
    ensures var step := ReadStep(cfg, r, s); Collect(cfg, r, s) == Collect(cfg, step.request, step.rest)
  {
    hide ReadStep;
  }

  lemma CollectedAll(cfg: Config, r: Request)
    requires PendingOrFinal(r)
    ensures Collect(cfg, r, "") == Step(r, "")
  {
  }

  /** The first piece ends line `k`: behind the last one the head ends, too. */
  lemma {:induction false} FrontRead(cfg: Config, m: Message, j: nat, k: nat, size: nat)
    requires WellFormedHead(m) && j <= k < Count(m)
    requires size + |LinesBefore(m, j, k)| + |Text(m, k)| + 1 <= cfg.maxSize
    ensures PendingOrFinal(StateAt(m, j).(currentSize := size))
    ensures var size' := size + |LinesBefore(m, j, k)| + |Text(m, k)| + 1;
      var head := HeadAfterCut(m, k).(currentSize := size');
      Collect(cfg, StateAt(m, j).(currentSize := size), LinesBefore(m, j, k) + (Text(m, k) + "\r"))
        == Step(if k + 1 < Count(m) then head else Checked(cfg, EndOfHeaders(cfg, head)), "")
    decreases k - j
  {
    hide WellFormedHead, Text, Collect, ReadStep, StateAt, Checked, EndOfHeaders, Pending;
    WaitingStays(cfg, m, j, size);
    if j < k {
      var more := LinesBefore(m, j + 1, k) + (Text(m, k) + "\r");
      var s := LinesBefore(m, j, k) + (Text(m, k) + "\r");
      assert s == Text(m, j) + CRLF + more;
      WholeLine(cfg, m, j, size, more);
      WaitingStays(cfg, m, j + 1, size + |Text(m, j)| + 2);
      CollectStep(cfg, StateAt(m, j).(currentSize := size), s);
      FrontRead(cfg, m, j + 1, k, size + |Text(m, j)| + 2);
    } else {
      LastHalfRead(cfg, m, k, size);
      assert "" + (Text(m, k) + "\r") == Text(m, k) + "\r";
    }
  }

  lemma LastHalfRead(cfg: Config, m: Message, k: nat, size: nat)
    requires WellFormedHead(m) && k < Count(m) && size + |Text(m, k)| + 1 <= cfg.maxSize
    requires PendingOrFinal(StateAt(m, k).(currentSize := size))
    ensures var head := HeadAfterCut(m, k).(currentSize := size + |Text(m, k)| + 1);
      Collect(cfg, StateAt(m, k).(currentSize := size), Text(m, k) + "\r")
        == Step(if k + 1 < Count(m) then head else Checked(cfg, EndOfHeaders(cfg, head)), "")
  {
    hide WellFormedHead, Text, Collect, ReadStep, StateAt, Checked, EndOfHeaders, LineDone, Pending;
    var r, s := StateAt(m, k).(currentSize := size), Text(m, k) + "\r";
    WaitingStays(cfg, m, k, size);
    if k + 1 < Count(m) {
      FirstHalf(cfg, m, k, size);
      WaitingStays(cfg, m, k + 1, size + |s|);
    } else {
      LastTextIsEmpty(m, k);
      HalfLine(cfg, r, "");
      EmptyLine(cfg, r.(currentSize := size + 1), "\r");
      assert "" + "\r" == "\r";
    }
    StepKeepsPending(cfg, r, s);
    CollectStep(cfg, r, s);
    CollectedAll(cfg, ReadStep(cfg, r, s).request);
  }

  lemma LastTextIsEmpty(m: Message, k: nat)
    requires k + 1 == Count(m)
    ensures Text(m, k) == "" && NoLineEnd("")
    ensures StateAt(m, k).status == WaitForHeader && StateAt(m, k).lineBuffer == ""
  {
  }

  // ---------- What is read in the end ----------

  /** The request that is dispatched, with this body. */
  function Finished(cfg: Config, m: Message, body: string, size: int): Request {
    TakeCookies(cfg, AddParameters(cfg, InBody(m).(status := Complete, body := body, currentSize := size)))
  }

  lemma EndOfAllHeaders(cfg: Config, m: Message, size: int)
    requires WellFormed(m) && ReadsInts(cfg.lib.toInt)
    ensures EndOfHeaders(cfg, StateAt(m, Count(m) - 1).(currentSize := size)) == NextState(cfg, m, Count(m) - 1, size)
  {
    hide WellFormed, ReadsInts, EndOfHeaders, IndexOf, MatchesAt, StateAt, Keys;
    var r := StateAt(m, Count(m) - 1).(currentSize := size);
    EndParsed(cfg, m, size);
    assert "" + CRLF == CRLF;
    TrimLine("");
    NotFound("", ':');
    assert HeaderLine(cfg, r, "") == EndOfHeaders(cfg, r);
  }

  lemma FinishedIsComplete(cfg: Config, m: Message, body: string, size: int)
    ensures Finished(cfg, m, body, size).status == Complete
  {
    hide AddCookieHeaders, LastValue, ValuesOf, Without, Keys;
  }

  /** A request without a body is complete with its head. */
  lemma NoBodyBehindHead(cfg: Config, m: Message, size: int)
    requires m.body == "" && size <= cfg.maxSize
    ensures Checked(cfg, NextState(cfg, m, Count(m) - 1, size)) == Finished(cfg, m, "", size)
  {
    hide TakeCookies, AddParameters, Keys, Lower;
  }

  /** A request with a body is completed by one step when enough bytes have arrived. */
  lemma BodyInOneStep(cfg: Config, m: Message, size: int, behind: string)
    requires m.body != "" && |m.body| <= |behind| && size + |m.body| <= cfg.maxSize
    ensures var r := Checked(cfg, NextState(cfg, m, Count(m) - 1, size));
      && Pending(r)
      && ReadStep(cfg, r, behind) == Step(Finished(cfg, m, behind[..|m.body|], size + |m.body|), behind[|m.body|..])
  {
    hide TakeCookies, AddParameters, Keys, Lower;
    var data := behind[..|m.body|];
    assert "" + data == data;
  }

  /** Behind the head exactly as many bytes are taken for the body as the body has. */
  lemma BodyBehindHead(cfg: Config, m: Message, size: int, behind: string)
    requires |m.body| <= |behind| && size + |m.body| <= cfg.maxSize
    ensures var r := Checked(cfg, NextState(cfg, m, Count(m) - 1, size));
      && PendingOrFinal(r)
      && Collect(cfg, r, behind)
           == Step(Finished(cfg, m, behind[..|m.body|], size + |m.body|), behind[|m.body|..])
  {
    hide ReadStep, NextState, Checked, Finished;
    var data, rest := behind[..|m.body|], behind[|m.body|..];
    FinishedIsComplete(cfg, m, data, size + |m.body|);
    if m.body == "" {
      NoBodyBehindHead(cfg, m, size);
      assert data == "" && rest == behind;
    } else {
      BodyInOneStep(cfg, m, size, behind);
      CollectStep(cfg, Checked(cfg, NextState(cfg, m, Count(m) - 1, size)), behind);
    }
  }

  /** Where the head of a message ends that is cut inside the line break of line `k`. */
  lemma SplitLineBreakEndsHead(cfg: Config, m: Message, k: nat, tail: string)
    requires WellFormedHead(m) && k < Count(m) && |Encoded(m)| <= cfg.maxSize
    ensures var first := Collect(cfg, NEW_REQUEST, Front(m, k));
      var n, head := |Front(m, k)|, HeadAfterCut(m, k);
      && first.rest == ""
      && if k + 1 < Count(m) then
           && first.request == head.(currentSize := n)
           && ReadStep(cfg, first.request, "\n" + Back(m, k) + tail)
              == Step(Checked(cfg, EndOfHeaders(cfg, head.(currentSize := n + 1))), BehindHead(m, k, tail))
         else first.request == Checked(cfg, EndOfHeaders(cfg, head.(currentSize := n)))
  {
    hide WellFormedHead, Text, Collect, ReadStep, Checked, EndOfHeaders, LinesFrom, LinesBefore, Keys;
    CutIsInLineBreak(m, k);
    FrontRead(cfg, m, 0, k, 0);
    if k + 1 < Count(m) {
      assert "\n" + Back(m, k) + tail == "\n" + (Back(m, k) + tail);
      SecondHalf(cfg, HeadAfterCut(m, k).(currentSize := |Front(m, k)|), Back(m, k) + tail);
    }
  }

  /** The body that is read when the head ends behind its last header. */
  lemma SplitLineBreakGivesBody(cfg: Config, m: Message, k: nat, tail: string)
    requires WellFormed(m) && ReadsInts(cfg.lib.toInt) && k < Count(m) && |Encoded(m)| <= cfg.maxSize
    requires k >= |m.headers|
    ensures |m.body| <= |BehindHead(m, k, tail)|
    ensures var first, behind := Collect(cfg, NEW_REQUEST, Front(m, k)).request, BehindHead(m, k, tail);
      var size := |Front(m, k)| + (if k + 1 < Count(m) then 1 else 0) + |m.body|;
      && PendingOrFinal(first)
      && Collect(cfg, first, "\n" + Back(m, k) + tail)
         == Step(Finished(cfg, m, behind[..|m.body|], size), behind[|m.body|..])
  {
    hide WellFormedHead, ReadsInts, Text, Collect, ReadStep, Checked, EndOfHeaders, LinesFrom, LinesBefore, Keys,
         Finished, NextState, StateAt;
    var n := |Front(m, k)|;
    CutIsInLineBreak(m, k);
    SplitLineBreakEndsHead(cfg, m, k, tail);
    if k + 1 < Count(m) {
      EndOfAllHeaders(cfg, m, n + 1);
      BodyBehindHead(cfg, m, n + 1, BehindHead(m, k, tail));
      WaitingStays(cfg, m, k + 1, n);
      CollectStep(cfg, Collect(cfg, NEW_REQUEST, Front(m, k)).request, "\n" + Back(m, k) + tail);
    } else {
      EndOfAllHeaders(cfg, m, n);
      BodyBehindHead(cfg, m, n, BehindHead(m, k, tail));
    }
  }

  /** What is left of the line breaks behind the head, in front of the body. */
  function LeftOfLineBreaks(m: Message, k: nat): string {
    if k == |m.headers| then CRLF else "\n"
  }

  lemma BehindHeadIs(m: Message, k: nat, tail: string)
    requires |m.headers| <= k < Count(m)
    ensures BehindHead(m, k, tail) == LeftOfLineBreaks(m, k) + m.body + tail
  {
    hide CRLF;
    if k == |m.headers| {
      assert LinesFrom(m, k + 1) == "" + CRLF + "";
    }
  }

  lemma PrefixInFront(body: string, x: string, tail: string)
    ensures (x + body + tail)[..|body|] == body <==> body <= x + body
  {
    assert (x + body + tail)[..|body|] == (x + body)[..|body|];
  }

  /**
   A message cut inside the line break of line `k`: the head ends there, with the headers in front of the cut, and
   what follows is taken for the body. All headers and the right body are read if and only if the cut lies behind the
   last header (the request line if there is none) and the body is empty or made of the line breaks that are left;
   then the right request is dispatched.
   */
  lemma SplitLineBreakExactly(cfg: Config, m: Message, k: nat, tail: string)
    requires WellFormed(m) && ReadsInts(cfg.lib.toInt) && k < Count(m) && |Encoded(m)| <= cfg.maxSize
    ensures Encoded(m) + tail == Front(m, k) + ("\n" + Back(m, k) + tail) && |m.body| <= |BehindHead(m, k, tail)|
    ensures HeadAfterCut(m, k).headers == Keys(m.headers) && BehindHead(m, k, tail)[..|m.body|] == m.body <==>
      k >= |m.headers| && m.body <= LeftOfLineBreaks(m, k) + m.body
    ensures k >= |m.headers| && m.body <= LeftOfLineBreaks(m, k) + m.body ==>
      var size := |Front(m, k)| + (if k + 1 < Count(m) then 1 else 0) + |m.body|;
      var first := Collect(cfg, NEW_REQUEST, Front(m, k)).request;
      && PendingOrFinal(first)
      && Collect(cfg, first, "\n" + Back(m, k) + tail)
         == Step(RequestOf(cfg, m, size), BehindHead(m, k, tail)[|m.body|..])
  {
    hide WellFormed, ReadsInts, Collect, LinesFrom, Front, HeadAfterCut, Keys, TakeCookies, AddParameters, InBody;
    assert |m.body| <= |BehindHead(m, k, tail)|;
    CutIsInLineBreak(m, k);
    assert Encoded(m) + tail == Front(m, k) + ("\n" + Back(m, k) + tail);
    HeadersAfterCut(m, k);
    if k >= |m.headers| {
      hide BehindHead, Back;
      BehindHeadIs(m, k, tail);
      PrefixInFront(m.body, LeftOfLineBreaks(m, k), tail);
      SplitLineBreakGivesBody(cfg, m, k, tail);
    }
  }

  // ---------- The request that is dispatched ----------

  lemma FinishedFields(cfg: Config, r: Request)
    ensures var r' := TakeCookies(cfg, AddParameters(cfg, r));
      r'.status == r.status && r'.body == r.body && r'.headers == Without(r.headers, "cookie")
  {
    hide AddCookieHeaders, LastValue, ValuesOf, Without;
  }

  lemma CheckedHeaders(cfg: Config, r: Request)
    ensures var r' := Checked(cfg, r);
      && (r'.status == Complete ==> r'.headers == Without(r.headers, "cookie"))
      && (r'.status == WaitForBody ==> r' == r)
      && (r'.status == r.status || r'.status == Abort)
  {
    hide TakeCookies, AddParameters, Without;
    FinishedFields(cfg, r);
  }

  /** Reading a body leaves the headers alone, but for taking the cookies. */
  lemma {:induction false} BodyKeepsHeaders(cfg: Config, r: Request, s: string)
    requires PendingOrFinal(r) && r.status == WaitForBody
    ensures var r' := Collect(cfg, r, s).request; r'.status == Complete ==> r'.headers == Without(r.headers, "cookie")
    decreases |s|
  {
    hide BodyStep, Checked, Without, Pending;
    if s != "" {
      StepKeepsPending(cfg, r, s);
      ReadsOrEnds(cfg, r, s);
      var step := ReadStep(cfg, r, s);
      BodyStepHeaders(cfg, r, s);
      CheckedHeaders(cfg, BodyStep(cfg, r, s).request);
      if step.request.status == WaitForBody {
        BodyKeepsHeaders(cfg, step.request, step.rest);
      } else {
        FinalStays(cfg, step.request, step.rest);
      }
    }
  }

  lemma BodyStepHeaders(cfg: Config, r: Request, s: string)
    requires r.status == WaitForBody
    ensures var r' := BodyStep(cfg, r, s).request;
      r'.headers == r.headers && (r'.status == WaitForBody || r'.status == Complete || r'.status == Abort)
  {
    hide BytesUpTo, HttpMultiPart.ParseParts;
  }

  /** Behind the end of the head: whatever is read, a complete request has the headers of its head. */
  lemma HeadSettlesHeaders(cfg: Config, r: Request, s: string)
    requires PendingOrFinal(Checked(cfg, EndOfHeaders(cfg, r)))
    ensures var r' := Collect(cfg, Checked(cfg, EndOfHeaders(cfg, r)), s).request;
      r'.status == Complete ==> r'.headers == Without(r.headers, "cookie")
  {
    hide Without, BoundaryOf, LastValue, Collect, TakeCookies, AddParameters;
    var q := EndOfHeaders(cfg, r);
    assert q.headers == r.headers && (q.status == WaitForBody || q.status == Complete || q.status == Abort);
    CheckedHeaders(cfg, q);
    if Checked(cfg, q).status == WaitForBody {
      BodyKeepsHeaders(cfg, q, s);
    } else {
      FinalStays(cfg, Checked(cfg, q), s);
    }
  }

  lemma FinalStays(cfg: Config, r: Request, s: string)
    requires r.status == Complete || r.status == Abort
    ensures Collect(cfg, r, s) == Step(r, s)
  {
  }

  lemma {:induction false} WithoutConcat(a: seq<Header>, b: seq<Header>, name: string)
    ensures HttpRequests.Without(a + b, name) == HttpRequests.Without(a, name) + HttpRequests.Without(b, name)
  {
    if a == [] {
      assert a + b == b;
    } else {
      assert (a + b)[1..] == a[1..] + b;
      WithoutConcat(a[1..], b, name);
    }
  }

  lemma {:induction false} SomeOtherStays(hs: seq<Header>, i: nat, name: string)
    requires i < |hs| && hs[i].name != name
    ensures Without(hs, name) != []
  {
    if i > 0 {
      SomeOtherStays(hs[1..], i - 1, name);
    }
  }

  /** A header that is no cookie stands behind the cut. */
  predicate LosesHeader(m: Message, k: nat) {
    exists i :: k <= i < |m.headers| && Keys(m.headers)[i].name != "cookie"
  }

  lemma LostHeaderIsMissed(m: Message, k: nat)
    requires k < |m.headers| && LosesHeader(m, k)
    ensures Without(Keys(m.headers)[..k], "cookie") != Without(Keys(m.headers), "cookie")
  {
    var hs := Keys(m.headers);
    var i :| k <= i < |m.headers| && hs[i].name != "cookie";
    assert hs == hs[..k] + hs[k..];
    WithoutConcat(hs[..k], hs[k..], "cookie");
    assert hs[k..][i - k] == hs[i];
    SomeOtherStays(hs[k..], i - k, "cookie");
  }

  lemma CutHeadIsWrong(cfg: Config, m: Message, k: nat, tail: string, size: int)
    requires WellFormedHead(m) && k < |m.headers| && LosesHeader(m, k) && |Encoded(m)| <= cfg.maxSize
    ensures var first := Collect(cfg, NEW_REQUEST, Front(m, k)).request;
      Collect(cfg, first, "\n" + Back(m, k) + tail).request != RequestOf(cfg, m, size)
  {
    hide WellFormedHead, Text, Collect, ReadStep, Checked, EndOfHeaders, LinesFrom, LinesBefore, LosesHeader, Pending,
         TakeCookies, AddParameters, Keys;
    var n, b := |Front(m, k)|, "\n" + Back(m, k) + tail;
    var head := HeadAfterCut(m, k);
    CutIsInLineBreak(m, k);
    SplitLineBreakEndsHead(cfg, m, k, tail);
    WaitingStays(cfg, m, k + 1, n);
    StepKeepsPending(cfg, head.(currentSize := n), b);
    CollectStep(cfg, head.(currentSize := n), b);
    HeadSettlesHeaders(cfg, head.(currentSize := n + 1), BehindHead(m, k, tail));
    LostHeaderIsMissed(m, k);
    RightHeaders(cfg, m, size);
  }

  lemma RightHeaders(cfg: Config, m: Message, size: int)
    ensures var r := RequestOf(cfg, m, size);
      r.status == Complete && r.body == m.body && r.headers == Without(Keys(m.headers), "cookie")
  {
    hide TakeCookies, AddParameters, Without;
    assert Keys(m.headers)[..|m.headers|] == Keys(m.headers);
    FinishedFields(cfg, InBody(m).(status := Complete, body := m.body, currentSize := size));
  }

  /**
   The right request is dispatched for a message cut inside the line break of line `k` if and only if the cut lies
   behind the last header and the body is empty or made of the line breaks that are left. Cookies are the only headers
   whose loss might not show.
   */
  lemma SplitDispatchesExactly(cfg: Config, m: Message, k: nat, tail: string)
    requires WellFormed(m) && ReadsInts(cfg.lib.toInt) && k < Count(m) && |Encoded(m)| <= cfg.maxSize
    requires k < |m.headers| ==> LosesHeader(m, k)
    ensures var first := Collect(cfg, NEW_REQUEST, Front(m, k)).request;
      var read := Collect(cfg, first, "\n" + Back(m, k) + tail).request;
      (exists size :: read == RequestOf(cfg, m, size)) <==>
        k >= |m.headers| && m.body <= LeftOfLineBreaks(m, k) + m.body
  {
    hide WellFormedHead, ReadsInts, Collect, LinesFrom, Front, HeadAfterCut, Keys, TakeCookies, AddParameters, InBody,
         RequestOf, BehindHead, Back, LosesHeader, Finished, Encoded;
    SplitLineBreakExactly(cfg, m, k, tail);
    if k < |m.headers| {
      forall size
        ensures Collect(cfg, Collect(cfg, NEW_REQUEST, Front(m, k)).request, "\n" + Back(m, k) + tail).request
             != RequestOf(cfg, m, size)
      {
        CutHeadIsWrong(cfg, m, k, tail, size);
      }
    } else {
      SplitLineBreakGivesBody(cfg, m, k, tail);
      BehindHeadIs(m, k, tail);
      PrefixInFront(m.body, LeftOfLineBreaks(m, k), tail);
      forall size
        ensures RequestOf(cfg, m, size).body == m.body
      {
        RightHeaders(cfg, m, size);
      }
      var size := |Front(m, k)| + (if k + 1 < Count(m) then 1 else 0) + |m.body|;
      FinishedBody(cfg, m, BehindHead(m, k, tail)[..|m.body|], size);
    }
  }

  lemma FinishedBody(cfg: Config, m: Message, body: string, size: int)
    ensures Finished(cfg, m, body, size).body == body
  {
    hide TakeCookies, AddParameters, Without;
    FinishedFields(cfg, InBody(m).(status := Complete, body := body, currentSize := size));
  }
}
