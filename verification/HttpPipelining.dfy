/** Pipelined requests, delivered in pieces: which of them are dispatched, and that nothing is read twice or lost. */
module HttpPipelining {
  import opened Strings
  import opened HttpText
  import opened HttpSockets
  import opened HttpRequests
  import opened HttpLimits
  import opened HttpMessages
  import opened HttpConnections
  import opened HttpKeepAlive

  // ---------- The parser in the middle of a message ----------

  /** The request `r` in front of or inside line `k` of the message, or in its body; `left` is not yet read. */
  predicate At(cfg: Config, m: Message, k: nat, r: Request, left: string) {
    && r.currentSize <= cfg.maxSize
    && if k < Count(m) then
         && r == StateAt(m, k).(lineBuffer := r.lineBuffer, currentSize := r.currentSize)
         && r.lineBuffer <= Text(m, k)
         && r.lineBuffer + left == LinesFrom(m, k) + m.body
       else
         && k == Count(m) && left != ""
         && r == InBody(m).(body := r.body, currentSize := r.currentSize)
         && r.body + left == m.body
         && r.currentSize + |left| <= cfg.maxSize
  }

  /** The size the request will have if the rest arrives in one piece. */
  function Forecast(r: Request, left: string): int {
    r.currentSize + |r.lineBuffer| + |left|
  }

  /** No piece ends between the two characters of a line break. */
  predicate NoSplit(s: string, later: string) {
    s == "" || later == "" || s[|s| - 1] != '\r' || later[0] != '\n'
  }

  /** The request that is dispatched. */
  function RequestOf(cfg: Config, m: Message, size: int): Request {
    TakeCookies(cfg, AddParameters(cfg, InBody(m).(status := Complete, body := m.body, currentSize := size)))
  }

  // ---------- Reading within a line ----------

  lemma ReadPart(s: string, later: string, tail: string, after: string, limit: int)
    requires limit >= 1 && s != "" && s + later == tail + after
    requires tail != "" && tail[|tail| - 1] == '\n' && '\n' !in tail[..|tail| - 1]
    ensures var n := if |tail| <= |s| then |tail| else |s|;
      && s[..n] == tail[..n]
      && LineUpTo(s, limit) == s[..if n <= limit then n else limit]
  {
    hide IndexOf, MatchesAt;
    var n := if |tail| <= |s| then |tail| else |s|;
    assert s[..n] == (s + later)[..n] == (tail + after)[..n] == tail[..n];
    if |tail| <= |s| {
      var before := tail[..|tail| - 1];
      assert s == before + "\n" + s[|tail|..];
      FirstOf(before, '\n', s[|tail|..]);
    } else {
      assert s == tail[..|tail| - 1][..|s|];
      NotFound(s, '\n');
    }
  }

  /** A request in its head. */
  predicate Heading(r: Request) {
    && (r.status == WaitForRequest || r.status == WaitForHeader)
    && r.boundary == "" && r.body == "" && r.tempFile == "" && NoMultiPart(r.headers)
  }

  lemma OverSize(cfg: Config, r: Request, s: string)
    requires Heading(r) && LineGrows(r, LineUpTo(s, LineLimit(cfg, r))).currentSize > cfg.maxSize
    ensures ReadStep(cfg, r, s).request.status == Abort
  {
    hide LineUpTo, LineDone, AddParameters, TakeCookies, NoMultiPart;
    var r' := LineGrows(r, LineUpTo(s, LineLimit(cfg, r)));
    BoundaryStaysEmpty(cfg, r');
    LineDoneShape(cfg, r');
  }

  lemma AtHeading(cfg: Config, m: Message, k: nat, r: Request, left: string)
    requires WellFormed(m) && k < Count(m) && At(cfg, m, k, r, left)
    ensures Heading(r) && NoLineEnd(r.lineBuffer)
  {
    hide IsWord, IsField, ContainsText, Text;
    var hs := Keys(m.headers);
    assert forall h :: h in hs[..if k == 0 then 0 else k - 1] ==> h in hs;
    TextHasNoLineEnd(m, k);
    assert forall c :: c in r.lineBuffer ==> c in Text(m, k);
  }

  /** The rest of the line that is being read. */
  function Tail(m: Message, k: nat, r: Request): string
    requires k < Count(m) && r.lineBuffer <= Text(m, k)
  {
    (Text(m, k) + CRLF)[|r.lineBuffer|..]
  }

  lemma TailShape(m: Message, k: nat, r: Request)
    requires WellFormed(m) && k < Count(m) && r.lineBuffer <= Text(m, k)
    ensures var tail := Tail(m, k, r);
      && |tail| >= 2 && tail[|tail| - 1] == '\n' && tail[|tail| - 2] == '\r'
      && NoLineEnd(tail[..|tail| - 2]) && '\n' !in tail[..|tail| - 1]
      && r.lineBuffer + tail == Text(m, k) + CRLF
  {
    var text, tail := Text(m, k), Tail(m, k, r);
    TextHasNoLineEnd(m, k);
    assert tail[..|tail| - 2] == text[|r.lineBuffer|..];
    assert tail[..|tail| - 1] == text[|r.lineBuffer|..] + "\r";
    assert r.lineBuffer == (text + CRLF)[..|r.lineBuffer|];
  }

  lemma LeftIsTail(cfg: Config, m: Message, k: nat, r: Request, left: string)
    requires WellFormed(m) && k < Count(m) && At(cfg, m, k, r, left)
    ensures left == Tail(m, k, r) + (LinesFrom(m, k + 1) + m.body)
  {
    hide WellFormed, Text, CRLF, StateAt;
    var line := Text(m, k) + CRLF;
    var all := line + LinesFrom(m, k + 1) + m.body;
    assert r.lineBuffer + left == all;
    assert left == all[|r.lineBuffer|..];
    assert all == line + (LinesFrom(m, k + 1) + m.body);
  }

  /** The three outcomes of reading within the head. */
  lemma HeadRead(cfg: Config, m: Message, k: nat, r: Request, left: string, s: string, rest: string, later: string)
    requires WellFormed(m) && ReadsInts(cfg.lib.toInt) && k < Count(m) && At(cfg, m, k, r, left)
    requires s != "" && s + later == left + rest && NoSplit(s, later)
    ensures var tail, step := Tail(m, k, r), ReadStep(cfg, r, s);
      var full := |tail| <= |s|;
      var size := r.currentSize + |r.lineBuffer| + (if full then |tail| else |s|);
      if size > cfg.maxSize then step.request.status == Abort
      else if full then step == Step(Checked(cfg, NextState(cfg, m, k, size)), s[|tail|..])
      else step == Step(r.(lineBuffer := r.lineBuffer + s, currentSize := size), "") && r.lineBuffer + s <= Text(m, k)
  {
    hide WellFormed, ReadsInts, LineUpTo, LineDone, StateAt, LinesFrom, NextState, Checked, Text, Keys, HasLineEnd;
    var tail := Tail(m, k, r);
    TailShape(m, k, r);
    LeftIsTail(cfg, m, k, r, left);
    AtHeading(cfg, m, k, r, left);
    var after := LinesFrom(m, k + 1) + m.body + rest;
    assert s + later == tail + after;
    var limit := LineLimit(cfg, r);
    ReadPart(s, later, tail, after, limit);
    var full := |tail| <= |s|;
    var n := if full then |tail| else |s|;
    var size := r.currentSize + |r.lineBuffer| + n;
    if size > cfg.maxSize {
      OverSize(cfg, r, s);
    } else if full {
      assert r.lineBuffer + s[..n] == Text(m, k) + CRLF;
      LineRead(cfg, m, k, r, s, size);
    } else {
      assert s[..n] == s && s[n..] == "";
      PartialLine(m, k, r, s, later, after);
      PartRead(cfg, m, k, r, s);
    }
  }

  lemma LineRead(cfg: Config, m: Message, k: nat, r: Request, s: string, size: int)
    requires WellFormed(m) && ReadsInts(cfg.lib.toInt) && k < Count(m)
    requires r == StateAt(m, k).(lineBuffer := r.lineBuffer, currentSize := r.currentSize)
    requires var line := LineUpTo(s, LineLimit(cfg, r));
      r.lineBuffer + line == Text(m, k) + CRLF && size == r.currentSize + |r.lineBuffer| + |line|
    ensures ReadStep(cfg, r, s) == Step(Checked(cfg, NextState(cfg, m, k, size)), s[|LineUpTo(s, LineLimit(cfg, r))|..])
  {
    hide WellFormed, ReadsInts, LineUpTo, LineDone, NextState, Checked, Text, LineLimit;
    LineParsed(cfg, m, k, size);
    assert (Text(m, k) + CRLF)[|Text(m, k)|] == '\r';
  }

  /** A part of a line holds no line break, because no piece splits one. */
  lemma PartialLine(m: Message, k: nat, r: Request, s: string, later: string, after: string)
    requires WellFormed(m) && k < Count(m) && r.lineBuffer <= Text(m, k)
    requires var tail := Tail(m, k, r); s + later == tail + after && |s| < |tail|
    requires s != "" && NoSplit(s, later)
    ensures r.lineBuffer + s <= Text(m, k) && NoLineEnd(r.lineBuffer + s)
  {
    var text, tail := Text(m, k), Tail(m, k, r);
    TailShape(m, k, r);
    assert s == (s + later)[..|s|] == tail[..|s|];
    assert later[0] == (s + later)[|s|] == tail[|s|];
    assert s[|s| - 1] == tail[|s| - 1];
    var whole := r.lineBuffer + s;
    assert whole == (text + CRLF)[..|whole|] == text[..|whole|];
    TextHasNoLineEnd(m, k);
    assert forall c :: c in whole ==> c in text;
  }

  lemma PartRead(cfg: Config, m: Message, k: nat, r: Request, s: string)
    requires Heading(r) && NoLineEnd(r.lineBuffer + s) && LineUpTo(s, LineLimit(cfg, r)) == s
    requires r.currentSize + |r.lineBuffer| + |s| <= cfg.maxSize
    ensures ReadStep(cfg, r, s)
         == Step(r.(lineBuffer := r.lineBuffer + s, currentSize := r.currentSize + |r.lineBuffer| + |s|), "")
  {
    hide LineUpTo, LineDone, AddParameters, TakeCookies, NoMultiPart;
    assert s[|s|..] == "";
  }

  /** A message that fits is complete, or its body follows. */
  lemma HeadDone(cfg: Config, m: Message, k: nat, size: int)
    requires WellFormed(m) && k < Count(m) && size <= cfg.maxSize
    ensures var r := Checked(cfg, NextState(cfg, m, k, size));
      if k + 1 < Count(m) then At(cfg, m, k + 1, r, LinesFrom(m, k + 1) + m.body) && r.lineBuffer == ""
      else if m.body == "" then r == RequestOf(cfg, m, size)
      else if |m.body| + size > cfg.maxSize then r.status == Abort
      else At(cfg, m, k + 1, r, m.body) && r.body == "" && r.lineBuffer == ""
    ensures k + 1 < Count(m) ==> NextState(cfg, m, k, size).status != Abort
  {
    hide WellFormed, Text, LinesFrom, AddParameters, TakeCookies, Keys;
    var s := LinesFrom(m, k + 1) + m.body;
    assert "" + s == s && "" + m.body == m.body;
  }

  lemma BodyRead(cfg: Config, m: Message, r: Request, left: string, s: string, rest: string, later: string)
    requires At(cfg, m, Count(m), r, left) && s != "" && s + later == left + rest
    ensures var step := ReadStep(cfg, r, s);
      if |left| <= |s| then step == Step(RequestOf(cfg, m, r.currentSize + |left|), s[|left|..])
      else step.rest == "" && s == left[..|s|]
           && step.request == r.(body := r.body + s, currentSize := r.currentSize + |s|)
           && At(cfg, m, Count(m), step.request, left[|s|..])
  {
    hide Text, LinesFrom, AddParameters, TakeCookies, Keys, Lower;
    var n := if |left| <= |s| then |left| else |s|;
    assert s[..n] == (s + later)[..n] == (left + rest)[..n] == left[..n];
    assert |r.body| + |left| == |m.body|;
    if |left| <= |s| {
      assert left[..n] == left;
    } else {
      assert s[..n] == s && s[n..] == "";
      assert r.body + s + left[|s|..] == r.body + left;
    }
  }

  // ---------- A folded header in the stream ----------

  /** A line that is there as a whole is taken as it is. */
  lemma WholeLineRead(cfg: Config, r: Request, text: string, rest: string)
    requires r.status == WaitForHeader && r.lineBuffer == "" && NoLineEnd(text)
    requires r.currentSize + |text| + 2 <= cfg.maxSize
    ensures var size := r.currentSize + |text| + 2;
      ReadStep(cfg, r, text + CRLF + rest)
        == Step(Checked(cfg, HeaderLine(cfg, r.(currentSize := size), Trim(text + CRLF))), rest)
  {
    hide LineUpTo, HeaderLine, Trim, Checked;
    var line := text + CRLF;
    var s := line + rest;
    assert line[..|line| - 1] == text + "\r" && line[|line| - 1] == '\n';
    ReadPart(s, "", line, rest, LineLimit(cfg, r));
    assert s[..|line|] == line && s[|line|..] == rest && "" + line == line;
    assert line[|text|] == '\r';
  }

  /** The two lines of a folded header, as the parser reads them from the stream. */
  lemma FoldedHeaderIsRead(cfg: Config, r: Request, h: Header, indent: string, more: string, rest: string, name: string)
    requires r.status == WaitForHeader && r.lineBuffer == "" && r.boundary == ""
    requires IsField(h) && IsContinuation(indent, more)
    requires r.currentSize + |FieldText(h)| + |indent| + |more| + 4 <= cfg.maxSize
    ensures var first := ReadStep(cfg, r, FieldText(h) + CRLF + (indent + more + CRLF + rest));
      var second := ReadStep(cfg, first.request, first.rest);
      && first.rest == indent + more + CRLF + rest && second.rest == rest
      && second.request.status == WaitForHeader && second.request.lineBuffer == ""
      && LastValue(second.request.headers, name)
           == if name == Lower(h.name) then h.value + " " + more else LastValue(r.headers, name)
  {
    hide ReadStep, HeaderLine, Trim, LastValue, Lower, IndexOf;
    var r0 := r.(currentSize := r.currentSize + |FieldText(h)| + 2);
    FieldTextIsLine(h);
    WholeLineRead(cfg, r, FieldText(h), indent + more + CRLF + rest);
    FieldParsed(cfg, h, r0);
    var r1 := HeaderLine(cfg, r0, Trim(FieldText(h) + CRLF));
    WholeLineRead(cfg, r1, indent + more, rest);
    var r1' := r1.(currentSize := r1.currentSize + |indent + more| + 2);
    FoldedHeader(cfg, r0.(currentSize := r1'.currentSize), h, indent, more, name);
    FieldParsed(cfg, h, r0.(currentSize := r1'.currentSize));
  }

  lemma FieldTextIsLine(h: Header)
    requires IsField(h)
    ensures NoLineEnd(FieldText(h))
  {
  }
}
