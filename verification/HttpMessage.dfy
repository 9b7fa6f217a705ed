/** Well-formed requests as a client prints them, and what the parser makes of each of their lines. */
module HttpMessages {
  import opened Strings
  import opened HttpText
  import opened HttpForm
  import opened HttpSockets
  import opened HttpRequests
  import opened HttpLimits

  datatype Message = Message(verb: string, path: string, version: string, headers: seq<Header>, body: string)

  predicate IsWord(s: string) {
    s != "" && forall c :: c in s ==> !IsSpace(c)
  }

  predicate IsField(h: Header) {
    && h.name != "" && !IsSpace(h.name[0]) && ':' !in h.name && NoLineEnd(h.name)
    && Trimmed(h.value) && NoLineEnd(h.value)
  }

  /** Header names are kept in lower case. */
  function Keys(hs: seq<Header>): (r: seq<Header>)
    ensures |r| == |hs|
  {
    seq(|hs|, i requires 0 <= i < |hs| => Header(Lower(hs[i].name), hs[i].value))
  }

  predicate NoMultiPart(hs: seq<Header>) {
    forall h :: h in hs && h.name == "content-type" ==> !StartsWith(h.value, "multipart/form-data")
  }

  /** Three words and headers; nothing is said of the body. */
  predicate WellFormedHead(m: Message) {
    && IsWord(m.verb) && IsWord(m.path) && IsWord(m.version) && ContainsText(m.version, "HTTP")
    && (forall h :: h in m.headers ==> IsField(h))
  }

  /** A request without a multipart body; the content length, if there is one, is that of the body. */
  predicate WellFormed(m: Message) {
    && WellFormedHead(m)
    && NoMultiPart(Keys(m.headers)) && IsInt(|m.body|)
    && var length := LastValue(Keys(m.headers), "content-length");
       if length == "" then m.body == "" else length == SignedNumber(|m.body|)
  }

  // ---------- Printing ----------

  function Count(m: Message): nat {
    |m.headers| + 2
  }

  function FieldText(h: Header): string {
    h.name + ": " + h.value
  }

  /** The lines of the head: the request line, the headers, and an empty line. */
  function Text(m: Message, k: nat): string
    requires k < Count(m)
  {
    if k == 0 then m.verb + " " + m.path + " " + m.version
    else if k <= |m.headers| then FieldText(m.headers[k - 1])
    else ""
  }

  function LinesFrom(m: Message, k: nat): string
    requires k <= Count(m)
    decreases Count(m) - k
  {
    if k == Count(m) then "" else Text(m, k) + CRLF + LinesFrom(m, k + 1)
  }

  function Head(m: Message): string {
    LinesFrom(m, 0)
  }

  function Encoded(m: Message): string {
    Head(m) + m.body
  }

  lemma TextHasNoLineEnd(m: Message, k: nat)
    requires WellFormedHead(m) && k < Count(m)
    ensures NoLineEnd(Text(m, k))
  {
    if 0 < k <= |m.headers| {
      assert m.headers[k - 1] in m.headers;
    }
  }

  // ---------- The parser between two lines ----------

  /** The request in front of line `k`. */
  function StateAt(m: Message, k: nat): Request
    requires k < Count(m)
  {
    if k == 0 then NEW_REQUEST
    else
      NEW_REQUEST.(status := WaitForHeader, verb := m.verb, path := m.path, version := m.version,
                   headers := Keys(m.headers)[..k - 1],
                   currentHeader := if k == 1 then "" else Lower(m.headers[k - 2].name))
  }

  /** The request behind the head. */
  function InBody(m: Message): Request {
    StateAt(m, Count(m) - 1).(status := WaitForBody, expectedBodySize := |m.body|)
  }

  lemma {:induction false} TrimBehind(s: string, space: string)
    requires s != "" && Trimmed(s) && forall c :: c in space ==> IsSpace(c)
    ensures Trim(s + space) == s
    decreases |space|
  {
    if space == "" {
      assert s + space == s;
      TrimTrimmed(s);
    } else {
      var before, c := space[..|space| - 1], space[|space| - 1];
      TrimBehind(s, before);
      assert s + space == (s + before) + [c] && c in space;
      TrimSpaceBehind(s + before, c);
    }
  }

  lemma SplitWord(word: string, rest: string)
    requires ' ' !in word
    ensures Split(word + " " + rest, ' ') == [word] + Split(rest, ' ')
  {
    FirstOf(word, ' ', rest);
    var t := word + " " + rest;
    assert t[..|word|] == word && t[|word| + 1..] == rest;
  }

  lemma WordIsTrimmed(s: string)
    requires IsWord(s)
    ensures Trimmed(s) && ' ' !in s
  {
    assert s[0] in s && s[|s| - 1] in s;
  }

  lemma FirstLineParsed(m: Message, r: Request)
    requires WellFormedHead(m)
    ensures RequestLine(r, Trim(Text(m, 0) + CRLF))
         == r.(verb := m.verb, path := m.path, version := m.version, status := WaitForHeader)
  {
    hide ContainsText, Trim, IsWord, Split;
    var text := Text(m, 0);
    WordIsTrimmed(m.verb);
    WordIsTrimmed(m.path);
    WordIsTrimmed(m.version);
    WordsAreTrimmed(m.verb, m.path, m.version);
    TrimBehind(text, CRLF);
    assert text == m.verb + " " + (m.path + " " + m.version);
    SplitWord(m.verb, m.path + " " + m.version);
    SplitWord(m.path, m.version);
    OneWord(m.version);
    assert Split(text, ' ') == [m.verb, m.path, m.version];
    TrimTrimmed(m.verb);
  }

  function Spaces(s: string): nat {
    if s == "" then 0 else (if s[0] == ' ' then 1 else 0) + Spaces(s[1..])
  }

  lemma {:induction false} SpacesBehind(a: string, b: string)
    ensures Spaces(a + b) == Spaces(a) + Spaces(b)
    ensures ' ' !in a <==> Spaces(a) == 0
  {
    if a == "" {
      assert a + b == b;
    } else {
      assert (a + b)[1..] == a[1..] + b;
      SpacesBehind(a[1..], b);
      assert a == [a[0]] + a[1..];
    }
  }

  lemma {:induction false} SplitCounts(s: string)
    ensures |Split(s, ' ')| == Spaces(s) + 1
    decreases |s|
  {
    CharSearch(s, ' ', 0);
    var i := IndexOf(s, " ", 0);
    assert s[0..] == s;
    if i < 0 {
      SpacesBehind(s, "");
    } else {
      assert s[0..i] == s[..i];
      assert s == s[..i] + (" " + s[i + 1..]);
      SpacesBehind(s[..i], " " + s[i + 1..]);
      assert (" " + s[i + 1..])[1..] == s[i + 1..];
      SplitCounts(s[i + 1..]);
    }
  }

  /**
   A line other than the empty one is taken for a request line exactly if two spaces cut it into three words, empty ones
   included, and the third contains HTTP; any other line ends the request.
   */
  lemma RequestLineExactly(r: Request, line: string, a: string, b: string, c: string)
    ensures RequestLine(r, "") == r
    ensures line != "" && Spaces(line) != 2 ==> RequestLine(r, line) == r.(status := Abort)
    ensures ' ' !in a && ' ' !in b && ' ' !in c ==>
      RequestLine(r, a + " " + b + " " + c)
        == if exists i: nat :: MatchesAt(c, "HTTP", i) then
             r.(verb := Trim(a), path := b, version := c, status := WaitForHeader)
           else r.(status := Abort)
  {
    hide Trim, Split, MatchesAt;
    SplitCounts(line);
    if ' ' !in a && ' ' !in b && ' ' !in c {
      assert a + " " + b + " " + c == a + " " + (b + " " + c);
      SplitWord(a, b + " " + c);
      SplitWord(b, c);
      OneWord(c);
      assert Split(a + " " + b + " " + c, ' ') == [a, b, c];
    }
  }

  lemma WordsAreTrimmed(a: string, b: string, c: string)
    requires IsWord(a) && IsWord(c)
    ensures Trimmed(a + " " + b + " " + c) && a + " " + b + " " + c != ""
  {
    var t := a + " " + b + " " + c;
    assert t[0] == a[0] && t[|t| - 1] == c[|c| - 1];
    assert a[0] in a && c[|c| - 1] in c;
  }

  lemma OneWord(word: string)
    requires ' ' !in word
    ensures Split(word, ' ') == [word]
  {
    NotFound(word, ' ');
  }

  lemma FieldTrimmed(h: Header) returns (text: string)
    requires IsField(h)
    ensures text == Trim(FieldText(h) + CRLF) && text != ""
    ensures IndexOf(text, ":", 0) == |h.name| && text[..|h.name|] == h.name && Trim(text[|h.name| + 1..]) == h.value
  {
    hide Trim;
    if h.value == "" {
      text := h.name + ":" + "";
      assert FieldText(h) + CRLF == text + (" " + CRLF);
      TrimBehind(text, " " + CRLF);
      FirstOf(h.name, ':', "");
      TrimTrimmed("");
    } else {
      text := h.name + ":" + (" " + h.value);
      assert FieldText(h) == text;
      assert text[|text| - 1] == h.value[|h.value| - 1];
      TrimBehind(text, CRLF);
      FirstOf(h.name, ':', " " + h.value);
      TrimIndented(h.value);
    }
  }

  lemma TrimIndented(s: string)
    requires Trimmed(s)
    ensures Trim(" " + s) == s
  {
    assert (" " + s)[1..] == s;
    TrimTrimmed(s);
  }

  lemma FieldParsed(cfg: Config, h: Header, r: Request)
    requires IsField(h)
    ensures var name := Lower(h.name);
      HeaderLine(cfg, r, Trim(FieldText(h) + CRLF))
        == r.(currentHeader := name, headers := r.headers + [Header(name, h.value)])
  {
    hide Trim, IndexOf, FieldText;
    var text := FieldTrimmed(h);
  }

  // ---------- Folded headers ----------

  lemma {:induction false} LastValueBehind(hs: seq<Header>, h: Header, name: string)
    ensures LastValue(hs + [h], name) == if h.name == name then h.value else LastValue(hs, name)
    ensures HasHeader(hs + [h], h.name)
  {
    assert (hs + [h])[..|hs|] == hs && (hs + [h])[|hs|] == h;
  }

  /**
   A line without a name continues the header in front of it: its value gets a space and the line behind it, every
   other header and all else stays. Without a header in front the line is ignored.
   */
  lemma ContinuationLine(cfg: Config, r: Request, line: string, name: string)
    requires line != "" && IndexOf(line, ":", 0) <= 0
    ensures var r' := HeaderLine(cfg, r, line);
      && r'.(headers := r.headers) == r
      && LastValue(r'.headers, name)
           == if HasHeader(r.headers, r.currentHeader) && name == r.currentHeader then
                LastValue(r.headers, name) + " " + line
              else LastValue(r.headers, name)
  {
    hide IndexOf, HasHeader, LastValue, EndOfHeaders;
    LastValueBehind(r.headers, Header(r.currentHeader, LastValue(r.headers, r.currentHeader) + " " + line), name);
  }

  /** A second line of a header: some white space and a text that names no header. */
  predicate IsContinuation(indent: string, more: string) {
    && (forall c :: c in indent ==> IsSpace(c)) && NoLineEnd(indent)
    && more != "" && Trimmed(more) && NoLineEnd(more) && IndexOf(more, ":", 0) <= 0
  }

  lemma {:induction false} TrimAround(indent: string, s: string, space: string)
    requires s != "" && Trimmed(s)
    requires (forall c :: c in indent ==> IsSpace(c)) && (forall c :: c in space ==> IsSpace(c))
    ensures Trim(indent + s + space) == s
    decreases |indent|
  {
    if indent == "" {
      assert indent + s + space == s + space;
      TrimBehind(s, space);
    } else {
      TrimAround(indent[1..], s, space);
      assert (indent + s + space)[1..] == indent[1..] + s + space;
      assert (indent + s + space)[0] == indent[0] && indent[0] in indent;
    }
  }

  /** A header on two lines has both texts as its value, with one space between them. */
  lemma FoldedHeader(cfg: Config, r: Request, h: Header, indent: string, more: string, name: string)
    requires IsField(h) && IsContinuation(indent, more)
    ensures var r1 := HeaderLine(cfg, r, Trim(FieldText(h) + CRLF));
      var r2 := HeaderLine(cfg, r1, Trim(indent + more + CRLF));
      && r2 == r.(currentHeader := Lower(h.name), headers := r2.headers)
      && LastValue(r2.headers, name)
           == if name == Lower(h.name) then h.value + " " + more else LastValue(r.headers, name)
  {
    hide HeaderLine, Trim, LastValue, Lower, IndexOf;
    FieldParsed(cfg, h, r);
    var r1 := HeaderLine(cfg, r, Trim(FieldText(h) + CRLF));
    TrimAround(indent, more, CRLF);
    LastValueBehind(r.headers, Header(Lower(h.name), h.value), name);
    ContinuationLine(cfg, r1, more, name);
  }

  lemma {:induction false} LastValueIsOne(hs: seq<Header>, name: string)
    ensures LastValue(hs, name) == "" || Header(name, LastValue(hs, name)) in hs
    decreases |hs|
  {
    if hs != [] && hs[|hs| - 1].name != name {
      LastValueIsOne(hs[..|hs| - 1], name);
    }
  }

  lemma NoBoundary(hs: seq<Header>)
    requires NoMultiPart(hs)
    ensures BoundaryOf(LastValue(hs, "content-type"), "") == ""
  {
    hide IndexOf;
    LastValueIsOne(hs, "content-type");
  }

  /** Any line of a message, even one that is cut off, leaves the boundary empty. */
  lemma BoundaryStaysEmpty(cfg: Config, r: Request)
    requires (r.status == WaitForRequest || r.status == WaitForHeader) && r.boundary == "" && NoMultiPart(r.headers)
    ensures LineDone(cfg, r).boundary == ""
  {
    hide Trim, LastValue, HeaderLine, RequestLine, BoundaryOf, NoMultiPart;
    var r' := r.(lineBuffer := "");
    RequestLineKeeps(r', Trim(r.lineBuffer));
    HeaderLineKeeps(cfg, r', Trim(r.lineBuffer));
    NoBoundary(r.headers);
  }

  lemma EndParsed(cfg: Config, m: Message, size: int)
    requires WellFormed(m) && ReadsInts(cfg.lib.toInt)
    ensures var r := StateAt(m, Count(m) - 1).(currentSize := size);
      HeaderLine(cfg, r, Trim("" + CRLF))
        == r.(expectedBodySize := |m.body|,
              status := if m.body == "" then Complete
                        else if |m.body| + size > cfg.maxSize then Abort
                        else WaitForBody)
  {
    hide Trim, LastValue, BoundaryOf, ReadsInts, IndexOf, MatchesAt, NoMultiPart, IsWord, IsField, ContainsText, Keys;
    assert "" + CRLF == CRLF;
    TrimLine("");
    NotFound("", ':');
    var hs := Keys(m.headers);
    assert hs[..|m.headers|] == hs;
    NoBoundary(hs);
    NumberIsRead(cfg, |m.body|);
  }

  lemma NumberIsRead(cfg: Config, n: nat)
    requires ReadsInts(cfg.lib.toInt) && IsInt(n)
    ensures cfg.lib.toInt(SignedNumber(n)) == n
  {
  }

  /** What a whole line in the buffer makes of the request. */
  function NextState(cfg: Config, m: Message, k: nat, size: int): Request
    requires k < Count(m)
  {
    if k + 1 < Count(m) then StateAt(m, k + 1).(currentSize := size)
    else
      InBody(m).(currentSize := size,
                 status := if m.body == "" then Complete
                           else if |m.body| + size > cfg.maxSize then Abort
                           else WaitForBody)
  }

  /** The request line and each header lead to the state in front of the next line. */
  lemma LineParsedInHead(cfg: Config, m: Message, k: nat, size: int)
    requires WellFormedHead(m) && k + 1 < Count(m)
    ensures LineDone(cfg, StateAt(m, k).(lineBuffer := Text(m, k) + CRLF, currentSize := size))
        == StateAt(m, k + 1).(currentSize := size)
  {
    hide Trim, RequestLine, HeaderLine, WellFormedHead, FieldText, Lower;
    var r := StateAt(m, k).(currentSize := size);
    assert r.(lineBuffer := "") == r;
    if k == 0 {
      FirstLineParsed(m, r);
      assert Keys(m.headers)[..0] == [];
    } else {
      FieldIsWellFormed(m, k - 1);
      FieldParsed(cfg, m.headers[k - 1], r);
      var hs := Keys(m.headers);
      assert hs[..k] == hs[..k - 1] + [hs[k - 1]];
    }
  }

  lemma LineParsed(cfg: Config, m: Message, k: nat, size: int)
    requires WellFormed(m) && ReadsInts(cfg.lib.toInt) && k < Count(m)
    ensures LineDone(cfg, StateAt(m, k).(lineBuffer := Text(m, k) + CRLF, currentSize := size))
        == NextState(cfg, m, k, size)
  {
    hide Trim, RequestLine, HeaderLine, WellFormedHead, FieldText, ReadsInts, Lower;
    if k + 1 < Count(m) {
      LineParsedInHead(cfg, m, k, size);
    } else {
      var r := StateAt(m, k).(currentSize := size);
      assert r.(lineBuffer := "") == r;
      EndParsed(cfg, m, size);
    }
  }

  lemma FieldIsWellFormed(m: Message, i: nat)
    requires WellFormedHead(m) && i < |m.headers|
    ensures IsField(m.headers[i])
  {
    assert m.headers[i] in m.headers;
  }
}
