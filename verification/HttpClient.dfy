/** What a client reads of the header block: status line, header lines, empty line (RFC 7230, sections 3 and 3.1.2). */
module HttpClients {
  import opened Strings
  import opened HttpText
  import opened HttpResponses

  datatype Fields = Fields(headers: seq<Header>, body: string) | NoFields

  /** Lines of a name, a colon, a space and a value, up to the first empty line. */
  function ReadFields(s: string): Fields
    decreases |s|
  {
    var eol := IndexOf(s, CRLF, 0);
    if eol == -1 then NoFields
    else if eol == 0 then Fields([], s[2..])
    else
      var line := s[..eol];
      var colon := IndexOf(line, ": ", 0);
      if colon == -1 then NoFields
      else
        var later := ReadFields(s[eol + 2..]);
        if later.NoFields? then NoFields
        else Fields([Header(line[..colon], line[colon + 2..])] + later.headers, later.body)
  }

  datatype Head = Head(statusCode: nat, statusText: string, headers: seq<Header>, body: string) | NoHead

  /** The status line is the version, a decimal code and a text, with a space between them. */
  function ReadHead(s: string): Head {
    var eol := IndexOf(s, CRLF, 0);
    if eol < 9 || s[..9] != "HTTP/1.1 " then NoHead
    else
      var line := s[9..eol];
      var space := IndexOf(line, " ", 0);
      if space <= 0 || !AllDigits(line[..space]) then NoHead
      else
        var fields := ReadFields(s[eol + 2..]);
        if fields.NoFields? then NoHead
        else Head(ParseNat(line[..space]), line[space + 1..], fields.headers, fields.body)
  }

  /** The response to a request with method `verb` at the start of `s`. */
  function ReadResponse(verb: string, s: string): Body {
    match ReadHead(s)
    case NoHead => Malformed
    case Head(status, _, headers, body) => ClientBody(verb, status, headers, body)
  }

  function CookieHeaders(cookies: seq<Header>): seq<Header> {
    if cookies == [] then [] else [Header("Set-Cookie", cookies[0].value)] + CookieHeaders(cookies[1..])
  }

  // ---------- The header block is read back ----------

  lemma LineIsFound(text: string, rest: string)
    requires NoLineEnd(text)
    ensures IndexOf(text + CRLF + rest, CRLF, 0) == |text|
  {
    var s := text + CRLF + rest;
    forall i | 0 <= i < |text|
      ensures !MatchesAt(s, CRLF, i)
    {
      assert s[i] == text[i] && text[i] in text;
      assert i + 2 <= |s| ==> s[i..i + 2][0] == s[i];
    }
    assert s[|text|..|text| + 2] == CRLF;
    IndexOfIs(s, CRLF, 0, |text|);
  }

  lemma NameIsFound(name: string, value: string)
    requires ':' !in name
    ensures IndexOf(name + ": " + value, ": ", 0) == |name|
  {
    var s := name + ": " + value;
    forall i | 0 <= i < |name|
      ensures !MatchesAt(s, ": ", i)
    {
      assert s[i] == name[i] && name[i] in name;
      assert i + 2 <= |s| ==> s[i..i + 2][0] == s[i];
    }
    assert s[|name|..|name| + 2] == ": ";
    IndexOfIs(s, ": ", 0, |name|);
  }

  /** One more header line in front. */
  lemma FieldIsRead(h: Header, rest: string)
    requires NoLineEnd(h.name) && NoLineEnd(h.value) && ':' !in h.name
    ensures ReadFields(h.name + ": " + h.value + CRLF + rest) ==
      var later := ReadFields(rest); if later.NoFields? then NoFields else Fields([h] + later.headers, later.body)
  {
    hide IndexOf;
    var line := h.name + ": " + h.value;
    var s := line + CRLF + rest;
    assert h.name + ": " + h.value + CRLF + rest == s;
    LineIsFound(line, rest);
    NameIsFound(h.name, h.value);
    assert s[..|line|] == line && s[|line| + 2..] == rest;
    assert line[..|h.name|] == h.name && line[|h.name| + 2..] == h.value;
  }

  /** The empty line ends the fields. */
  lemma EmptyLineEnds(body: string)
    ensures ReadFields(CRLF + body) == Fields([], body)
  {
    LineIsFound("", body);
    assert "" + CRLF + body == CRLF + body && (CRLF + body)[2..] == body;
  }

  lemma CookieIsRead(text: string, rest: string)
    requires NoLineEnd(text) && ReadFields(rest).Fields?
    ensures var later := ReadFields(rest);
      ReadFields("Set-Cookie: " + text + CRLF + rest)
        == Fields([Header("Set-Cookie", text)] + later.headers, later.body)
  {
    hide ReadFields;
    assert NoLineEnd("Set-Cookie") && ':' !in "Set-Cookie";
    FieldIsRead(Header("Set-Cookie", text), rest);
    assert "Set-Cookie" + ": " == "Set-Cookie: ";
  }

  lemma {:induction false} CookieLinesAreRead(cookies: seq<Header>, body: string)
    requires forall c :: c in cookies ==> NoLineEnd(c.value)
    ensures ReadFields(CookieLines(cookies) + CRLF + body) == Fields(CookieHeaders(cookies), body)
  {
    hide ReadFields;
    if cookies == [] {
      EmptyLineEnds(body);
      assert "" + CRLF + body == CRLF + body;
    } else {
      assert cookies[0] in cookies;
      CookieLinesAreRead(cookies[1..], body);
      var rest := CookieLines(cookies[1..]) + CRLF + body;
      CookieIsRead(cookies[0].value, rest);
      assert CookieLines(cookies) + CRLF + body == "Set-Cookie: " + cookies[0].value + CRLF + rest;
    }
  }

  /** The names of the headers contain no colon. */
  predicate PlainNames(hs: seq<Header>) {
    forall h :: h in hs ==> ':' !in h.name
  }

  lemma {:induction false} HeaderLinesAreRead(hs: seq<Header>, rest: string)
    requires PlainNames(hs) && forall h :: h in hs ==> NoLineEnd(h.name) && NoLineEnd(h.value)
    ensures ReadFields(HeaderLines(hs) + rest) ==
      var later := ReadFields(rest); if later.NoFields? then NoFields else Fields(hs + later.headers, later.body)
  {
    hide ReadFields;
    if hs == [] {
      assert "" + rest == rest;
      var later := ReadFields(rest);
      assert later.Fields? ==> [] + later.headers == later.headers;
    } else {
      assert hs[0] in hs;
      HeaderLinesAreRead(hs[1..], rest);
      FieldIsRead(hs[0], HeaderLines(hs[1..]) + rest);
      assert HeaderLines(hs) + rest == hs[0].name + ": " + hs[0].value + CRLF + (HeaderLines(hs[1..]) + rest);
      var later := ReadFields(rest);
      assert later.Fields? ==> [hs[0]] + (hs[1..] + later.headers) == hs + later.headers;
    }
  }

  /** The status line, in front of fields that can be read. */
  lemma StatusLineIsRead(code: nat, text: string, rest: string)
    requires NoLineEnd(text) && ReadFields(rest).Fields?
    ensures ReadHead("HTTP/1.1 " + Number(code) + " " + text + CRLF + rest)
         == Head(code, text, ReadFields(rest).headers, ReadFields(rest).body)
  {
    hide ReadFields, IndexOf, Number, ParseNat;
    var digits := Number(code);
    var behind := digits + [' '] + text;
    var line := "HTTP/1.1 " + behind;
    NumberRoundTrip(code);
    DigitsAreNoSpace(code);
    LineIsFound(line, rest);
    FirstOf(digits, ' ', text);
    var s := line + CRLF + rest;
    assert "HTTP/1.1 " + digits + " " + text + CRLF + rest == s;
    SlicesOfLine("HTTP/1.1 ", behind, rest);
    assert behind[..|digits|] == digits && behind[|digits| + 1..] == text;
  }

  lemma DigitsAreNoSpace(n: nat)
    ensures NoLineEnd(Number(n)) && ' ' !in Number(n)
  {
    assert forall k :: 0 <= k < |Number(n)| ==> IsDigit(Number(n)[k]);
  }

  lemma SlicesOfLine(start: string, behind: string, rest: string)
    ensures var s, n := start + behind + CRLF + rest, |start + behind|;
      s[..|start|] == start && s[|start|..n] == behind && s[n + 2..] == rest
  {
  }

  /**
   A client that reads a header block gets back the status, the text, every header in order with its value and every
   cookie, and behind them exactly what follows the block.
   */
  lemma HeadComesBack(r: Response, body: string)
    requires OneLineTexts(r) && PlainNames(r.headers)
    ensures ReadHead(HeaderBlock(r) + body)
         == Head(r.statusCode, r.statusText, r.headers + CookieHeaders(r.cookies), body)
  {
    hide ReadFields, ReadHead, HeaderLines, CookieLines, IndexOf, Number;
    var rest := HeaderLines(r.headers) + (CookieLines(r.cookies) + CRLF + body);
    CookieLinesAreRead(r.cookies, body);
    HeaderLinesAreRead(r.headers, CookieLines(r.cookies) + CRLF + body);
    StatusLineIsRead(r.statusCode, r.statusText, rest);
    var line := "HTTP/1.1 " + Number(r.statusCode) + " " + r.statusText;
    assert HeaderBlock(r) + body == line + CRLF + rest;
  }
}
