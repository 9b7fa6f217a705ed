/** Head lines of a multipart body that do not fit into one read: exactly which form fields come back. */
module HttpLongLines {
  import opened Strings
  import opened HttpText
  import opened HttpMultiPart

  /** A form field without a further header line; its head line may have any length. */
  predicate FormField(boundary: string, field: Item) {
    && field.name != "" && IsQuotable(field.name) && field.fileName == "" && field.header == ""
    && !ContainsText(field.value, "--" + boundary)
  }

  predicate FormFields(boundary: string, fields: seq<Item>) {
    forall i :: 0 <= i < |fields| ==> FormField(boundary, fields[i])
  }

  /** The head line and its line break fit into one read. */
  predicate FitsLine(field: Item) {
    |ItemLine(field)| + 2 <= MAX_LINE
  }

  lemma FittingFieldIsGood(boundary: string, field: Item)
    requires FormField(boundary, field) && FitsLine(field)
    ensures GoodField(boundary, field)
  {
    assert !(DISPOSITION <= "");
  }

  // ---------- Texts that name no field ----------

  /** At most one quote. */
  predicate OneQuote(s: string) {
    forall i, j :: 0 <= i < j < |s| ==> s[i] != '"' || s[j] != '"'
  }

  lemma QuotesOfSlice(s: string, i: nat, j: nat)
    requires OneQuote(s) && i <= j <= |s|
    ensures OneQuote(s[i..j]) && OneQuote(s[i..]) && OneQuote(s[..j])
  {
  }

  lemma {:induction false} TrimIsSlice(s: string)
    ensures exists i, j :: 0 <= i <= j <= |s| && Trim(s) == s[i..j]
  {
    var i := LeftIsSlice(s);
    var t := TrimLeft(s);
    var j := RightIsSlice(t);
    assert s[i..][..j] == s[i..i + j];
  }

  lemma {:induction false} LeftIsSlice(s: string) returns (i: nat)
    ensures i <= |s| && TrimLeft(s) == s[i..]
  {
    if s != "" && IsSpace(s[0]) {
      var k := LeftIsSlice(s[1..]);
      i := k + 1;
    } else {
      i := 0;
    }
  }

  lemma {:induction false} RightIsSlice(s: string) returns (j: nat)
    ensures j <= |s| && TrimRight(s) == s[..j]
  {
    if s != "" && IsSpace(s[|s| - 1]) {
      j := RightIsSlice(s[..|s| - 1]);
    } else {
      j := |s|;
    }
  }

  /** A key that ends with a quote needs another quote behind it. */
  lemma NothingQuoted(line: string, key: string, before: string)
    requires OneQuote(line) && key != "" && key[|key| - 1] == '"'
    ensures Quoted(line, key, before) == before
  {
    var start := IndexOf(line, key, 0);
    if start >= 0 {
      assert line[start + |key| - 1] == line[start..start + |key|][|key| - 1];
      CharSearch(line, '"', start + |key|);
    }
  }

  lemma NamesNothing(raw: string, head: PartHead)
    requires OneQuote(raw)
    ensures Disposition(Trim(raw), head) == head
  {
    TrimIsSlice(raw);
    var i, j :| 0 <= i <= j <= |raw| && Trim(raw) == raw[i..j];
    QuotesOfSlice(raw, i, j);
    NothingQuoted(Trim(raw), NAME, head.fieldName);
    NothingQuoted(Trim(raw), FILE_NAME, head.fileName);
  }

  /** The end of a head: a line break alone, at the end of another line. */
  predicate EndsHead(x: string) {
    x == "\n" || x == CRLF || (|x| >= 3 && x[|x| - 3..] == "\n" + CRLF)
  }

  /** The first read of such a text is the line break alone, or leaves such a text. */
  lemma FirstOfHead(x: string, v: string)
    requires EndsHead(x)
    ensures var c := ReadLine(x + v, MAX_LINE);
      && 0 < |c| <= |x| && c == x[..|c|] && (x + v)[|c|..] == x[|c|..] + v
      && (if |c| == |x| then x == "\n" || x == CRLF else EndsHead(x[|c|..]))
  {
    hide ReadLine;
    LineFeedAtEnd(x);
    ReadLineWithin(x, v, MAX_LINE);
    var c := ReadLine(x + v, MAX_LINE);
    if x != "\n" && x != CRLF {
      var y := x[..|x| - 2];
      LastOfHead(x, y);
      assert x + v == y + (CRLF + v);
      ReadLineWithin(y, CRLF + v, MAX_LINE);
      RestOfHead(x, |c|);
    } else if x == CRLF {
      assert x + v == "\r" + "\n" + v;
      ReadWholeLine("\r", v, MAX_LINE);
    }
  }

  lemma LineFeedAtEnd(x: string)
    requires EndsHead(x)
    ensures x != "" && x[|x| - 1] == '\n'
  {
    assert |x| >= 3 ==> x[|x| - 3..][2] == x[|x| - 1];
  }

  lemma LastOfHead(x: string, y: string)
    requires EndsHead(x) && x != "\n" && x != CRLF && y == x[..|x| - 2]
    ensures x == y + CRLF && y != "" && y[|y| - 1] == '\n'
  {
    var e := x[|x| - 3..];
    assert e == "\n" + CRLF && y[|y| - 1] == e[0];
    assert x[|x| - 2..] == e[1..] == CRLF;
  }

  lemma RestOfHead(x: string, n: nat)
    requires EndsHead(x) && x != "\n" && x != CRLF && n <= |x| - 2
    ensures EndsHead(x[n..])
  {
    var r, e := x[n..], x[|x| - 3..];
    if n < |x| - 2 {
      assert r[|r| - 3..] == e;
    } else {
      assert r == e[1..] == CRLF;
    }
  }

  lemma BlankLines()
    ensures Trim("\n") == "" && Trim(CRLF) == "" && !StartsWith("", DISPOSITION)
  {
    assert "\n"[1..] == "" && CRLF[1..] == "\n";
  }

  lemma {:induction false} NamelessHead(x: string, v: string) returns (x': string)
    requires OneQuote(x) && EndsHead(x)
    ensures ReadHead(PartHead("", "", x + v)) == PartHead("", "", x' + v)
    ensures |x'| < |x| && (x' == "" || EndsHead(x')) && OneQuote(x')
    decreases |x|
  {
    hide Trim, Disposition, IndexOf;
    FirstOfHead(x, v);
    BlankLines();
    var c := ReadLine(x + v, MAX_LINE);
    var next := PartHead("", "", x[|c|..] + v);
    QuotesOfSlice(x, |c|, |x|);
    NamesNothing(c, next);
    if Trim(c) == "" {
      x' := x[|c|..];
    } else {
      x' := NamelessHead(x[|c|..], v);
    }
  }

  /** Nameless data ends at the delimiter behind the value, or at an earlier line that looks like one. */
  lemma {:induction false} NamelessData(boundary: string, value: string, x: string, u: string, line: string,
                                        rest: string) returns (x': string)
    requires LineBoundary(boundary) && IsDelimiterLine(line, boundary)
    requires u != "" && u[|u| - 1] == '\n' && forall i :: !MatchesAt(u, "--" + boundary, i)
    requires OneQuote(x) && (x == "" || EndsHead(x))
    ensures var d, v := ReadData(boundary, value, x + (u + line + rest)), u + line + rest;
      && d.closed
      && (if x' == "" then d.rest == rest && d.finished == ContainsText(line, boundary + "--")
          else d.rest == x' + v && |x'| < |x| && EndsHead(x') && OneQuote(x'))
    decreases |x|
  {
    hide LineBoundary, IsDelimiterLine, MatchesAt, IndexOf;
    var v := u + line + rest;
    x' := "";
    if x == "" {
      assert "" + v == v;
      ReadValue(boundary, value, u, line, rest);
    } else {
      FirstOfHead(x, v);
      var c := ReadLine(x + v, MAX_LINE);
      QuotesOfSlice(x, |c|, |x|);
      if StartsWith(c, "--" + boundary) {
        x' := x[|c|..];
        assert "\n"[0] != '-' && CRLF[0] != '-';
        assert c[0] == ("--" + boundary)[0];
      } else {
        x' := NamelessData(boundary, value + c, x[|c|..], u, line, rest);
      }
    }
  }

  /** A part whose head names no field is dropped, and nothing behind it is read in another way. */
  lemma {:induction false} NamelessPart(boundary: string, p: Parsed, x: string, u: string, line: string, rest: string)
    requires LineBoundary(boundary) && IsDelimiterLine(line, boundary)
    requires u != "" && u[|u| - 1] == '\n' && forall i :: !MatchesAt(u, "--" + boundary, i)
    requires OneQuote(x) && EndsHead(x)
    ensures var r := ParseParts(boundary, p, x + (u + line + rest));
      r == p || (!ContainsText(line, boundary + "--") && r == ParseParts(boundary, p, rest))
    decreases |x|
  {
    hide LineBoundary, IsDelimiterLine, MatchesAt, IndexOf, ReadHead, ReadData, EndsHead, OneQuote, ContainsText;
    var v := u + line + rest;
    assert x != "" by { HeadEndIsNotEmpty(x); }
    var x1 := NamelessHead(x, v);
    var x2 := NamelessData(boundary, "", x1, u, line, rest);
    if x2 != "" {
      NamelessPart(boundary, p, x2, u, line, rest);
    }
  }

  lemma HeadEndIsNotEmpty(x: string)
    requires EndsHead(x)
    ensures x != ""
  {
  }

  // ---------- Head lines of each length ----------

  lemma HeadLineQuotes(field: Item)
    requires IsQuotable(field.name) && field.fileName == ""
    ensures var l := ItemLine(field);
      && |l| >= 39 && l[|l| - 1] == '"' && '\n' !in l
      && (forall i :: 0 <= i < |l| ==> (l[i] == '"' <==> i == 37 || i == |l| - 1))
  {
    ItemLineShape(field);
    HeadLineParts(field.name, "");
    QuotesOfKeys();
    EndingLength("");
    hide HeadLine, BEFORE_NAME, NAME, Ending;
    forall i | 0 <= i < |ItemLine(field)|
      ensures ItemLine(field)[i] == '"' <==> i == 37 || i == |ItemLine(field)| - 1
    {
      QuotesOfHeadLine(field.name, "", i);
    }
  }

  /** The closing quote lies in another read: the name is not found, and what is left names nothing. */
  lemma LongHeadLine(field: Item, v: string) returns (x: string)
    requires IsQuotable(field.name) && field.fileName == "" && |ItemLine(field)| > MAX_LINE
    ensures ReadHead(PartHead("", "", ItemLine(field) + CRLF + (CRLF + v))) == ReadHead(PartHead("", "", x + v))
    ensures OneQuote(x) && EndsHead(x)
  {
    hide Trim, Disposition, IndexOf, HeadLine;
    var l := ItemLine(field);
    var s := l + CRLF + (CRLF + v);
    HeadLineQuotes(field);
    FirstRead(l, CRLF + (CRLF + v));
    var c := l[..MAX_LINE];
    assert s == l + (CRLF + (CRLF + v));
    NamesNothing(c, PartHead("", "", s[MAX_LINE..]));
    HeadStartsRight(field, c);
    x := l[MAX_LINE..] + CRLF + CRLF;
    assert s[MAX_LINE..] == x + v;
    assert x[|x| - 3..] == "\n" + CRLF;
    OneQuoteLeft(l, x);
  }

  lemma OneQuoteLeft(l: string, x: string)
    requires |l| > MAX_LINE && forall i :: 0 <= i < |l| ==> (l[i] == '"' <==> i == 37 || i == |l| - 1)
    requires x == l[MAX_LINE..] + CRLF + CRLF
    ensures OneQuote(x)
  {
    var n := |l| - MAX_LINE;
    assert '"' !in CRLF + CRLF;
    forall i | 0 <= i < |x|
      ensures x[i] == '"' ==> i == n - 1
    {
      assert if i < n then x[i] == l[MAX_LINE + i] else x[i] == (CRLF + CRLF)[i - n];
    }
  }

  lemma FirstRead(l: string, rest: string)
    requires '\n' !in l && |l| >= MAX_LINE
    ensures ReadLine(l + rest, MAX_LINE) == l[..MAX_LINE]
  {
    var t := l + rest;
    CharSearch(t, '\n', 0);
    assert t[..MAX_LINE] == l[..MAX_LINE];
    assert forall i :: 0 <= i < |l| ==> t[i] == l[i];
    assert t[0..] == t;
  }

  /** The first read still begins like a head line. */
  lemma HeadStartsRight(field: Item, c: string)
    requires c <= ItemLine(field) && |c| == MAX_LINE
    ensures StartsWith(Trim(c), DISPOSITION)
  {
    hide HeadLine;
    HeadLineParts(field.name, field.fileName);
    PrefixOf(DISPOSITION, c, ItemLine(field));
    TrimKeepsStart(DISPOSITION, c);
  }

  lemma PrefixOf(a: string, c: string, l: string)
    requires a <= l && c <= l && |a| <= |c|
    ensures a <= c
  {
    assert a == l[..|a|] == c[..|a|];
  }

  lemma TrimKeepsStart(a: string, c: string)
    requires Trimmed(a) && a != "" && a <= c
    ensures a <= Trim(c)
  {
    assert c[0] == a[0];
    TrimRightKeepsStart(a, c);
  }

  lemma {:induction false} TrimRightKeepsStart(a: string, c: string)
    requires a != "" && !IsSpace(a[|a| - 1]) && a <= c
    ensures a <= TrimRight(c)
    decreases |c|
  {
    if IsSpace(c[|c| - 1]) {
      assert |a| < |c| by { assert a[|a| - 1] == c[|a| - 1]; }
      TrimRightKeepsStart(a, c[..|c| - 1]);
    }
  }

  /** The name fits, its line break does not: the rest of the line break is taken for the end of the head. */
  lemma CutLineBreak(field: Item, v: string)
    requires field.name != "" && IsQuotable(field.name) && field.fileName == ""
    requires MAX_LINE - 1 <= |ItemLine(field)| <= MAX_LINE
    ensures ReadHead(PartHead("", "", ItemLine(field) + CRLF + (CRLF + v))) == PartHead(field.name, "", CRLF + v)
  {
    hide Trim, IndexOf, HeadLine, Quoted;
    var l := ItemLine(field);
    var s := l + CRLF + (CRLF + v);
    ItemLineShape(field);
    HeadLineParts(field.name, "");
    NameIsFound(field.name, "", "");
    FileNameIsFound(field.name, "");
    BlankLines();
    if |l| == MAX_LINE {
      FirstRead(l, CRLF + (CRLF + v));
      assert s == l + (CRLF + (CRLF + v)) && l[..MAX_LINE] == l;
      TrimTrimmed(l);
      EmptyLine(CRLF + v);
      EndOfHead(field, s, l, CRLF + (CRLF + v), CRLF, CRLF + v);
    } else {
      FirstRead(l + "\r", "\n" + (CRLF + v));
      assert s == (l + "\r") + ("\n" + (CRLF + v)) && (l + "\r")[..MAX_LINE] == l + "\r";
      TrimReturn(l);
      ReadWholeLine("", CRLF + v, MAX_LINE);
      assert "" + "\n" == "\n";
      EndOfHead(field, s, l + "\r", "\n" + (CRLF + v), "\n", CRLF + v);
    }
  }

  lemma TrimReturn(l: string)
    requires Trimmed(l) && l != ""
    ensures Trim(l + "\r") == l
  {
    TrimSpaceBehind(l, '\r');
    TrimTrimmed(l);
  }

  /** Two reads: the head line, and one that looks empty. */
  lemma EndOfHead(field: Item, s: string, first: string, s1: string, second: string, s2: string)
    requires s != "" && first != "" && second != ""
    requires ReadLine(s, MAX_LINE) == first && s[|first|..] == s1 && Trim(first) == ItemLine(field)
    requires ReadLine(s1, MAX_LINE) == second && s1[|second|..] == s2 && Trim(second) == ""
    requires StartsWith(ItemLine(field), DISPOSITION) && ContainsText(ItemLine(field), "form-data")
    requires Quoted(ItemLine(field), NAME, "") == field.name && Quoted(ItemLine(field), FILE_NAME, "") == ""
    ensures ReadHead(PartHead("", "", s)) == PartHead(field.name, "", s2)
  {
    hide Trim, IndexOf, HeadLine, Quoted, ItemLine;
    var named := Disposition(ItemLine(field), PartHead("", "", s1));
    assert named == PartHead(field.name, "", s1);
    assert ReadHead(PartHead("", "", s)) == ReadHead(named);
    assert !StartsWith("", DISPOSITION);
  }

  // ---------- Whole parts ----------

  lemma PartOfFormField(field: Item, line: string, rest: string)
    requires field.header == ""
    ensures Part(field) + line + rest == ItemLine(field) + CRLF + (CRLF + (field.value + CRLF + line + rest))
  {
    PartPieces(ItemLine(field), CRLF, field.value, line, rest);
  }

  lemma NoBoundaryInFront(u: string, boundary: string)
    requires forall i :: !MatchesAt(u, "--" + boundary, i)
    ensures forall i :: !MatchesAt(CRLF + u, "--" + boundary, i)
  {
    forall i: nat
      ensures !MatchesAt(CRLF + u, "--" + boundary, i)
    {
      if i < 2 {
        if i + |boundary| + 2 <= |CRLF + u| {
          assert (CRLF + u)[i..i + |boundary| + 2][0] == CRLF[i] && ("--" + boundary)[0] == '-';
        }
      } else {
        MatchInSuffix(CRLF, u, "--" + boundary, i - 2);
      }
    }
  }

  /** What a field adds whose line break was cut. */
  function Shifted(p: Parsed, field: Item): Parsed {
    p.(parameters := p.parameters + [Parameter(field.name, CRLF + field.value)],
       fieldBytes := p.fieldBytes + |field.value| + 4)
  }

  lemma DelimiterInFront(boundary: string, p: Parsed, prefix: string, s: string)
    requires LineBoundary(boundary) && s != "" && (prefix == "" || prefix == Delimiter(boundary))
    ensures ParseParts(boundary, p, prefix + s) == ParseParts(boundary, p, s)
  {
    hide LineBoundary, Delimiter, ReadHead, ReadData, AddPart;
    if prefix == "" {
      assert prefix + s == s;
    } else {
      SkipFirstDelimiter(boundary, s);
    }
  }

  /** A line break that was cut becomes a part of the value. */
  lemma CutPart(boundary: string, p: Parsed, field: Item, line: string, rest: string)
    requires LineBoundary(boundary) && FormField(boundary, field) && IsDelimiterLine(line, boundary)
    requires MAX_LINE - 1 <= |ItemLine(field)| <= MAX_LINE
    ensures ParseParts(boundary, p, Part(field) + line + rest)
         == if ContainsText(line, boundary + "--") then Shifted(p, field)
            else ParseParts(boundary, Shifted(p, field), rest)
  {
    hide LineBoundary, IsDelimiterLine, MatchesAt, IndexOf, ReadHead, ReadData, ItemLine, ContainsText, IsQuotable;
    var u := field.value + CRLF;
    var v := u + line + rest;
    PartOfFormField(field, line, rest);
    CutLineBreak(field, v);
    assert '\r' !in boundary && '\n' !in boundary by { LineBoundaryHasNoBreak(boundary); }
    NoBoundaryBehind(field.value, boundary);
    NoBoundaryInFront(u, boundary);
    ReadValue(boundary, "", CRLF + u, line, rest);
    assert CRLF + v == (CRLF + u) + line + rest && "" + (CRLF + u) == CRLF + u;
    assert Part(field) + line + rest != "" by { PartNotEmpty(field); }
    DropCut(field.value);
  }

  lemma DropCut(value: string)
    ensures DropTwo(CRLF + (value + CRLF)) == CRLF + value
  {
  }

  lemma LineBoundaryHasNoBreak(boundary: string)
    requires LineBoundary(boundary)
    ensures '\r' !in boundary && '\n' !in boundary
  {
  }

  /** A part whose name does not fit into the first read is lost. */
  lemma LongPart(boundary: string, p: Parsed, field: Item, line: string, rest: string)
    requires LineBoundary(boundary) && FormField(boundary, field) && IsDelimiterLine(line, boundary)
    requires |ItemLine(field)| > MAX_LINE
    ensures var r := ParseParts(boundary, p, Part(field) + line + rest);
      r == p || (!ContainsText(line, boundary + "--") && r == ParseParts(boundary, p, rest))
  {
    hide LineBoundary, IsDelimiterLine, MatchesAt, IndexOf, ReadHead, ReadData, ItemLine, ContainsText, IsQuotable,
         OneQuote, EndsHead, AddPart;
    var u := field.value + CRLF;
    var v := u + line + rest;
    PartOfFormField(field, line, rest);
    var x := LongHeadLine(field, v);
    assert Part(field) + line + rest != "" by { PartNotEmpty(field); }
    assert x + v != "";
    LineBoundaryHasNoBreak(boundary);
    NoBoundaryBehind(field.value, boundary);
    NamelessPart(boundary, p, x, u, line, rest);
  }

  // ---------- Whole bodies ----------

  /** What has been read stays. */
  lemma {:induction false} ParsedGrows(boundary: string, p: Parsed, s: string)
    ensures p.parameters <= ParseParts(boundary, p, s).parameters
    decreases |s|
  {
    hide ReadHead, ReadData;
    if s != "" {
      var head := ReadHead(PartHead("", "", s));
      var data := ReadData(boundary, "", head.rest);
      if !data.finished {
        ParsedGrows(boundary, AddPart(p, head, data), data.rest);
      }
    }
  }

  /** The delimiter behind the first of these parts. */
  function LineBehind(boundary: string, fields: seq<Item>): string {
    if |fields| == 1 then CloseDelimiter(boundary) else Delimiter(boundary)
  }

  lemma FirstPart(boundary: string, fields: seq<Item>, prefix: string, epilogue: string)
    requires fields != []
    ensures prefix + Parts(boundary, fields) + epilogue
         == prefix + (Part(fields[0]) + LineBehind(boundary, fields) + ("" + Parts(boundary, fields[1..]) + epilogue))
  {
    hide Part, CloseDelimiter, Delimiter;
    var a, b, c := Part(fields[0]), LineBehind(boundary, fields), Parts(boundary, fields[1..]);
    assert Parts(boundary, fields) == a + b + c;
    assert prefix + (a + b + c) + epilogue == prefix + (a + b + ("" + c + epilogue));
  }

  lemma Finishes(boundary: string, fields: seq<Item>)
    requires LineBoundary(boundary)
    ensures ContainsText(LineBehind(boundary, fields), boundary + "--") <==> |fields| == 1 || MadeOfDashes(boundary)
    ensures IsDelimiterLine(LineBehind(boundary, fields), boundary)
  {
    DelimiterIsNotClosing(boundary);
    CloseDelimiterIsClosing(boundary);
  }

  /** One step over the parts, for a first part of any length. */
  lemma AnyFirstPart(boundary: string, p: Parsed, fields: seq<Item>, prefix: string, epilogue: string)
    requires LineBoundary(boundary) && FormFields(boundary, fields) && fields != []
    requires prefix == "" || prefix == Delimiter(boundary)
    ensures var r := ParseParts(boundary, p, prefix + Parts(boundary, fields) + epilogue);
      var last, rest := |fields| == 1 || MadeOfDashes(boundary), "" + Parts(boundary, fields[1..]) + epilogue;
      if FitsLine(fields[0]) then
        r == if last then Added(p, fields[0]) else ParseParts(boundary, Added(p, fields[0]), rest)
      else if |ItemLine(fields[0])| <= MAX_LINE then
        r == if last then Shifted(p, fields[0]) else ParseParts(boundary, Shifted(p, fields[0]), rest)
      else r == p || (!last && r == ParseParts(boundary, p, rest))
  {
    hide Part, CloseDelimiter, Delimiter, LineBoundary, GoodField, ContainsText, ItemLine, Added, Shifted, ParseParts,
         FormField, IsDelimiterLine, Parts, LineBehind;
    var field, line, rest := fields[0], LineBehind(boundary, fields), "" + Parts(boundary, fields[1..]) + epilogue;
    if FitsLine(field) {
      FittingFieldIsGood(boundary, field);
      ParseFirstField(boundary, p, fields, prefix, epilogue);
    } else {
      FirstPart(boundary, fields, prefix, epilogue);
      Finishes(boundary, fields);
      assert Part(field) + line + rest != "" by { PartNotEmpty(field); }
      DelimiterInFront(boundary, p, prefix, Part(field) + line + rest);
      if |ItemLine(field)| <= MAX_LINE {
        CutPart(boundary, p, field, line, rest);
      } else {
        LongPart(boundary, p, field, line, rest);
      }
    }
  }

  /** Each part yields at most one parameter. */
  lemma {:induction false} AtMostOneEach(boundary: string, p: Parsed, fields: seq<Item>, prefix: string,
                                         epilogue: string)
    requires LineBoundary(boundary) && FormFields(boundary, fields) && fields != []
    requires prefix == "" || prefix == Delimiter(boundary)
    ensures |ParseParts(boundary, p, prefix + Parts(boundary, fields) + epilogue).parameters|
         <= |p.parameters| + |fields|
    decreases |fields|
  {
    hide LineBoundary, FormField, Parts, Delimiter, ParseParts, MadeOfDashes, FitsLine, ItemLine;
    AnyFirstPart(boundary, p, fields, prefix, epilogue);
    if |fields| > 1 {
      AtMostOneEach(boundary, p, fields[1..], "", epilogue);
      AtMostOneEach(boundary, Added(p, fields[0]), fields[1..], "", epilogue);
      AtMostOneEach(boundary, Shifted(p, fields[0]), fields[1..], "", epilogue);
    }
  }

  predicate AllFit(fields: seq<Item>) {
    forall i :: 0 <= i < |fields| ==> FitsLine(fields[i])
  }

  lemma AllFitStep(fields: seq<Item>)
    requires fields != []
    ensures AllFit(fields) <==> FitsLine(fields[0]) && AllFit(fields[1..])
    ensures |fields| == 1 ==> AllFit(fields[1..])
  {
    hide FitsLine;
    assert fields == [fields[0]] + fields[1..];
  }

  /** A first field that does not fit spoils the result. */
  lemma UnfitFirst(boundary: string, p: Parsed, fields: seq<Item>, prefix: string, epilogue: string)
    requires LineBoundary(boundary) && FormFields(boundary, fields) && fields != [] && !FitsLine(fields[0])
    requires prefix == "" || prefix == Delimiter(boundary)
    ensures ParseParts(boundary, p, prefix + Parts(boundary, fields) + epilogue).parameters
         != p.parameters + Parameters(fields)
  {
    hide LineBoundary, FormField, Parts, Delimiter, ParseParts, MadeOfDashes, FitsLine, ItemLine, Shifted, Parameters;
    AnyFirstPart(boundary, p, fields, prefix, epilogue);
    FormFieldIsNoFile(boundary, fields[0]);
    ParsedGrows(boundary, Shifted(p, fields[0]), "" + Parts(boundary, fields[1..]) + epilogue);
    ShiftedDiffers(p, fields);
    if |fields| > 1 {
      AtMostOneEach(boundary, p, fields[1..], "", epilogue);
    }
  }

  lemma {:induction false} FieldInFront(p: Parsed, fields: seq<Item>)
    requires fields != [] && fields[0].fileName == ""
    ensures Added(p, fields[0]).parameters + Parameters(fields[1..]) == p.parameters + Parameters(fields)
    ensures |fields| > 1 ==> Added(p, fields[0]).parameters != p.parameters + Parameters(fields)
    ensures |fields| == 1 ==> Added(p, fields[0]).parameters == p.parameters + Parameters(fields)
  {
    var field := fields[0];
    assert p.parameters + [Parameter(field.name, field.value)] + Parameters(fields[1..])
        == p.parameters + Parameters(fields);
    assert |Parameters(fields)| == |fields|;
  }

  lemma {:induction false} PartsExactly(boundary: string, p: Parsed, fields: seq<Item>, prefix: string,
                                        epilogue: string)
    requires LineBoundary(boundary) && FormFields(boundary, fields) && fields != []
    requires prefix == "" || prefix == Delimiter(boundary)
    ensures ParseParts(boundary, p, prefix + Parts(boundary, fields) + epilogue).parameters
         == p.parameters + Parameters(fields)
       <==> AllFit(fields) && (|fields| == 1 || !MadeOfDashes(boundary))
    decreases |fields|
  {
    hide LineBoundary, FormField, Parts, Delimiter, ParseParts, MadeOfDashes, FitsLine, ItemLine, AllFit, Parameters,
         Added;
    AllFitStep(fields);
    if FitsLine(fields[0]) {
      AnyFirstPart(boundary, p, fields, prefix, epilogue);
      FormFieldIsNoFile(boundary, fields[0]);
      FieldInFront(p, fields);
      if |fields| > 1 {
        PartsExactly(boundary, Added(p, fields[0]), fields[1..], "", epilogue);
      }
    } else {
      UnfitFirst(boundary, p, fields, prefix, epilogue);
    }
  }

  lemma FormFieldIsNoFile(boundary: string, field: Item)
    requires FormField(boundary, field)
    ensures field.fileName == ""
  {
  }

  lemma ShiftedDiffers(p: Parsed, fields: seq<Item>)
    requires fields != [] && fields[0].fileName == ""
    ensures !(Shifted(p, fields[0]).parameters <= p.parameters + Parameters(fields))
  {
    var a, b := Shifted(p, fields[0]).parameters, p.parameters + Parameters(fields);
    var n := |p.parameters|;
    assert a[n].value == CRLF + fields[0].value && b[n].value == fields[0].value;
  }

  /**
   Form fields without further header lines come back if and only if each head line and its line break fit into one
   read, and, for two fields or more, the boundary is not made of dashes alone.
   */
  lemma FormFieldsExactly(boundary: string, fields: seq<Item>, epilogue: string)
    requires LineBoundary(boundary) && FormFields(boundary, fields) && (fields != [] || epilogue == "")
    ensures ParseParts(boundary, Parsed([], [], 0), Encode(boundary, fields) + epilogue).parameters
         == Parameters(fields)
       <==> AllFit(fields) && (|fields| <= 1 || !MadeOfDashes(boundary))
  {
    hide LineBoundary, FormField, Parts, ParseParts, MadeOfDashes, FitsLine;
    if fields == [] {
      NoFields(boundary);
      assert Encode(boundary, fields) + epilogue == CloseDelimiter(boundary);
    } else {
      PartsExactly(boundary, Parsed([], [], 0), fields, Delimiter(boundary), epilogue);
      assert [] + Parameters(fields) == Parameters(fields);
    }
  }

  /** One field whose line break is cut comes back with a line break in front of its value. */
  lemma LineBreakInValue(boundary: string, field: Item)
    requires LineBoundary(boundary) && FormField(boundary, field)
    requires MAX_LINE - 1 <= |ItemLine(field)| <= MAX_LINE
    ensures ParseParts(boundary, Parsed([], [], 0), Encode(boundary, [field])).parameters
         == [Parameter(field.name, CRLF + field.value)]
  {
    hide LineBoundary, FormField, ParseParts, MadeOfDashes, ItemLine;
    AnyFirstPart(boundary, Parsed([], [], 0), [field], Delimiter(boundary), "");
    assert Encode(boundary, [field]) + "" == Encode(boundary, [field]);
  }
}
