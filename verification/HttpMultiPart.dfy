/** Multipart form bodies (section 4.1 of RFC 7578, section 5.1.1 of RFC 2046). */
module HttpMultiPart {
  import opened Strings
  import opened HttpText

  const MAX_LINE := 65536
  const DISPOSITION := "Content-Disposition:"
  const NAME := " name=\""
  const FILE_NAME := " filename=\""

  /** What is read from the temporary file: parameters and uploads in order, and the bytes of the field lines. */
  datatype Parsed = Parsed(parameters: seq<Parameter>, uploads: seq<Parameter>, fieldBytes: nat)

  /** The names a part has been given so far, and what is left of the file. */
  datatype PartHead = PartHead(fieldName: string, fileName: string, rest: string)

  /** The text between `key` and the next quote, or what was there before. */
  function Quoted(line: string, key: string, before: string): string {
    var start := IndexOf(line, key, 0);
    if start < 0 then before
    else
      var end := IndexOf(line, "\"", start + |key|);
      if end >= start then line[start + |key|..end] else before
  }

  function Disposition(line: string, head: PartHead): PartHead {
    if ContainsText(line, "form-data") then
      head.(fieldName := Quoted(line, NAME, head.fieldName), fileName := Quoted(line, FILE_NAME, head.fileName))
    else head
  }

  function ReadHead(head: PartHead): (r: PartHead)
    ensures |r.rest| <= |head.rest|
    ensures head.rest != "" ==> |r.rest| < |head.rest|
    decreases |head.rest|
  {
    if head.rest == "" then head
    else
      var raw := ReadLine(head.rest, MAX_LINE);
      var line, next := Trim(raw), head.(rest := head.rest[|raw|..]);
      if StartsWith(line, DISPOSITION) then ReadHead(Disposition(line, next))
      else if line == "" then next
      else ReadHead(next)
  }

  /** The data of a part: `closed` when a boundary line was found, `finished` when it was the last one. */
  datatype PartData = PartData(value: string, closed: bool, finished: bool, rest: string)

  function ReadData(boundary: string, value: string, rest: string): (r: PartData)
    ensures |r.rest| <= |rest|
    decreases |rest|
  {
    if rest == "" then PartData(value, false, false, rest)
    else
      var line := ReadLine(rest, MAX_LINE);
      var rest' := rest[|line|..];
      if StartsWith(line, "--" + boundary) then PartData(value, true, ContainsText(line, boundary + "--"), rest')
      else ReadData(boundary, value + line, rest')
  }

  /** Removes the line break in front of the boundary. */
  function DropTwo(s: string): string {
    if |s| >= 2 then s[..|s| - 2] else s
  }

  function AddPart(p: Parsed, head: PartHead, data: PartData): Parsed {
    if head.fieldName == "" then p
    else if head.fileName == "" then
      var p' := p.(fieldBytes := p.fieldBytes + |data.value|);
      if data.closed then p'.(parameters := p.parameters + [Parameter(head.fieldName, DropTwo(data.value))]) else p'
    else if data.closed then
      p.(parameters := p.parameters + [Parameter(head.fieldName, head.fileName)],
         uploads := p.uploads + [Parameter(head.fieldName, DropTwo(data.value))])
    else p
  }

  function ParseParts(boundary: string, p: Parsed, rest: string): Parsed
    decreases |rest|
  {
    if rest == "" then p
    else
      var head := ReadHead(PartHead("", "", rest));
      var data := ReadData(boundary, "", head.rest);
      var p' := AddPart(p, head, data);
      if data.finished then p' else ParseParts(boundary, p', data.rest)
  }

  /** Reads the file line by line; `tempFile` is its content. */
  method ParseMultiPartFile(tempFile: string, boundary: string) returns (p: Parsed)
    ensures p == ParseParts(boundary, Parsed([], [], 0), tempFile)
  {
    p := Parsed([], [], 0);
    var rest, finished := tempFile, false;
    ghost var goal := ParseParts(boundary, p, tempFile);
    while rest != "" && !finished
      invariant goal == if finished then p else ParseParts(boundary, p, rest)
      decreases |rest|
    {
      var head := PartHead("", "", rest);
      ghost var readHead := ReadHead(head);
      var inHead := true;
      while head.rest != "" && inHead
        invariant |head.rest| <= |rest| && (inHead || |head.rest| < |rest|)
        invariant readHead == if inHead then ReadHead(head) else head
        decreases |head.rest|
      {
        var raw := ReadLine(head.rest, MAX_LINE);
        var line := Trim(raw);
        head := head.(rest := head.rest[|raw|..]);
        if StartsWith(line, DISPOSITION) {
          head := Disposition(line, head);
        } else if line == "" {
          inHead := false;
        }
      }
      rest := head.rest;
      var value, closed := "", false;
      ghost var readData := ReadData(boundary, "", rest);
      while rest != "" && !closed
        invariant |rest| <= |head.rest|
        invariant if closed then PartData(value, true, finished, rest) == readData
                  else !finished && ReadData(boundary, value, rest) == readData
        decreases |rest|
      {
        var line := ReadLine(rest, MAX_LINE);
        rest := rest[|line|..];
        if StartsWith(line, "--" + boundary) {
          closed := true;
          finished := ContainsText(line, boundary + "--");
        } else {
          value := value + line;
        }
      }
      p := AddPart(p, head, PartData(value, closed, finished, rest));
    }
  }

  // ---------- Encoding ----------

  function Delimiter(boundary: string): string { "--" + boundary + CRLF }
  function CloseDelimiter(boundary: string): string { "--" + boundary + "--" + CRLF }

  /** What a client sends: a form field, or a file when there is a file name, with an optional further header line. */
  datatype Item = Item(name: string, fileName: string, header: string, value: string)

  function Ending(fileName: string): string {
    if fileName == "" then "" else ";" + FILE_NAME + fileName + "\""
  }

  function HeadLine(name: string, fileName: string): string {
    DISPOSITION + " form-data;" + NAME + name + "\"" + Ending(fileName)
  }

  function ItemLine(field: Item): string {
    HeadLine(field.name, field.fileName)
  }

  function MoreHead(field: Item): string {
    if field.header == "" then CRLF else field.header + CRLF + CRLF
  }

  /** One part: its head, an empty line, the value, and the line break that belongs to the next delimiter. */
  function Part(field: Item): string {
    ItemLine(field) + CRLF + MoreHead(field) + field.value + CRLF
  }

  /** The parts behind the first delimiter. */
  function Parts(boundary: string, fields: seq<Item>): string {
    if fields == [] then ""
    else Part(fields[0]) + (if |fields| == 1 then CloseDelimiter(boundary) else Delimiter(boundary))
         + Parts(boundary, fields[1..])
  }

  function Encode(boundary: string, fields: seq<Item>): string {
    if fields == [] then CloseDelimiter(boundary) else Delimiter(boundary) + Parts(boundary, fields)
  }

  /** What a client sends for one field or one file, word by word. */
  lemma EncodedWords(boundary: string, name: string, fileName: string, value: string)
    ensures var line := "Content-Disposition: form-data; name=\"" + name + "\""
                        + if fileName == "" then "" else "; filename=\"" + fileName + "\"";
      Encode(boundary, [Item(name, fileName, "", value)])
        == "--" + boundary + "\r\n" + (line + "\r\n" + "\r\n" + value + "\r\n" + ("--" + boundary + "--" + "\r\n"))
  {
    hide HeadLine;
    var field := Item(name, fileName, "", value);
    assert [field][1..] == [];
    HeadLineWords(name, fileName);
    var part := HeadLine(name, fileName) + CRLF + CRLF + value + CRLF;
    var close := "--" + boundary + "--" + CRLF;
    assert Part(field) == part && Parts(boundary, []) == "";
    assert Parts(boundary, [field]) == part + close + "" == part + close;
  }

  lemma HeadLineWords(name: string, fileName: string)
    ensures HeadLine(name, fileName) == "Content-Disposition: form-data; name=\"" + name + "\""
         + if fileName == "" then "" else "; filename=\"" + fileName + "\""
  {
    assert DISPOSITION + " form-data;" + NAME == "Content-Disposition: form-data; name=\"";
    assert ";" + FILE_NAME == "; filename=\"";
    assert DISPOSITION + " form-data;" + NAME + name + "\"" == "Content-Disposition: form-data; name=\"" + name + "\"";
  }

  predicate IsQuotable(s: string) {
    '"' !in s && '\r' !in s && '\n' !in s
  }

  /** The name of a file field does not end like the beginning of a file name. */
  predicate EndsLikeFileName(name: string) {
    |name| >= 10 && name[|name| - 10..] + "\"" == FILE_NAME
  }

  /** What a field has to satisfy to survive the encoding. */
  predicate GoodField(boundary: string, field: Item) {
    && field.name != "" && IsQuotable(field.name) && IsQuotable(field.fileName)
    && (field.fileName != "" ==> !EndsLikeFileName(field.name))
    && |ItemLine(field)| + 2 <= MAX_LINE
    && GoodHeader(field.header)
    && !ContainsText(field.value, "--" + boundary)
  }

  predicate GoodHeader(header: string) {
    NoLineEnd(header) && Trimmed(header) && |header| + 2 <= MAX_LINE && !StartsWith(header, DISPOSITION)
  }

  /** The boundary fits on a line. */
  predicate LineBoundary(boundary: string) {
    '\r' !in boundary && '\n' !in boundary && |boundary| + 6 <= MAX_LINE
  }

  predicate MadeOfDashes(boundary: string) {
    forall i :: 0 <= i < |boundary| ==> boundary[i] == '-'
  }

  // ---------- Delimiter lines ----------

  lemma {:induction false} AllDashes(boundary: string)
    requires boundary + "--" == "--" + boundary
    ensures forall i :: 0 <= i < |boundary| ==> boundary[i] == '-'
  {
    forall i | 0 <= i < |boundary|
      ensures boundary[i] == '-'
    {
      DashAt(boundary, i);
    }
  }

  lemma {:induction false} DashAt(boundary: string, i: nat)
    requires boundary + "--" == "--" + boundary && i < |boundary|
    ensures boundary[i] == '-'
  {
    assert (boundary + "--")[i] == ("--" + boundary)[i];
    if i >= 2 {
      DashAt(boundary, i - 2);
    }
  }

  /** A delimiter line is the last one exactly if it ends in two dashes, unless the boundary is made of dashes. */
  lemma DelimiterIsNotClosing(boundary: string)
    requires '\r' !in boundary
    ensures ContainsText(Delimiter(boundary), boundary + "--") <==> MadeOfDashes(boundary)
  {
    var line, p := Delimiter(boundary), boundary + "--";
    var r := IndexOf(line, p, 0);
    if r >= 0 {
      assert line[r..r + |p|] == p;
      if r == 0 {
        assert line[0..|p|] == "--" + boundary;
        AllDashes(boundary);
      } else {
        NoCarriageReturn(line, p, r, boundary);
      }
    }
    if MadeOfDashes(boundary) {
      assert line[0..|p|] == p;
      assert MatchesAt(line, p, 0);
    }
  }

  /** Further right a match would cover the carriage return. */
  lemma NoCarriageReturn(line: string, p: string, r: nat, boundary: string)
    requires line == Delimiter(boundary) && p == boundary + "--" && r > 0 && r + |p| <= |line|
    requires '\r' !in boundary
    ensures line[r..r + |p|] != p
  {
    var at := |boundary| + 2;
    assert line[at] == '\r';
    assert line[r..r + |p|][at - r] == line[at];
    assert p[at - r] in p;
  }

  lemma CloseDelimiterIsClosing(boundary: string)
    ensures ContainsText(CloseDelimiter(boundary), boundary + "--")
  {
    var line, p := CloseDelimiter(boundary), boundary + "--";
    assert line[2..2 + |p|] == p;
    assert MatchesAt(line, p, 2);
  }

  // ---------- Round trip: values ----------

  /** A value with its line break does not contain the boundary either. */
  lemma NoBoundaryBehind(value: string, boundary: string)
    requires !ContainsText(value, "--" + boundary) && '\r' !in boundary && '\n' !in boundary
    ensures forall i :: !MatchesAt(value + CRLF, "--" + boundary, i)
  {
    var s, p := value + CRLF, "--" + boundary;
    forall i | 0 <= i && i + |p| <= |s|
      ensures !MatchesAt(s, p, i)
    {
      if i + |p| <= |value| {
        assert s[i..i + |p|] == value[i..i + |p|];
        assert !MatchesAt(value, p, i);
      } else {
        assert s[i..i + |p|][|p| - 1] == s[i + |p| - 1];
        assert p[|p| - 1] in p;
        assert '\r' !in p && '\n' !in p;
      }
    }
  }

  /** A delimiter behind the data: the line that `line` is and what follows it. */
  predicate IsDelimiterLine(line: string, boundary: string) {
    line == Delimiter(boundary) || line == CloseDelimiter(boundary)
  }

  lemma ReadDelimiter(boundary: string, line: string, rest: string)
    requires LineBoundary(boundary) && IsDelimiterLine(line, boundary)
    ensures ReadLine(line + rest, MAX_LINE) == line && (line + rest)[|line|..] == rest
    ensures StartsWith(line, "--" + boundary)
  {
    var head := line[..|line| - 1];
    assert line == head + "\n" && line + rest == head + "\n" + rest;
    assert '\n' !in head;
    ReadWholeLine(head, rest, MAX_LINE);
  }

  lemma NoStart(c: string, u: string, p: string)
    requires c <= u && !MatchesAt(u, p, 0)
    ensures !StartsWith(c, p)
  {
    if |p| <= |u| {
      assert u[0..|p|] == u[..|p|];
    }
  }

  /** Lines of the value, also those cut at the length limit, are collected up to the delimiter. */
  lemma {:induction false} ReadValue(boundary: string, value: string, u: string, line: string, rest: string)
    requires LineBoundary(boundary) && IsDelimiterLine(line, boundary)
    requires u == "" || u[|u| - 1] == '\n'
    requires forall i :: !MatchesAt(u, "--" + boundary, i)
    ensures ReadData(boundary, value, u + line + rest)
         == PartData(value + u, true, ContainsText(line, boundary + "--"), rest)
    decreases |u|
  {
    hide IndexOf, CloseDelimiter, Delimiter, LineBoundary;
    var s := u + line + rest;
    if u == "" {
      assert s == line + rest && value + u == value;
      ReadDelimiter(boundary, line, rest);
      assert line != "" by { assert "--" + boundary <= line; }
    } else {
      assert s == u + (line + rest);
      ReadLineWithin(u, line + rest, MAX_LINE);
      var c := ReadLine(s, MAX_LINE);
      assert c == u[..|c|];
      NoStart(c, u, "--" + boundary);
      var u' := u[|c|..];
      assert s[|c|..] == u' + line + rest;
      assert forall i :: MatchesAt(u', "--" + boundary, i) ==> MatchesAt(u, "--" + boundary, |c| + i) by {
        assert u == c + u';
        forall i: nat {
          MatchInSuffix(c, u', "--" + boundary, i);
        }
      }
      ReadValue(boundary, value + c, u', line, rest);
      assert value + c + u' == value + u;
    }
  }

  // ---------- Without a delimiter ----------

  ghost predicate NoDelimiter(s: string, boundary: string) {
    forall i: nat :: !MatchesAt(s, "--" + boundary, i)
  }

  lemma NoDelimiterBehind(s: string, n: nat, boundary: string)
    requires n <= |s| && NoDelimiter(s, boundary)
    ensures NoDelimiter(s[n..], boundary) && !StartsWith(s[..n], "--" + boundary)
  {
    var p := "--" + boundary;
    assert s == s[..n] + s[n..];
    forall i: nat
      ensures !MatchesAt(s[n..], p, i)
    {
      MatchInSuffix(s[..n], s[n..], p, i);
      assert !MatchesAt(s, p, n + i);
    }
    assert !MatchesAt(s, p, 0);
    NoStart(s[..n], s, p);
  }

  lemma {:induction false} ReadToEnd(boundary: string, value: string, s: string)
    requires NoDelimiter(s, boundary)
    ensures ReadData(boundary, value, s) == PartData(value + s, false, false, "")
    decreases |s|
  {
    hide ReadLine, NoDelimiter, StartsWith;
    if s == "" {
      assert value + s == value;
    } else {
      var line := ReadLine(s, MAX_LINE);
      NoDelimiterBehind(s, |line|, boundary);
      ReadToEnd(boundary, value + line, s[|line|..]);
      assert value + line + s[|line|..] == value + s;
    }
  }

  lemma {:induction false} HeadLeavesSuffix(head: PartHead) returns (n: nat)
    ensures n <= |head.rest| && ReadHead(head).rest == head.rest[n..]
    decreases |head.rest|
  {
    hide ReadLine, Disposition, Trim, StartsWith;
    n := 0;
    if head.rest != "" {
      var raw := ReadLine(head.rest, MAX_LINE);
      var line, next := Trim(raw), head.(rest := head.rest[|raw|..]);
      n := |raw|;
      if StartsWith(line, DISPOSITION) {
        DispositionKeepsRest(line, next);
        var m := HeadLeavesSuffix(Disposition(line, next));
        n := n + m;
      } else if line != "" {
        var m := HeadLeavesSuffix(next);
        n := n + m;
      }
    }
  }

  lemma DispositionKeepsRest(line: string, head: PartHead)
    ensures Disposition(line, head).rest == head.rest
  {
  }

  /** Without the delimiter nothing is delivered, whatever heads and values there are: a part has to be ended. */
  lemma NothingWithoutDelimiter(boundary: string, p: Parsed, s: string)
    requires NoDelimiter(s, boundary)
    ensures var r := ParseParts(boundary, p, s); r.parameters == p.parameters && r.uploads == p.uploads
  {
    hide ReadHead, ReadData, NoDelimiter;
    if s != "" {
      var head := ReadHead(PartHead("", "", s));
      var n := HeadLeavesSuffix(PartHead("", "", s));
      NoDelimiterBehind(s, n, boundary);
      ReadToEnd(boundary, "", head.rest);
    }
  }

  // ---------- Round trip: heads ----------

  lemma HeadLineReads(line: string, rest: string)
    requires |line| + 2 <= MAX_LINE && '\n' !in line && Trimmed(line)
    ensures ReadLine(line + CRLF + rest, MAX_LINE) == line + CRLF && Trim(line + CRLF) == line
    ensures (line + CRLF + rest)[|line + CRLF|..] == rest
  {
    assert line + CRLF + rest == (line + "\r") + "\n" + rest;
    assert '\n' !in line + "\r";
    ReadWholeLine(line + "\r", rest, MAX_LINE);
    TrimLine(line);
  }

  const BEFORE_NAME := "Content-Disposition: form-data;"

  lemma MatchBetween(a: string, b: string, c: string)
    ensures MatchesAt(a + b + c, b, |a|)
  {
    assert (a + b + c)[|a|..|a| + |b|] == b;
  }

  lemma HeadLineParts(name: string, fileName: string)
    ensures HeadLine(name, fileName) == BEFORE_NAME + NAME + name + "\"" + Ending(fileName)
    ensures ContainsText(HeadLine(name, fileName), "form-data") && StartsWith(HeadLine(name, fileName), DISPOSITION)
  {
    KeyTexts();
    hide BEFORE_NAME, DISPOSITION, NAME, Ending;
    var rest := NAME + name + "\"" + Ending(fileName);
    Regroup(BEFORE_NAME, NAME, name, Ending(fileName));
    Regroup3(DISPOSITION + " ", "form-data", rest);
    MatchBetween(DISPOSITION + " ", "form-data", ";" + rest);
    StartsWithFirst(DISPOSITION, " ", "form-data" + (";" + rest));
  }

  lemma KeyTexts()
    ensures BEFORE_NAME == DISPOSITION + " form-data;"
    ensures BEFORE_NAME == (DISPOSITION + " ") + "form-data" + ";"
  {
  }

  lemma Regroup(a: string, b: string, name: string, e: string)
    ensures a + b + name + "\"" + e == a + (b + name + "\"" + e)
  {
  }

  lemma Regroup3(a: string, b: string, rest: string)
    ensures a + b + ";" + rest == a + b + (";" + rest)
  {
  }

  lemma StartsWithFirst(a: string, b: string, rest: string)
    ensures a <= a + b + rest
  {
  }

  lemma ItemLineShape(field: Item)
    requires IsQuotable(field.name) && IsQuotable(field.fileName)
    ensures '\n' !in ItemLine(field) && Trimmed(ItemLine(field))
  {
    HeadLineParts(field.name, field.fileName);
    EndingShape(field.fileName);
    KeysShape();
    hide BEFORE_NAME, NAME, Ending, HeadLine;
    var line := ItemLine(field);
    assert line[0] == BEFORE_NAME[0];
    var e := Ending(field.fileName);
    assert line[|line| - 1] == if field.fileName == "" then '"' else e[|e| - 1];
  }

  lemma EndingShape(fileName: string)
    requires '\n' !in fileName
    ensures '\n' !in Ending(fileName)
    ensures if fileName == "" then Ending(fileName) == ""
            else Ending(fileName) != "" && Ending(fileName)[|Ending(fileName)| - 1] == '"'
  {
  }

  lemma KeysShape()
    ensures BEFORE_NAME != "" && BEFORE_NAME[0] == 'C' && '\n' !in BEFORE_NAME && '\n' !in NAME
  {
  }

  /** Where the name ends. */
  function NameEnd(name: string): nat {
    |BEFORE_NAME| + 7 + |name|
  }

  lemma QuotesOfKeys()
    ensures '"' !in BEFORE_NAME && |BEFORE_NAME| == 31 && |NAME| == 7
    ensures forall i :: 0 <= i < 7 ==> (NAME[i] == '"' <==> i == 6)
  {
  }

  lemma InPieces(a: string, b: string, c: string, d: string, e: string, i: nat)
    requires i < |a| + |b| + |c| + |d| + |e|
    ensures (a + b + c + d + e)[i] == if i < |a| then a[i]
                                      else if i < |a| + |b| then b[i - |a|]
                                      else if i < |a| + |b| + |c| then c[i - |a| - |b|]
                                      else if i < |a| + |b| + |c| + |d| then d[i - |a| - |b| - |c|]
                                      else e[i - |a| - |b| - |c| - |d|]
  {
  }

  /** The only quotes of a head line surround the name and the file name. */
  lemma QuotesOfHeadLine(name: string, fileName: string, i: nat)
    requires '"' !in name && '"' !in fileName && i < |HeadLine(name, fileName)|
    ensures HeadLine(name, fileName)[i] == '"' <==>
      i == |BEFORE_NAME| + 6 || i == NameEnd(name)
      || (fileName != "" && (i == NameEnd(name) + 12 || i == |HeadLine(name, fileName)| - 1))
  {
    hide HeadLine, Ending, BEFORE_NAME, NAME;
    HeadLineParts(name, fileName);
    QuotesOfKeys();
    InPieces(BEFORE_NAME, NAME, name, "\"", Ending(fileName), i);
    if i > NameEnd(name) {
      QuotesOfEnding(fileName, i - NameEnd(name) - 1);
    }
  }

  lemma QuotesOfEnding(fileName: string, i: nat)
    requires '"' !in fileName && i < |Ending(fileName)|
    ensures fileName != "" && |Ending(fileName)| == |fileName| + 13
    ensures Ending(fileName)[i] == '"' <==> i == 11 || i == |Ending(fileName)| - 1
  {
    var s := Ending(fileName);
    if 1 <= i < 12 {
      assert s[i] == FILE_NAME[i - 1];
    } else if 12 <= i < |s| - 1 {
      assert s[i] == fileName[i - 12];
    }
  }

  /** The text between a key and the next quote. */
  lemma QuotedIs(line: string, key: string, before: string, at: nat, value: string)
    requires MatchesAt(line, key, at) && forall i :: 0 <= i < at ==> !MatchesAt(line, key, i)
    requires at + |key| + |value| < |line| && line[at + |key|..at + |key| + |value|] == value
    requires line[at + |key| + |value|] == '"' && '"' !in value
    ensures Quoted(line, key, before) == value
  {
    IndexOfIs(line, key, 0, at);
    var end := at + |key| + |value|;
    MatchesChar(line, '"', end);
    forall i | at + |key| <= i < end
      ensures !MatchesAt(line, "\"", i)
    {
      MatchesChar(line, '"', i);
      assert line[i] == value[i - at - |key|];
    }
    IndexOfIs(line, "\"", at + |key|, end);
  }

  lemma Slices(a: string, b: string, c: string, e: string)
    ensures var s := a + b + c + "\"" + e; var n := |a| + |b|;
      s[|a|..n] == b && s[n..n + |c|] == c && s[n + |c|] == '"'
  {
  }

  lemma NameIsFound(name: string, fileName: string, before: string)
    requires '"' !in name && '"' !in fileName
    ensures Quoted(HeadLine(name, fileName), NAME, before) == name
  {
    hide MatchesAt, IndexOf, Quoted, HeadLine, BEFORE_NAME, NAME, Ending;
    var line, at := HeadLine(name, fileName), |BEFORE_NAME|;
    HeadLineParts(name, fileName);
    QuotesOfKeys();
    Slices(BEFORE_NAME, NAME, name, Ending(fileName));
    forall i | 0 <= i < at
      ensures !MatchesAt(line, NAME, i)
    {
      if i + 6 < |line| {
        QuotesOfHeadLine(name, fileName, i + 6);
      }
      NoQuoteNoMatch(line, NAME, i);
    }
    MatchesSlice(line, NAME, at);
    QuotedIs(line, NAME, before, at, name);
  }

  /** A pattern that ends with a quote matches only where the text has one. */
  lemma NoQuoteNoMatch(line: string, pattern: string, i: nat)
    requires pattern != "" && pattern[|pattern| - 1] == '"'
    requires i + |pattern| <= |line| ==> line[i + |pattern| - 1] != '"'
    ensures !MatchesAt(line, pattern, i)
  {
    if i + |pattern| <= |line| {
      assert line[i..i + |pattern|][|pattern| - 1] == line[i + |pattern| - 1];
    }
  }

  lemma MatchesSlice(line: string, pattern: string, i: nat)
    requires i + |pattern| <= |line| && line[i..i + |pattern|] == pattern
    ensures MatchesAt(line, pattern, i)
  {
  }

  /** The key of a file name does not match at the quotes around the name, unless the name ends like one. */
  lemma NoFileNameBefore(name: string, fileName: string, i: nat)
    requires '"' !in name && '"' !in fileName && (fileName == "" || !EndsLikeFileName(name))
    requires i < NameEnd(name) + 2
    ensures MatchesAt(HeadLine(name, fileName), FILE_NAME, i) ==> fileName == "" && i + 11 == |HeadLine(name, fileName)|
  {
    hide MatchesAt, HeadLine, Ending, BEFORE_NAME, NAME, EndsLikeFileName;
    var line := HeadLine(name, fileName);
    HeadLineParts(name, fileName);
    EndingLength(fileName);
    QuotesOfKeys();
    if i + 10 < |line| {
      QuotesOfHeadLine(name, fileName, i + 10);
    }
    if i + 11 > |line| || line[i + 10] != '"' {
      NoQuoteNoMatch(line, FILE_NAME, i);
    } else if i + 10 == |BEFORE_NAME| + 6 {
      assert line[i + 4] == NAME[0] == ' ' by {
        InPieces(BEFORE_NAME, NAME, name, "\"", Ending(fileName), i + 4);
        NameStarts();
      }
      NoMatchFrom(line, i, 4);
    } else if fileName != "" {
      assert i + 10 == NameEnd(name);
      if |name| >= 10 {
        NameTail(BEFORE_NAME, NAME, name, Ending(fileName));
        NotLikeFileName(name);
        NoMatchSlice(line, i);
      } else {
        QuotesOfHeadLine(name, fileName, |BEFORE_NAME| + 6);
        NoMatchFrom(line, i, |BEFORE_NAME| + 6 - i);
      }
    }
  }

  lemma EndingLength(fileName: string)
    ensures |Ending(fileName)| == if fileName == "" then 0 else |fileName| + 13
  {
  }

  lemma NameStarts()
    ensures NAME[0] == ' ' && FILE_NAME[4] == 'e' && '"' !in FILE_NAME[..10]
  {
  }

  lemma NotLikeFileName(name: string)
    requires !EndsLikeFileName(name) && |name| >= 10
    ensures name[|name| - 10..] + "\"" != FILE_NAME
  {
  }

  lemma NameTail(a: string, b: string, name: string, e: string)
    requires |name| >= 10
    ensures var n := |a| + |b| + |name|; (a + b + name + "\"" + e)[n - 10..n + 1] == name[|name| - 10..] + "\""
  {
  }

  lemma NoMatchFrom(line: string, i: nat, k: nat)
    requires k < 11 && i + 11 <= |line| && line[i + k] != FILE_NAME[k]
    ensures !MatchesAt(line, FILE_NAME, i)
  {
    assert line[i..i + 11][k] == line[i + k];
  }

  lemma NoMatchSlice(line: string, i: nat)
    requires i + 11 <= |line| && line[i..i + 11] != FILE_NAME
    ensures !MatchesAt(line, FILE_NAME, i)
  {
  }

  /** The file name is found, or none, even if the name of a form field looks like one. */
  lemma FileNameIsFound(name: string, fileName: string)
    requires '"' !in name && '"' !in fileName && (fileName == "" || !EndsLikeFileName(name))
    ensures Quoted(HeadLine(name, fileName), FILE_NAME, "") == fileName
  {
    hide MatchesAt, IndexOf, HeadLine, BEFORE_NAME, NAME, Ending;
    var line, at := HeadLine(name, fileName), NameEnd(name) + 2;
    HeadLineParts(name, fileName);
    EndingLength(fileName);
    forall i: nat
      ensures MatchesAt(line, FILE_NAME, i) && (i < at || fileName == "") ==> fileName == "" && i + 11 == |line|
    {
      if i < at {
        NoFileNameBefore(name, fileName, i);
      } else if fileName == "" {
        QuotesOfKeys();
        NoQuoteNoMatch(line, FILE_NAME, i);
      }
    }
    if fileName == "" {
      NoFileName(line);
    } else {
      QuotesOfKeys();
      FileNameSlices(BEFORE_NAME + NAME + name + "\"", fileName);
      MatchesSlice(line, FILE_NAME, at);
      QuotedIs(line, FILE_NAME, "", at, fileName);
    }
  }

  /** A file field whose name ends like the key of a file name is given the text between its quotes for one. */
  lemma NameEatsFileName(name: string, fileName: string)
    requires '"' !in name && '"' !in fileName && fileName != "" && EndsLikeFileName(name)
    ensures Quoted(HeadLine(name, fileName), FILE_NAME, "") == ";" + FILE_NAME[..10]
  {
    hide MatchesAt, IndexOf, HeadLine, BEFORE_NAME, NAME, Ending;
    var line, at := HeadLine(name, fileName), NameEnd(name) - 10;
    HeadLineParts(name, fileName);
    EndingLength(fileName);
    QuotesOfKeys();
    NameStarts();
    NameTail(BEFORE_NAME, NAME, name, Ending(fileName));
    MatchesSlice(line, FILE_NAME, at);
    forall i | 0 <= i < at
      ensures !MatchesAt(line, FILE_NAME, i)
    {
      QuotesOfHeadLine(name, fileName, i + 10);
      if i + 10 == |BEFORE_NAME| + 6 {
        InPieces(BEFORE_NAME, NAME, name, "\"", Ending(fileName), i + 4);
        NoMatchFrom(line, i, 4);
      } else {
        NoQuoteNoMatch(line, FILE_NAME, i);
      }
    }
    EndingSlices(BEFORE_NAME + NAME + name + "\"", fileName);
    QuotedIs(line, FILE_NAME, "", at, ";" + FILE_NAME[..10]);
  }

  /** The file name comes back unless the name of the field hides it, or what is found instead happens to be it. */
  lemma FileNameExactly(name: string, fileName: string)
    requires '"' !in name && '"' !in fileName && fileName != ""
    ensures Quoted(HeadLine(name, fileName), FILE_NAME, "") == fileName <==>
      !EndsLikeFileName(name) || fileName == ";" + FILE_NAME[..10]
  {
    hide Quoted, HeadLine, EndsLikeFileName;
    if EndsLikeFileName(name) {
      NameEatsFileName(name, fileName);
    } else {
      FileNameIsFound(name, fileName);
    }
  }

  lemma EndingSlices(front: string, fileName: string)
    requires fileName != ""
    ensures var s, at := front + Ending(fileName), |front|;
      s[at..at + 11] == ";" + FILE_NAME[..10] && s[at + 11] == '"'
  {
    var e := Ending(fileName);
    assert e[..11] == ";" + FILE_NAME[..10];
  }

  lemma FileNameSlices(front: string, fileName: string)
    requires fileName != ""
    ensures var s, at := front + Ending(fileName), |front| + 1;
      s[at..at + 11] == FILE_NAME && s[at + 11..at + 11 + |fileName|] == fileName && s[at + 11 + |fileName|] == '"'
  {
    var e := Ending(fileName);
    assert e[1..12] == FILE_NAME && e[12..12 + |fileName|] == fileName;
  }

  lemma NoFileName(line: string)
    requires forall i :: 0 <= i && MatchesAt(line, FILE_NAME, i) ==> i + 11 == |line|
    ensures Quoted(line, FILE_NAME, "") == ""
  {
  }

  lemma ReadPartHead(field: Item, rest: string)
    requires field.name != "" && IsQuotable(field.name) && IsQuotable(field.fileName)
    requires field.fileName != "" ==> !EndsLikeFileName(field.name)
    requires |ItemLine(field)| + 2 <= MAX_LINE && GoodHeader(field.header)
    ensures ReadHead(PartHead("", "", ItemLine(field) + CRLF + (MoreHead(field) + rest)))
         == PartHead(field.name, field.fileName, rest)
  {
    hide IndexOf, HeadLine, Trim, Quoted, EndsLikeFileName;
    var line, more := ItemLine(field), MoreHead(field) + rest;
    ItemLineShape(field);
    HeadLineReads(line, more);
    HeadLineParts(field.name, field.fileName);
    NameIsFound(field.name, field.fileName, "");
    FileNameIsFound(field.name, field.fileName);
    assert Disposition(line, PartHead("", "", more)) == PartHead(field.name, field.fileName, more);
    ReadMoreHead(PartHead(field.name, field.fileName, more), field, rest);
  }

  /** A further header line is skipped. */
  lemma ReadMoreHead(head: PartHead, field: Item, rest: string)
    requires GoodHeader(field.header) && head.rest == MoreHead(field) + rest
    ensures ReadHead(head) == head.(rest := rest)
  {
    hide Trim, Disposition;
    EmptyLine(rest);
    assert (CRLF + rest)[2..] == rest;
    if field.header != "" {
      HeadLineReads(field.header, CRLF + rest);
      assert head.rest == field.header + CRLF + (CRLF + rest);
      assert ReadHead(head) == ReadHead(head.(rest := CRLF + rest));
    }
  }

  lemma EmptyLine(rest: string)
    ensures ReadLine(CRLF + rest, MAX_LINE) == CRLF && Trim(CRLF) == ""
    ensures !StartsWith("", DISPOSITION)
  {
    assert CRLF + rest == "\r" + "\n" + rest;
    ReadWholeLine("\r", rest, MAX_LINE);
    TrimLine("");
    assert "" + CRLF == CRLF;
  }

  // ---------- Round trip: the whole body ----------

  /** The head loop ignores the first delimiter. */
  lemma SkipFirstDelimiter(boundary: string, rest: string)
    requires LineBoundary(boundary)
    ensures ReadHead(PartHead("", "", Delimiter(boundary) + rest)) == ReadHead(PartHead("", "", rest))
  {
    var line := Delimiter(boundary);
    ReadDelimiter(boundary, line, rest);
    assert Trim(line)[0] == '-' by { TrimDashes(boundary); }
  }

  lemma TrimDashes(boundary: string)
    ensures |Trim(Delimiter(boundary))| >= 1 && Trim(Delimiter(boundary))[0] == '-'
  {
    TrimRightKeeps(Delimiter(boundary));
  }

  lemma {:induction false} TrimRightKeeps(s: string)
    requires s != "" && !IsSpace(s[0])
    ensures TrimRight(s) != "" && TrimRight(s)[0] == s[0]
  {
    if IsSpace(s[|s| - 1]) {
      TrimRightKeeps(s[..|s| - 1]);
    }
  }

  /** One part and the delimiter behind it are read as its names and its value. */
  lemma ReadPart(boundary: string, field: Item, line: string, rest: string)
    requires LineBoundary(boundary) && GoodField(boundary, field) && IsDelimiterLine(line, boundary)
    ensures var head := ReadHead(PartHead("", "", Part(field) + line + rest));
      && head.fieldName == field.name && head.fileName == field.fileName
      && ReadData(boundary, "", head.rest)
         == PartData(field.value + CRLF, true, ContainsText(line, boundary + "--"), rest)
  {
    hide HeadLine, ItemLine, MoreHead, IndexOf, ReadHead, ReadData, CloseDelimiter, Delimiter, GoodHeader,
        EndsLikeFileName;
    var u := field.value + CRLF;
    PartPieces(ItemLine(field), MoreHead(field), field.value, line, rest);
    ReadPartHead(field, u + line + rest);
    NoBoundaryBehind(field.value, boundary);
    ReadValue(boundary, "", u, line, rest);
    assert "" + u == u;
  }

  lemma PartPieces(a: string, b: string, value: string, line: string, rest: string)
    ensures a + CRLF + b + value + CRLF + line + rest == a + CRLF + (b + (value + CRLF + line + rest))
  {
  }

  predicate GoodFields(boundary: string, fields: seq<Item>) {
    forall i :: 0 <= i < |fields| ==> GoodField(boundary, fields[i])
  }

  /** What one field adds to what has been read. */
  function Added(p: Parsed, field: Item): Parsed {
    if field.fileName == "" then
      p.(parameters := p.parameters + [Parameter(field.name, field.value)],
         fieldBytes := p.fieldBytes + |field.value| + 2)
    else
      p.(parameters := p.parameters + [Parameter(field.name, field.fileName)],
         uploads := p.uploads + [Parameter(field.name, field.value)])
  }

  lemma AddField(p: Parsed, field: Item, head: PartHead, data: PartData)
    requires head.fieldName == field.name != "" && head.fileName == field.fileName
    requires data.closed && data.value == field.value + CRLF
    ensures AddPart(p, head, data) == Added(p, field)
  {
    assert DropTwo(field.value + CRLF) == field.value;
  }

  /** The first part: one field, and the end of the file if its delimiter looks like the last one. */
  lemma ParseFirstField(boundary: string, p: Parsed, fields: seq<Item>, prefix: string, epilogue: string)
    requires LineBoundary(boundary) && fields != [] && GoodField(boundary, fields[0])
    requires prefix == "" || prefix == Delimiter(boundary)
    ensures ParseParts(boundary, p, prefix + Parts(boundary, fields) + epilogue) ==
        if |fields| == 1 || MadeOfDashes(boundary) then Added(p, fields[0])
        else ParseParts(boundary, Added(p, fields[0]), "" + Parts(boundary, fields[1..]) + epilogue)
  {
    hide Part, ReadHead, ReadData, AddPart, Added, CloseDelimiter, Delimiter, LineBoundary, GoodField, ContainsText;
    var field, s := fields[0], prefix + Parts(boundary, fields) + epilogue;
    var line := if |fields| == 1 then CloseDelimiter(boundary) else Delimiter(boundary);
    var rest := Parts(boundary, fields[1..]) + epilogue;
    assert '\r' !in boundary by { LineBoundaryHasNoReturn(boundary); }
    DelimiterIsNotClosing(boundary);
    CloseDelimiterIsClosing(boundary);
    assert s == prefix + (Part(field) + line + rest);
    ReadPart(boundary, field, line, rest);
    if prefix != "" {
      SkipFirstDelimiter(boundary, Part(field) + line + rest);
    } else {
      assert s == Part(field) + line + rest;
    }
    assert s != "" by { PartNotEmpty(field); }
    var head := ReadHead(PartHead("", "", s));
    GoodFieldHasName(boundary, field);
    AddField(p, field, head, ReadData(boundary, "", head.rest));
    assert rest == "" + Parts(boundary, fields[1..]) + epilogue;
  }

  lemma LineBoundaryHasNoReturn(boundary: string)
    requires LineBoundary(boundary)
    ensures '\r' !in boundary
  {
  }

  /** The parameters of the fields: values of form fields, names of files. */
  function Parameters(fields: seq<Item>): (r: seq<Parameter>)
    ensures |r| == |fields|
  {
    if fields == [] then []
    else [Parameter(fields[0].name, if fields[0].fileName == "" then fields[0].value else fields[0].fileName)]
         + Parameters(fields[1..])
  }

  /** The contents of the files. */
  function Uploads(fields: seq<Item>): seq<Parameter> {
    if fields == [] then []
    else (if fields[0].fileName == "" then [] else [Parameter(fields[0].name, fields[0].value)]) + Uploads(fields[1..])
  }

  /** The bytes of the lines of form fields, line breaks included. */
  function FieldBytes(fields: seq<Item>): nat {
    if fields == [] then 0
    else (if fields[0].fileName == "" then |fields[0].value| + 2 else 0) + FieldBytes(fields[1..])
  }

  function AllAdded(p: Parsed, fields: seq<Item>): Parsed {
    Parsed(p.parameters + Parameters(fields), p.uploads + Uploads(fields), p.fieldBytes + FieldBytes(fields))
  }

  lemma AddedOneByOne(p: Parsed, fields: seq<Item>)
    ensures fields != [] ==> AllAdded(Added(p, fields[0]), fields[1..]) == AllAdded(p, fields)
    ensures AllAdded(p, []) == p
  {
    if fields != [] {
      var field, rest := fields[0], fields[1..];
      var value := if field.fileName == "" then field.value else field.fileName;
      assert p.parameters + [Parameter(field.name, value)] + Parameters(rest) == p.parameters + Parameters(fields);
      assert field.fileName != "" ==>
        p.uploads + [Parameter(field.name, field.value)] + Uploads(rest) == p.uploads + Uploads(fields);
      assert field.fileName == "" ==> [] + Uploads(rest) == Uploads(rest);
    }
  }

  lemma {:induction false} ParseFields(boundary: string, p: Parsed, fields: seq<Item>, prefix: string,
                                       epilogue: string)
    requires LineBoundary(boundary) && !MadeOfDashes(boundary) && GoodFields(boundary, fields) && fields != []
    requires prefix == "" || prefix == Delimiter(boundary)
    ensures ParseParts(boundary, p, prefix + Parts(boundary, fields) + epilogue) == AllAdded(p, fields)
    decreases |fields|
  {
    hide LineBoundary, GoodField, Parts, Delimiter, ParseParts, MadeOfDashes, Added, AllAdded;
    ParseFirstField(boundary, p, fields, prefix, epilogue);
    AddedOneByOne(p, fields);
    if |fields| == 1 {
      assert fields[1..] == [];
      AddedOneByOne(Added(p, fields[0]), []);
    } else {
      ParseFields(boundary, Added(p, fields[0]), fields[1..], "", epilogue);
    }
  }

  lemma PartNotEmpty(field: Item)
    ensures Part(field) != ""
  {
  }

  lemma GoodFieldHasName(boundary: string, field: Item)
    requires GoodField(boundary, field)
    ensures field.name != ""
  {
  }

  /**
   Every list of form fields and files comes back from its encoding: names, values and contents, in order, whatever
   line breaks and however long lines they have, and whatever follows the body.
   */
  lemma MultiPartRoundTrip(boundary: string, fields: seq<Item>, epilogue: string)
    requires LineBoundary(boundary) && !MadeOfDashes(boundary) && GoodFields(boundary, fields)
    requires fields != [] || epilogue == ""
    ensures ParseParts(boundary, Parsed([], [], 0), Encode(boundary, fields) + epilogue)
         == Parsed(Parameters(fields), Uploads(fields), FieldBytes(fields))
  {
    if fields == [] {
      NoFields(boundary);
      assert Encode(boundary, fields) + epilogue == CloseDelimiter(boundary);
    } else {
      ParseFields(boundary, Parsed([], [], 0), fields, Delimiter(boundary), epilogue);
      assert [] + Parameters(fields) == Parameters(fields) && [] + Uploads(fields) == Uploads(fields);
    }
  }

  lemma NoFields(boundary: string)
    requires LineBoundary(boundary)
    ensures ParseParts(boundary, Parsed([], [], 0), CloseDelimiter(boundary)) == Parsed([], [], 0)
  {
    var line := CloseDelimiter(boundary);
    ReadDelimiter(boundary, line, "");
    assert line + "" == line;
    TrimRightKeeps(line);
    assert ReadHead(PartHead("", "", line)) == PartHead("", "", "");
  }

  /**
   With two fields or more the encoding comes back if and only if the boundary is not made of dashes alone:
   otherwise every delimiter looks like the last one, and only the first field is read.
   */
  lemma RoundTripExactly(boundary: string, fields: seq<Item>, epilogue: string)
    requires LineBoundary(boundary) && GoodFields(boundary, fields) && |fields| >= 2
    ensures ParseParts(boundary, Parsed([], [], 0), Encode(boundary, fields) + epilogue).parameters
         == Parameters(fields)
       <==> !MadeOfDashes(boundary)
  {
    hide LineBoundary, GoodField, ParseParts, MadeOfDashes;
    if MadeOfDashes(boundary) {
      ParseFirstField(boundary, Parsed([], [], 0), fields, Delimiter(boundary), epilogue);
      assert |Added(Parsed([], [], 0), fields[0]).parameters| == 1;
    } else {
      MultiPartRoundTrip(boundary, fields, epilogue);
    }
  }
}
