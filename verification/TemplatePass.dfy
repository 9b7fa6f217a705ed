/** One rewriting loop of the template engine, on tokens and on the string, and when it terminates. */
module TemplatePass {
  import opened Strings
  import opened Sequences
  import opened TemplateTokens

  /** The constructs a loop looks for. */
  datatype Kind = If | IfNot | Loop
  {
    function Keyword(): string {
      match this
      case If => "if "
      case IfNot => "ifnot "
      case Loop => "loop "
    }
  }

  /** What replaces a construct: one of its parts, or numbered copies of its body. */
  datatype Choice = Take(body: bool) | Repeat(times: nat)

  function Opener(kind: Kind, name: string): string { kind.Keyword() + name }
  function Else(name: string): string { "else " + name }
  function End(name: string): string { "end " + name }

  // ---------- Numbered copies ----------

  /** The tag prefixes that are numbered, in the order of the replacements. */
  const KEYWORDS: seq<string> := ["", "if ", "ifnot ", "else ", "end ", "loop "]

  function Before(keyword: string, name: string): string { keyword + name + "." }
  function After(keyword: string, name: string, i: nat): string { keyword + name + Number(i) + "." }

  function NumberTags(ts: seq<Token>, keywords: seq<string>, name: string, i: nat): seq<Token>
    decreases |keywords|
  {
    if keywords == [] then ts
    else NumberTags(RenameTags(ts, Before(keywords[0], name), After(keywords[0], name, i)), keywords[1..], name, i)
  }

  function NumberText(s: string, keywords: seq<string>, name: string, i: nat): string
    decreases |keywords|
  {
    if keywords == [] then s
    else
      NumberText(ReplaceAll(s, "{" + Before(keywords[0], name), "{" + After(keywords[0], name, i)),
                 keywords[1..], name, i)
  }

  function CopyTags(body: seq<Token>, name: string, first: nat, times: nat): seq<Token>
    requires first <= times
    decreases times - first
  {
    if first == times then [] else NumberTags(body, KEYWORDS, name, first) + CopyTags(body, name, first + 1, times)
  }

  function CopyText(body: string, name: string, first: nat, times: nat): string
    requires first <= times
    decreases times - first
  {
    if first == times then "" else NumberText(body, KEYWORDS, name, first) + CopyText(body, name, first + 1, times)
  }

  // ---------- Keywords are told apart ----------

  /** Two different keywords differ within their common length. */
  lemma KeywordsDiffer(a: string, b: string) returns (k: nat)
    requires a in KEYWORDS[1..] && b in KEYWORDS[1..] && a != b
    ensures k < |a| && k < |b| && a[k] != b[k]
  {
    if a[0] != b[0] {
      k := 0;
    } else if a[1] != b[1] {
      k := 1;
    } else {
      k := 2;
    }
  }

  lemma KeywordLetters(keyword: string)
    requires keyword in KEYWORDS[1..]
    ensures keyword != "" && keyword[|keyword| - 1] == ' '
    ensures forall k :: 0 <= k < |keyword| ==> keyword[k] != '.' && !IsDigit(keyword[k])
  {
  }

  /** A string that is repeated behind `p` consists of characters of `p`, and the next one is one, too. */
  lemma {:induction false} Repeats(p: string, s: string, k: nat)
    requires p != "" && s <= p + s && k < |p + s|
    ensures (p + s)[k] in p
    decreases k
  {
    if k < |p| {
      assert (p + s)[k] == p[k];
    } else {
      assert (p + s)[k] == s[k - |p|] == (p + s)[k - |p|];
      Repeats(p, s, k - |p|);
    }
  }

  /** A name that reappears behind a keyword is not followed by a dot or a digit there. */
  lemma BehindName(keyword: string, name: string)
    requires keyword in KEYWORDS[1..] && name <= keyword + name
    ensures |keyword + name| > |name|
    ensures var c := (keyword + name)[|name|]; c != '.' && !IsDigit(c)
  {
    KeywordLetters(keyword);
    Repeats(keyword, name, |name|);
  }

  lemma PrefixesCompare(a: string, b: string, s: string)
    requires a <= s && b <= s && |a| <= |b|
    ensures a <= b
  {
    assert a == s[..|a|] == b[..|a|];
  }

  lemma PrefixOfPrefix(a: string, b: string, s: string)
    requires a <= b && b <= s
    ensures a <= s
  {
    assert a == b[..|a|] == s[..|a|];
  }

  lemma KeywordCases(keyword: string)
    requires keyword in KEYWORDS
    ensures keyword == "" || keyword in KEYWORDS[1..]
  {
    var i :| 0 <= i < |KEYWORDS| && KEYWORDS[i] == keyword;
    assert i > 0 ==> KEYWORDS[1..][i - 1] == keyword;
  }

  predicate GoodKeywords(keywords: seq<string>) {
    forall i :: 0 <= i < |keywords| ==> BraceFree(keywords[i])
  }

  lemma {:induction false} NumberedTagsAreLexed(ts: seq<Token>, keywords: seq<string>, name: string, i: nat)
    requires Lexed(ts) && BraceFree(name) && GoodKeywords(keywords)
    ensures Lexed(NumberTags(ts, keywords, name, i))
    ensures NumberText(Print(ts), keywords, name, i) == Print(NumberTags(ts, keywords, name, i))
    decreases |keywords|
  {
    hide ReplaceAll, Number;
    if keywords != [] {
      var before, after := Before(keywords[0], name), After(keywords[0], name, i);
      assert BraceFree(after);
      ReplaceAllRenamesTags(ts, before, after);
      RenamedTagsAreLexed(ts, before, after);
      NumberedTagsAreLexed(RenameTags(ts, before, after), keywords[1..], name, i);
    }
  }

  lemma RenamedTagsAreLexed(ts: seq<Token>, before: string, after: string)
    requires Lexed(ts) && BraceFree(after)
    ensures Lexed(RenameTags(ts, before, after))
  {
  }

  lemma KeywordsAreGood()
    ensures GoodKeywords(KEYWORDS)
  {
  }

  lemma LexedConcat(a: seq<Token>, b: seq<Token>)
    ensures Lexed(a) && Lexed(b) ==> Lexed(a + b)
  {
  }

  lemma {:induction false} CopiesPrint(body: seq<Token>, name: string, first: nat, times: nat)
    requires Lexed(body) && BraceFree(name) && first <= times
    ensures Lexed(CopyTags(body, name, first, times))
    ensures CopyText(Print(body), name, first, times) == Print(CopyTags(body, name, first, times))
    decreases times - first
  {
    if first < times {
      hide NumberTags, NumberText, Lexed, GoodKeywords;
      KeywordsAreGood();
      NumberedTagsAreLexed(body, KEYWORDS, name, first);
      CopiesPrint(body, name, first + 1, times);
      LexedConcat(NumberTags(body, KEYWORDS, name, first), CopyTags(body, name, first + 1, times));
      PrintConcat(NumberTags(body, KEYWORDS, name, first), CopyTags(body, name, first + 1, times));
    }
  }

  // ---------- Counting tags ----------

  function CountTag(ts: seq<Token>, content: string): (n: nat)
  {
    if ts == [] then 0 else (if ts[0] == Tag(content) then 1 else 0) + CountTag(ts[1..], content)
  }

  lemma {:induction false} CountTagConcat(a: seq<Token>, b: seq<Token>, content: string)
    ensures CountTag(a + b, content) == CountTag(a, content) + CountTag(b, content)
  {
    if a == [] {
      assert a + b == b;
    } else {
      assert (a + b)[1..] == a[1..] + b;
      CountTagConcat(a[1..], b, content);
    }
  }

  predicate Without(ts: seq<Token>, content: string) {
    forall i :: 0 <= i < |ts| ==> ts[i] != Tag(content)
  }

  lemma {:induction false} WithoutMeansZero(ts: seq<Token>, content: string)
    ensures Without(ts, content) <==> CountTag(ts, content) == 0
  {
    if ts != [] {
      WithoutMeansZero(ts[1..], content);
      if Without(ts[1..], content) && ts[0] != Tag(content) {
        forall i | 0 <= i < |ts|
          ensures ts[i] != Tag(content)
        {
          assert i > 0 ==> ts[i] == ts[1..][i - 1];
        }
      } else if !Without(ts[1..], content) {
        var i :| 0 <= i < |ts[1..]| && ts[1..][i] == Tag(content);
        assert ts[i + 1] == Tag(content);
      }
    }
  }

  /** Numbering never produces a start, else or end tag of the loop itself. */
  lemma RenameMakesNone(t: Token, keyword: string, target: string, name: string, i: nat)
    requires keyword in KEYWORDS && target in KEYWORDS[1..] && t != Tag(target + name)
    ensures RenameTag(t, Before(keyword, name), After(keyword, name, i)) != Tag(target + name)
  {
    var before, after := Before(keyword, name), After(keyword, name, i);
    if t.Tag? && before <= t.content {
      var c := after + t.content[|before|..];
      KeywordCases(keyword);
      KeywordLetters(target);
      var n := |name|;
      if keyword == "" {
        assert c[n] == Number(i)[0] && name <= c;
        if name <= target + name {
          BehindName(target, name);
        }
      } else if keyword == target {
        assert |c| > |target + name|;
      } else {
        var k := KeywordsDiffer(keyword, target);
        assert c[k] == keyword[k] && (target + name)[k] == target[k];
      }
    }
  }

  lemma {:induction false} NumberingMakesNone(
      ts: seq<Token>, keywords: seq<string>, target: string, name: string, i: nat)
    requires target in KEYWORDS[1..] && Without(ts, target + name)
    requires forall k :: 0 <= k < |keywords| ==> keywords[k] in KEYWORDS
    ensures Without(NumberTags(ts, keywords, name, i), target + name)
    decreases |keywords|
  {
    if keywords != [] {
      var keyword := keywords[0];
      assert keyword in KEYWORDS;
      var next := RenameTags(ts, Before(keyword, name), After(keyword, name, i));
      forall k | 0 <= k < |next|
        ensures next[k] != Tag(target + name)
      {
        RenameMakesNone(ts[k], keyword, target, name, i);
      }
      NumberingMakesNone(next, keywords[1..], target, name, i);
    }
  }

  lemma {:induction false} CopiesHaveNone(body: seq<Token>, target: string, name: string, first: nat, times: nat)
    requires target in KEYWORDS[1..] && Without(body, target + name) && first <= times
    ensures Without(CopyTags(body, name, first, times), target + name)
    decreases times - first
  {
    hide NumberTags;
    if first < times {
      NumberingMakesNone(body, KEYWORDS, target, name, first);
      CopiesHaveNone(body, target, name, first + 1, times);
    }
  }

  lemma KeywordsOfKinds(kind: Kind)
    ensures kind.Keyword() in KEYWORDS[1..] && "else " in KEYWORDS[1..] && "end " in KEYWORDS[1..]
  {
    assert KEYWORDS[1..] == ["if ", "ifnot ", "else ", "end ", "loop "];
  }

  // ---------- The loop on tokens ----------

  datatype Result = Done(ts: seq<Token>, count: nat) | Stuck

  function Prepend(ts: seq<Token>, count: nat, r: Result): Result {
    if r.Stuck? then Stuck else Done(ts + r.ts, count + r.count)
  }

  function Expand(choice: Choice, name: string, body: seq<Token>, els: seq<Token>): seq<Token> {
    match choice
    case Take(takeBody) => if takeBody then body else els
    case Repeat(times) => if times > 0 then CopyTags(body, name, 0, times) else els
  }

  /** What replaces the construct whose inside and tail are `rest`. */
  function Part(rest: seq<Token>, name: string, choice: Choice): seq<Token>
    requires FindTag(rest, End(name)) != -1
  {
    var end, ellse := FindTag(rest, End(name)), FindTag(rest, Else(name));
    if 0 <= ellse < end then Expand(choice, name, rest[..ellse], rest[ellse + 1..end])
    else Expand(choice, name, rest[..end], [])
  }

  lemma PartHasNoEnd(rest: seq<Token>, name: string, choice: Choice)
    requires BraceFree(name) && FindTag(rest, End(name)) != -1
    ensures CountTag(Part(rest, name, choice), End(name)) == 0
    ensures CountTag(Part(rest, name, choice) + rest[FindTag(rest, End(name)) + 1..], End(name))
          < CountTag(rest, End(name))
  {
    hide CountTag, FindTag, Without, Part;
    var content := End(name);
    var end := FindTag(rest, content);
    var part, tail := Part(rest, name, choice), rest[end + 1..];
    assert CountTag(part, content) == 0 by { PartWithoutEnd(rest, name, choice); }
    CountTagConcat(part, tail, content);
    CountTagConcat(rest[..end + 1], tail, content);
    assert rest == rest[..end + 1] + tail;
    assert CountTag(rest[..end + 1], content) != 0 by {
      WithoutMeansZero(rest[..end + 1], content);
      FoundTag(rest, content);
    }
  }

  lemma FoundTag(ts: seq<Token>, content: string)
    requires FindTag(ts, content) != -1
    ensures !Without(ts[..FindTag(ts, content) + 1], content)
  {
    var r := FindTag(ts, content);
    assert ts[..r + 1][r] == Tag(content);
  }

  lemma PartWithoutEnd(rest: seq<Token>, name: string, choice: Choice)
    requires BraceFree(name) && FindTag(rest, End(name)) != -1
    ensures CountTag(Part(rest, name, choice), End(name)) == 0
  {
    hide CountTag, FindTag, Expand, Without;
    var end, ellse := FindTag(rest, End(name)), FindTag(rest, Else(name));
    BeforeFoundTag(rest, End(name));
    if 0 <= ellse < end {
      ExpandWithoutEnd(choice, name, rest[..ellse], rest[ellse + 1..end]);
    } else {
      assert rest[end..end] == [];
      ExpandWithoutEnd(choice, name, rest[..end], []);
    }
  }

  lemma BeforeFoundTag(ts: seq<Token>, content: string)
    requires FindTag(ts, content) != -1
    ensures forall i, j :: 0 <= i <= j <= FindTag(ts, content) ==> Without(ts[i..j], content)
    ensures forall j :: 0 <= j <= FindTag(ts, content) ==> Without(ts[..j], content)
  {
  }

  lemma ExpandWithoutEnd(choice: Choice, name: string, body: seq<Token>, els: seq<Token>)
    requires BraceFree(name) && Without(body, End(name)) && Without(els, End(name))
    ensures CountTag(Expand(choice, name, body, els), End(name)) == 0
  {
    hide CopyTags;
    if choice.Repeat? {
      KeywordsOfKinds(Loop);
      CopiesHaveNone(body, "end ", name, 0, choice.times);
    }
    WithoutMeansZero(Expand(choice, name, body, els), End(name));
  }

  /** Replaces every construct of this kind and name; `Stuck` when a start tag has no end tag behind it. */
  function Pass(ts: seq<Token>, kind: Kind, name: string, choice: Choice): Result
    requires BraceFree(name)
    decreases CountTag(ts, End(name)), |ts|
  {
    if ts == [] then Done([], 0)
    else if ts[0] != Tag(Opener(kind, name)) then Prepend([ts[0]], 0, Pass(ts[1..], kind, name, choice))
    else
      var rest := ts[1..];
      var end := FindTag(rest, End(name));
      if end == -1 then Stuck
      else
        PartHasNoEnd(rest, name, choice);
        Prepend([], 1, Pass(Part(rest, name, choice) + rest[end + 1..], kind, name, choice))
  }

  lemma PassAtFirst(ts: seq<Token>, kind: Kind, name: string, choice: Choice)
    requires BraceFree(name) && ts != [] && ts[0] == Tag(Opener(kind, name))
    ensures var e := FindTag(ts[1..], End(name));
      Pass(ts, kind, name, choice) ==
        if e == -1 then Stuck
        else Prepend([], 1, Pass(Part(ts[1..], name, choice) + ts[1..][e + 1..], kind, name, choice))
  {
    hide Part, FindTag, CountTag, Prepend, Opener, End;
  }

  lemma PrependTwice(a: seq<Token>, m: nat, b: seq<Token>, n: nat, r: Result)
    ensures Prepend(a, m, Prepend(b, n, r)) == Prepend(a + b, m + n, r)
  {
    if r.Done? {
      assert a + (b + r.ts) == a + b + r.ts;
    }
  }

  lemma {:induction false} PassSkips(pre: seq<Token>, ts: seq<Token>, kind: Kind, name: string, choice: Choice)
    requires BraceFree(name) && Without(pre, Opener(kind, name))
    ensures Pass(pre + ts, kind, name, choice) == Prepend(pre, 0, Pass(ts, kind, name, choice))
    decreases |pre|
  {
    hide Part, CountTag, FindTag;
    var r := Pass(ts, kind, name, choice);
    if pre == [] {
      assert pre + ts == ts;
      assert r.Done? ==> [] + r.ts == r.ts;
    } else {
      assert (pre + ts)[1..] == pre[1..] + ts;
      PassSkips(pre[1..], ts, kind, name, choice);
      PrependTwice([pre[0]], 0, pre[1..], 0, r);
      assert [pre[0]] + pre[1..] == pre;
    }
  }

  // ---------- The loop on the string ----------

  /** The template text, the position of the next start tag (-1: none) and the constructs replaced so far. */
  datatype Scan = Scan(text: string, start: int, count: nat)

  /** `mid` of the library: a negative or too large length means up to the end. */
  function Mid(s: string, position: nat, length: int): string {
    if position > |s| then ""
    else if length < 0 || position + length > |s| then s[position..]
    else s[position..position + length]
  }

  function Replacement(choice: Choice, name: string, body: string, els: string): string {
    match choice
    case Take(takeBody) => if takeBody then body else els
    case Repeat(times) => if times > 0 then CopyText(body, name, 0, times) else els
  }

  /** The text that replaces the construct between `start` and the end tag at `end`. */
  function InsertMe(text: string, start: nat, end: nat, kind: Kind, name: string, choice: Choice): string {
    var behind := start + |Tag(Opener(kind, name)).Print()|;
    var elseTag := Tag(Else(name)).Print();
    var ellse := IndexOf(text, elseTag, behind);
    if start < ellse < end then
      Replacement(choice, name, Mid(text, behind, ellse - behind),
                  Mid(text, ellse + |elseTag|, end - ellse - |elseTag|))
    else
      Replacement(choice, name, Mid(text, behind, end - behind), "")
  }

  /** One iteration of the loop; a missing end tag only draws a warning. */
  function Iteration(sc: Scan, kind: Kind, name: string, choice: Choice): Scan
    requires 0 <= sc.start <= |sc.text|
  {
    var startTag, endTag := Tag(Opener(kind, name)).Print(), Tag(End(name)).Print();
    var text, start := sc.text, sc.start;
    var end := IndexOf(text, endTag, start + |startTag|);
    if end < 0 then sc
    else
      var text' := text[..start] + InsertMe(text, start, end, kind, name, choice) + text[end + |endTag|..];
      Scan(text', IndexOf(text', startTag, start), sc.count + 1)
  }

  /** The loop stands behind `done` with `rest` still to be searched. */
  ghost predicate StandsAt(sc: Scan, done: seq<Token>, rest: seq<Token>, kind: Kind, name: string) {
    && Lexed(done) && Lexed(rest)
    && sc.text == Print(done) + Print(rest)
    && sc.start == IndexOf(sc.text, Tag(Opener(kind, name)).Print(), |Print(done)|)
  }

  lemma StartOfRest(sc: Scan, done: seq<Token>, rest: seq<Token>, kind: Kind, name: string)
    requires BraceFree(name) && StandsAt(sc, done, rest, kind, name)
    ensures var k := FindTag(rest, Opener(kind, name));
      sc.start == if k == -1 then -1 else |Print(done)| + |Print(rest[..k])|
  {
    hide Token.Print, Print, IndexOf, MatchesAt, FindTag, Lexed, BraceFree;
    IndexOfInSuffix(Print(done), Print(rest), Tag(Opener(kind, name)).Print(), 0);
    NamesAreBraceFree(name);
    IndexOfTag(rest, Opener(kind, name));
  }

  /** Positions in a printed template that is split at a tag. */
  lemma SearchBehind(pre: seq<Token>, t: Token, rest: seq<Token>, content: string)
    requires Lexed(rest) && BraceFree(content)
    ensures var text := Print(pre) + t.Print() + Print(rest);
      var k := FindTag(rest, content);
      IndexOf(text, Tag(content).Print(), |Print(pre)| + |t.Print()|)
        == if k == -1 then -1 else |Print(pre)| + |t.Print()| + |Print(rest[..k])|
  {
    hide Token.Print, Print, IndexOf, MatchesAt, FindTag, Lexed, BraceFree;
    IndexOfInSuffix(Print(pre) + t.Print(), Print(rest), Tag(content).Print(), 0);
    IndexOfTag(rest, content);
  }

  /** Cutting the printed template between two tokens. */
  lemma CutPrint(ts: seq<Token>, i: nat, j: nat)
    requires i <= j <= |ts|
    ensures |Print(ts[..i])| <= |Print(ts[..j])| <= |Print(ts)|
    ensures Print(ts)[|Print(ts[..i])|..|Print(ts[..j])|] == Print(ts[i..j])
    ensures Print(ts)[|Print(ts[..j])|..] == Print(ts[j..])
  {
    assert ts == ts[..i] + ts[i..j] + ts[j..];
    PrintConcat(ts[..i] + ts[i..j], ts[j..]);
    PrintConcat(ts[..i], ts[i..j]);
    assert ts[..j] == ts[..i] + ts[i..j];
  }

  lemma PrintOne(t: Token)
    ensures Print([t]) == t.Print()
  {
    assert [t][1..] == [];
  }

  lemma ExpandPrints(choice: Choice, name: string, body: seq<Token>, els: seq<Token>)
    requires Lexed(body) && Lexed(els) && BraceFree(name)
    ensures Lexed(Expand(choice, name, body, els))
    ensures Replacement(choice, name, Print(body), Print(els)) == Print(Expand(choice, name, body, els))
  {
    if choice.Repeat? {
      CopiesPrint(body, name, 0, choice.times);
    }
  }

  lemma CutBehindTag(p: string, s: string, i: string, a: nat, b: nat)
    requires a <= b <= |i|
    ensures Mid(p + s + i, |p| + |s| + a, b - a) == i[a..b]
    ensures (p + s + i)[..|p|] == p && (p + s + i)[|p| + |s| + b..] == i[b..]
  {
    var text := p + s + i;
    assert text[|p| + |s| + a..|p| + |s| + b] == i[a..b];
  }

  /** A tag at position `i` of the tokens takes its place in the printed template. */
  lemma TagInPrint(ts: seq<Token>, i: nat, content: string)
    requires i < |ts| && ts[i] == Tag(content)
    ensures |Print(ts[..i + 1])| == |Print(ts[..i])| + |Tag(content).Print()| <= |Print(ts)|
  {
    assert ts[..i + 1] == ts[..i] + [ts[i]];
    PrintConcat(ts[..i], [ts[i]]);
    PrintOne(ts[i]);
    CutPrint(ts, i, i + 1);
  }

  lemma TagsInOrder(ts: seq<Token>, i: nat, j: nat, content: string)
    requires i < j <= |ts| && ts[i] == Tag(content)
    ensures |Print(ts[..i])| < |Print(ts[..i + 1])| <= |Print(ts[..j])|
  {
    TagInPrint(ts, i, content);
    assert ts[..j][..i + 1] == ts[..i + 1];
    CutPrint(ts[..j], i + 1, j - 0);
  }

  lemma InsertMeIsPartWithElse(pre: seq<Token>, inside: seq<Token>, kind: Kind, name: string, choice: Choice)
    requires Lexed(inside) && BraceFree(name) && FindTag(inside, End(name)) != -1
    requires 0 <= FindTag(inside, Else(name)) < FindTag(inside, End(name))
    ensures var startTag := Tag(Opener(kind, name)).Print();
      InsertMe(Print(pre) + startTag + Print(inside), |Print(pre)|,
               |Print(pre)| + |startTag| + |Print(inside[..FindTag(inside, End(name))])|, kind, name, choice)
      == Print(Part(inside, name, choice))
    ensures Lexed(Part(inside, name, choice))
  {
    hide Token.Print, Lexed, Print, Expand, Replacement, FindTag, BraceFree, IndexOf, MatchesAt, Mid, InsertMe,
         Opener, Else, End;
    var startTag := Tag(Opener(kind, name));
    var e, l := FindTag(inside, End(name)), FindTag(inside, Else(name));
    var p, s := Print(pre), startTag.Print();
    NamesAreBraceFree(name);
    TagNotEmpty(Opener(kind, name));
    SearchBehind(pre, startTag, inside, Else(name));
    assert |Print(inside[..l])| < |Print(inside[..e])| by { TagsInOrder(inside, l, e, Else(name)); }
    PartsWithElse(p, s, inside, l, e, name);
    ReplacedWithElse(p + s + Print(inside), |p|, |p| + |s|, inside, l, e, kind, name, choice);
  }

  lemma InsertMeIsPartWithoutElse(pre: seq<Token>, inside: seq<Token>, kind: Kind, name: string, choice: Choice)
    requires Lexed(inside) && BraceFree(name) && FindTag(inside, End(name)) != -1
    requires !(0 <= FindTag(inside, Else(name)) < FindTag(inside, End(name)))
    ensures var startTag := Tag(Opener(kind, name)).Print();
      InsertMe(Print(pre) + startTag + Print(inside), |Print(pre)|,
               |Print(pre)| + |startTag| + |Print(inside[..FindTag(inside, End(name))])|, kind, name, choice)
      == Print(Part(inside, name, choice))
    ensures Lexed(Part(inside, name, choice))
  {
    hide Token.Print, Lexed, Print, Expand, Replacement, FindTag, BraceFree, IndexOf, MatchesAt, Mid, InsertMe,
         Opener, Else, End;
    var startTag := Tag(Opener(kind, name));
    var e, l := FindTag(inside, End(name)), FindTag(inside, Else(name));
    var p, s := Print(pre), startTag.Print();
    NamesAreBraceFree(name);
    SearchBehind(pre, startTag, inside, Else(name));
    assert e < l ==> |Print(inside[..e])| < |Print(inside[..l])| by {
      if e < l {
        TagsInOrder(inside, e, l, End(name));
      }
    }
    PartWithoutElse(p, s, inside, e);
    ReplacedWithoutElse(p + s + Print(inside), |p|, |p| + |s|, inside, e, kind, name, choice);
  }

  /** What is inserted for the construct that begins behind `pre` is its part on tokens. */
  lemma InsertMeIsPart(pre: seq<Token>, inside: seq<Token>, kind: Kind, name: string, choice: Choice)
    requires Lexed(inside) && BraceFree(name) && FindTag(inside, End(name)) != -1
    ensures var startTag := Tag(Opener(kind, name)).Print();
      InsertMe(Print(pre) + startTag + Print(inside), |Print(pre)|,
               |Print(pre)| + |startTag| + |Print(inside[..FindTag(inside, End(name))])|, kind, name, choice)
      == Print(Part(inside, name, choice))
    ensures Lexed(Part(inside, name, choice))
  {
    hide Token.Print, Lexed, Print, Expand, Replacement, FindTag, BraceFree, IndexOf, MatchesAt, Mid, InsertMe,
         Opener, Else, End;
    if 0 <= FindTag(inside, Else(name)) < FindTag(inside, End(name)) {
      InsertMeIsPartWithElse(pre, inside, kind, name, choice);
    } else {
      InsertMeIsPartWithoutElse(pre, inside, kind, name, choice);
    }
  }

  lemma ReplacedWithElse(text: string, start: nat, behind: nat, inside: seq<Token>, l: nat, e: nat,
                         kind: Kind, name: string, choice: Choice)
    requires Lexed(inside) && BraceFree(name) && l < e <= |inside|
    requires start < behind == start + |Tag(Opener(kind, name)).Print()|
    requires |Print(inside[..l])| < |Print(inside[..e])|
    requires var elseTag, a, b := Tag(Else(name)).Print(), |Print(inside[..l])|, |Print(inside[..e])|;
      && IndexOf(text, elseTag, behind) == behind + a
      && Mid(text, behind, a) == Print(inside[..l])
      && Mid(text, behind + a + |elseTag|, b - a - |elseTag|) == Print(inside[l + 1..e])
    ensures var part := Expand(choice, name, inside[..l], inside[l + 1..e]);
      && InsertMe(text, start, behind + |Print(inside[..e])|, kind, name, choice) == Print(part)
      && Lexed(part)
  {
    hide Token.Print, Lexed, Print, Expand, Replacement, BraceFree, IndexOf, Mid, InsertMe, Opener, Else;
    var a, b := |Print(inside[..l])|, |Print(inside[..e])|;
    SlicesLexed(inside, l, e);
    ExpandPrints(choice, name, inside[..l], inside[l + 1..e]);
    InsertMeWithElse(text, start, behind + b, kind, name, choice, behind + a);
  }

  lemma ReplacedWithoutElse(text: string, start: nat, behind: nat, inside: seq<Token>, e: nat,
                            kind: Kind, name: string, choice: Choice)
    requires Lexed(inside) && BraceFree(name) && e <= |inside|
    requires behind == start + |Tag(Opener(kind, name)).Print()|
    requires var ellse, b := IndexOf(text, Tag(Else(name)).Print(), behind), |Print(inside[..e])|;
      && (ellse == -1 || ellse >= behind + b)
      && Mid(text, behind, b) == Print(inside[..e])
    ensures var part := Expand(choice, name, inside[..e], []);
      && InsertMe(text, start, behind + |Print(inside[..e])|, kind, name, choice) == Print(part)
      && Lexed(part)
  {
    hide Token.Print, Lexed, Print, Expand, Replacement, BraceFree, IndexOf, Mid, InsertMe, Opener, Else;
    var b := |Print(inside[..e])|;
    SlicesLexed(inside, 0, e);
    EmptyPrint(inside);
    ExpandPrints(choice, name, inside[..e], []);
    InsertMeWithoutElse(text, start, behind + b, kind, name, choice);
  }

  lemma InsertMeWithElse(text: string, start: nat, end: nat, kind: Kind, name: string, choice: Choice, ellse: nat)
    requires var behind := start + |Tag(Opener(kind, name)).Print()|;
      IndexOf(text, Tag(Else(name)).Print(), behind) == ellse && start < ellse < end
    ensures var behind, elseTag := start + |Tag(Opener(kind, name)).Print()|, Tag(Else(name)).Print();
      InsertMe(text, start, end, kind, name, choice)
      == Replacement(choice, name, Mid(text, behind, ellse - behind),
                     Mid(text, ellse + |elseTag|, end - ellse - |elseTag|))
  {
    hide Replacement, Mid, Token.Print;
  }

  lemma InsertMeWithoutElse(text: string, start: nat, end: nat, kind: Kind, name: string, choice: Choice)
    requires var behind := start + |Tag(Opener(kind, name)).Print()|;
      !(start < IndexOf(text, Tag(Else(name)).Print(), behind) < end)
    ensures var behind := start + |Tag(Opener(kind, name)).Print()|;
      InsertMe(text, start, end, kind, name, choice) == Replacement(choice, name, Mid(text, behind, end - behind), "")
  {
    hide Replacement, Mid, Token.Print;
  }

  lemma PartsWithElse(p: string, s: string, inside: seq<Token>, l: nat, e: nat, name: string)
    requires l < e < |inside| && inside[l] == Tag(Else(name))
    ensures var text, elseTag := p + s + Print(inside), Tag(Else(name)).Print();
      var a, b := |Print(inside[..l])|, |Print(inside[..e])|;
      && Mid(text, |p| + |s|, a) == Print(inside[..l])
      && Mid(text, |p| + |s| + a + |elseTag|, b - a - |elseTag|) == Print(inside[l + 1..e])
  {
    hide Token.Print, Mid, Print;
    var i := Print(inside);
    TagsInOrder(inside, l, e, Else(name));
    TagInPrint(inside, l, Else(name));
    CutPrint(inside, 0, l);
    EmptyPrint(inside);
    assert inside[0..l] == inside[..l];
    CutBehindTag(p, s, i, 0, |Print(inside[..l])|);
    CutPrint(inside, l + 1, e);
    CutBehindTag(p, s, i, |Print(inside[..l + 1])|, |Print(inside[..e])|);
  }

  lemma PartWithoutElse(p: string, s: string, inside: seq<Token>, e: nat)
    requires e < |inside|
    ensures Mid(p + s + Print(inside), |p| + |s|, |Print(inside[..e])|) == Print(inside[..e])
  {
    hide Mid, Print;
    CutPrint(inside, 0, e);
    EmptyPrint(inside);
    assert inside[0..e] == inside[..e];
    CutBehindTag(p, s, Print(inside), 0, |Print(inside[..e])|);
  }

  lemma IterationUnfolded(sc: Scan, kind: Kind, name: string, choice: Choice)
    requires 0 <= sc.start <= |sc.text|
    ensures var startTag, endTag := Tag(Opener(kind, name)).Print(), Tag(End(name)).Print();
      var end := IndexOf(sc.text, endTag, sc.start + |startTag|);
      var next := Iteration(sc, kind, name, choice);
      if end < 0 then next == sc
      else
        && end + |endTag| <= |sc.text|
        && next.text == sc.text[..sc.start] + InsertMe(sc.text, sc.start, end, kind, name, choice)
                                            + sc.text[end + |endTag|..]
        && next.start == IndexOf(next.text, startTag, sc.start)
        && next.count == sc.count + 1
  {
    hide InsertMe, Token.Print;
  }

  lemma IterationOnStrings(p: string, s: string, i: string, b: nat, count: nat, kind: Kind, name: string,
          choice: Choice)
    requires s == Tag(Opener(kind, name)).Print() && b + |Tag(End(name)).Print()| <= |i|
    requires IndexOf(p + s + i, Tag(End(name)).Print(), |p| + |s|) == |p| + |s| + b
    ensures var before := Scan(p + s + i, |p|, count);
      var after := Iteration(before, kind, name, choice);
      && after.text == p + InsertMe(p + s + i, |p|, |p| + |s| + b, kind, name, choice)
                         + i[b + |Tag(End(name)).Print()|..]
      && after.start == IndexOf(after.text, s, |p|)
      && after.count == count + 1
  {
    hide Token.Print, IndexOf, MatchesAt, InsertMe, Mid, Iteration, Opener, End;
    IterationUnfolded(Scan(p + s + i, |p|, count), kind, name, choice);
    CutBehindTag(p, s, i, 0, b + |Tag(End(name)).Print()|);
  }

  /** One iteration replaces the construct that begins behind `pre`, and goes on searching there. */
  lemma IterationOnTokens(pre: seq<Token>, inside: seq<Token>, count: nat, kind: Kind, name: string, choice: Choice)
    requires Lexed(inside) && BraceFree(name)
    ensures var startTag := Tag(Opener(kind, name)).Print();
      var e := FindTag(inside, End(name));
      var before := Scan(Print(pre) + startTag + Print(inside), |Print(pre)|, count);
      var after := Iteration(before, kind, name, choice);
      if e == -1 then after == before
      else
        && Lexed(Part(inside, name, choice))
        && after.text == Print(pre) + Print(Part(inside, name, choice)) + Print(inside[e + 1..])
        && after.start == IndexOf(after.text, startTag, |Print(pre)|)
        && after.count == count + 1
  {
    hide Token.Print, Lexed, Print, Part, FindTag, BraceFree, IndexOf, MatchesAt, InsertMe, Mid, Iteration, Opener,
        Else, End;
    var startTag := Tag(Opener(kind, name));
    var e := FindTag(inside, End(name));
    NamesAreBraceFree(name);
    SearchBehind(pre, startTag, inside, End(name));
    if e == -1 {
      IterationUnfolded(Scan(Print(pre) + startTag.Print() + Print(inside), |Print(pre)|, count), kind, name, choice);
    } else {
      InsertMeIsPart(pre, inside, kind, name, choice);
      TagInPrint(inside, e, End(name));
      CutPrint(inside, 0, e + 1);
      IterationOnStrings(Print(pre), startTag.Print(), Print(inside), |Print(inside[..e])|, count, kind, name, choice);
    }
  }

  lemma NamesAreBraceFree(name: string)
    requires BraceFree(name)
    ensures BraceFree(End(name)) && BraceFree(Else(name))
    ensures forall kind :: BraceFree(Opener(kind, name))
    ensures End(name) != Else(name)
  {
    assert End(name)[1] == 'n' && Else(name)[1] == 'l';
  }

  lemma TagNotEmpty(content: string)
    ensures |Tag(content).Print()| > 0
  {
  }

  lemma EmptyPrint(ts: seq<Token>)
    ensures Print(ts[..0]) == "" && Print([]) == "" && Lexed([])
  {
  }

  lemma SlicesLexed(ts: seq<Token>, l: nat, e: nat)
    requires Lexed(ts) && l <= e <= |ts|
    ensures Lexed(ts[..l]) && Lexed(ts[..e]) && Lexed(ts[e..])
    ensures l < e ==> Lexed(ts[l + 1..e])
    ensures e < |ts| ==> Lexed(ts[e + 1..])
  {
  }
}
