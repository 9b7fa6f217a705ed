/** The template class: its loops refine the rewriting of tokens. */
module TemplateEngine {
  import opened Strings
  import opened TemplateTokens
  import opened TemplatePass

  function Start(ts: seq<Token>, kind: Kind, name: string): Scan {
    Scan(Print(ts), IndexOf(Print(ts), Tag(Opener(kind, name)).Print(), 0), 0)
  }

  lemma StartStands(ts: seq<Token>, kind: Kind, name: string)
    requires Lexed(ts)
    ensures StandsAt(Start(ts, kind, name), [], ts, kind, name)
  {
    assert "" + Print(ts) == Print(ts);
  }

  lemma NoOpenerLeft(rest: seq<Token>, kind: Kind, name: string, choice: Choice)
    requires BraceFree(name) && FindTag(rest, Opener(kind, name)) == -1
    ensures Pass(rest, kind, name, choice) == Done(rest, 0)
  {
    PassSkips(rest, [], kind, name, choice);
    assert rest + [] == rest;
  }

  /** The tokens behind the first opener of `rest`. */
  function Inside(rest: seq<Token>, kind: Kind, name: string): seq<Token>
    requires FindTag(rest, Opener(kind, name)) != -1
  {
    rest[FindTag(rest, Opener(kind, name)) + 1..]
  }

  /** What is searched after the construct has been replaced. */
  function NextRest(inside: seq<Token>, name: string, choice: Choice): seq<Token>
    requires FindTag(inside, End(name)) != -1
  {
    Part(inside, name, choice) + inside[FindTag(inside, End(name)) + 1..]
  }

  lemma PassAtOpener(rest: seq<Token>, kind: Kind, name: string, choice: Choice)
    requires BraceFree(name) && FindTag(rest, Opener(kind, name)) != -1
    ensures var k := FindTag(rest, Opener(kind, name));
      var inside := Inside(rest, kind, name);
      && rest == rest[..k] + ([Tag(Opener(kind, name))] + inside)
      && (if FindTag(inside, End(name)) == -1 then Pass(rest, kind, name, choice) == Stuck
          else
            && Pass(rest, kind, name, choice)
                  == Prepend(rest[..k], 1, Pass(NextRest(inside, name, choice), kind, name, choice))
            && CountTag(NextRest(inside, name, choice), End(name)) < CountTag(rest, End(name)))
  {
    hide FindTag, Part, CountTag, Pass, Without, BraceFree;
    var k := FindTag(rest, Opener(kind, name));
    var opener, inside := Tag(Opener(kind, name)), Inside(rest, kind, name);
    BeforeFoundTag(rest, Opener(kind, name));
    assert rest == rest[..k] + ([opener] + inside);
    PassSkips(rest[..k], [opener] + inside, kind, name, choice);
    assert ([opener] + inside)[1..] == inside;
    PassAtFirst([opener] + inside, kind, name, choice);
    if FindTag(inside, End(name)) != -1 {
      PartHasNoEnd(inside, name, choice);
      PrependTwice(rest[..k], 0, [], 1, Pass(NextRest(inside, name, choice), kind, name, choice));
      assert rest[..k] + [] == rest[..k];
      CountTagConcat(rest[..k], [opener] + inside, End(name));
      CountTagConcat([opener], inside, End(name));
    }
  }

  /** One iteration on the string is one replacement on tokens; without an end tag it changes nothing. */
  lemma IterationStep(sc: Scan, done: seq<Token>, rest: seq<Token>, kind: Kind, name: string, choice: Choice)
    requires BraceFree(name) && StandsAt(sc, done, rest, kind, name)
    requires FindTag(rest, Opener(kind, name)) != -1
    ensures 0 <= sc.start <= |sc.text|
    ensures var k, inside := FindTag(rest, Opener(kind, name)), Inside(rest, kind, name);
      var next := Iteration(sc, kind, name, choice);
      if FindTag(inside, End(name)) == -1 then next == sc
      else
        && StandsAt(next, done + rest[..k], NextRest(inside, name, choice), kind, name)
        && next.count == sc.count + 1
  {
    hide FindTag, Part, Pass, IndexOf, MatchesAt, Token.Print, Print, Iteration, BraceFree, Lexed, Inside, StandsAt;
    var k, inside := FindTag(rest, Opener(kind, name)), Inside(rest, kind, name);
    StandingText(sc, done, rest, kind, name);
    IterationOnTokens(done + rest[..k], inside, sc.count, kind, name, choice);
    if FindTag(inside, End(name)) != -1 {
      StandingNext(done + rest[..k], inside, kind, name, choice, Iteration(sc, kind, name, choice));
    }
  }

  /** Where the loop stands, as a prefix, the opener and the rest. */
  lemma StandingText(sc: Scan, done: seq<Token>, rest: seq<Token>, kind: Kind, name: string)
    requires BraceFree(name) && StandsAt(sc, done, rest, kind, name) && FindTag(rest, Opener(kind, name)) != -1
    ensures var pre, inside := done + rest[..FindTag(rest, Opener(kind, name))], Inside(rest, kind, name);
      && sc.text == Print(pre) + Tag(Opener(kind, name)).Print() + Print(inside)
      && sc.start == |Print(pre)| <= |sc.text|
      && Lexed(pre) && Lexed(inside)
  {
    hide FindTag, IndexOf, MatchesAt, Token.Print, Print, BraceFree, Lexed;
    var k, inside := FindTag(rest, Opener(kind, name)), Inside(rest, kind, name);
    var opener := Tag(Opener(kind, name));
    StartOfRest(sc, done, rest, kind, name);
    assert rest == rest[..k] + ([opener] + inside);
    TextAtOpener(done, rest[..k], opener, inside);
    SlicesLexed(rest, 0, k);
    LexedConcat(done, rest[..k]);
  }

  lemma StandingNext(pre: seq<Token>, inside: seq<Token>, kind: Kind, name: string, choice: Choice, next: Scan)
    requires Lexed(pre) && Lexed(inside) && FindTag(inside, End(name)) != -1 && Lexed(Part(inside, name, choice))
    requires next.text == Print(pre) + Print(Part(inside, name, choice))
                                     + Print(inside[FindTag(inside, End(name)) + 1..])
    requires next.start == IndexOf(next.text, Tag(Opener(kind, name)).Print(), |Print(pre)|)
    ensures StandsAt(next, pre, NextRest(inside, name, choice), kind, name)
  {
    hide FindTag, Part, IndexOf, MatchesAt, Token.Print, Print, Lexed;
    var part, tail := Part(inside, name, choice), inside[FindTag(inside, End(name)) + 1..];
    PrintConcat(part, tail);
    SlicesLexed(inside, 0, FindTag(inside, End(name)));
    LexedConcat(part, tail);
    assert Print(pre) + Print(part) + Print(tail) == Print(pre) + (Print(part) + Print(tail));
  }

  lemma TextAtOpener(done: seq<Token>, skipped: seq<Token>, opener: Token, inside: seq<Token>)
    ensures Print(done + skipped) == Print(done) + Print(skipped)
    ensures Print(done) + Print(skipped + ([opener] + inside)) == Print(done + skipped) + opener.Print() + Print(inside)
  {
    hide Token.Print, Print;
    PrintConcat(skipped, [opener] + inside);
    PrintConcat([opener], inside);
    PrintOne(opener);
    PrintConcat(done, skipped);
  }

  // ---------- When the loop terminates ----------

  /** The state of the loop after at most `n` iterations. */
  function Iterate(sc: Scan, kind: Kind, name: string, choice: Choice, n: nat): Scan
    decreases n
  {
    if n == 0 || !(0 <= sc.start <= |sc.text|) then sc
    else Iterate(Iteration(sc, kind, name, choice), kind, name, choice, n - 1)
  }

  /** After some number of iterations no start tag is found any more. */
  ghost predicate Ends(sc: Scan, kind: Kind, name: string, choice: Choice) {
    exists n :: Iterate(sc, kind, name, choice, n).start < 0
  }

  lemma PrintInThree(a: seq<Token>, b: seq<Token>, c: seq<Token>)
    ensures Print(a + b) + Print(c) == Print(a) + Print(b + c)
  {
    hide Print;
    PrintConcat(a, b);
    PrintConcat(b, c);
  }

  lemma {:induction false} DoneTerminates(
      sc: Scan, done: seq<Token>, rest: seq<Token>, kind: Kind, name: string, choice: Choice) returns (n: nat)
    requires BraceFree(name) && StandsAt(sc, done, rest, kind, name)
    requires Pass(rest, kind, name, choice).Done?
    ensures var r := Pass(rest, kind, name, choice);
      Iterate(sc, kind, name, choice, n) == Scan(Print(done) + Print(r.ts), -1, sc.count + r.count)
    decreases CountTag(rest, End(name))
  {
    hide FindTag, Part, Pass, CountTag, Iteration, Print, IndexOf, BraceFree, NextRest, Inside, Lexed;
    var k := FindTag(rest, Opener(kind, name));
    if k == -1 {
      n := 0;
      StartOfRest(sc, done, rest, kind, name);
      NoOpenerLeft(rest, kind, name, choice);
    } else {
      IterationStep(sc, done, rest, kind, name, choice);
      PassAtOpener(rest, kind, name, choice);
      var next := NextRest(Inside(rest, kind, name), name, choice);
      var m := DoneTerminates(Iteration(sc, kind, name, choice), done + rest[..k], next, kind, name, choice);
      n := m + 1;
      var r := Pass(next, kind, name, choice);
      PrintInThree(done, rest[..k], r.ts);
    }
  }

  lemma {:induction false} StuckNeverTerminates(
      sc: Scan, done: seq<Token>, rest: seq<Token>, kind: Kind, name: string, choice: Choice, n: nat)
    requires BraceFree(name) && StandsAt(sc, done, rest, kind, name)
    requires Pass(rest, kind, name, choice).Stuck?
    ensures Iterate(sc, kind, name, choice, n).start >= 0
    decreases n
  {
    hide FindTag, Part, Pass, CountTag, Iteration, Print, IndexOf, BraceFree, NextRest, Inside, Lexed, StandsAt;
    var k := FindTag(rest, Opener(kind, name));
    if k == -1 {
      NoOpenerLeft(rest, kind, name, choice);
      assert false;
    } else {
      IterationStep(sc, done, rest, kind, name, choice);
      PassAtOpener(rest, kind, name, choice);
      if n > 0 {
        var inside := Inside(rest, kind, name);
        if FindTag(inside, End(name)) == -1 {
          StuckNeverTerminates(sc, done, rest, kind, name, choice, n - 1);
        } else {
          StuckNeverTerminates(Iteration(sc, kind, name, choice), done + rest[..k],
                               NextRest(inside, name, choice), kind, name, choice, n - 1);
        }
      }
    }
  }

  /** The loop ends if and only if the pass over the tokens is not stuck, and then with its result. */
  lemma PassDecidesTermination(ts: seq<Token>, kind: Kind, name: string, choice: Choice)
    requires BraceFree(name) && Lexed(ts)
    ensures var sc, r := Start(ts, kind, name), Pass(ts, kind, name, choice);
      && (r.Done? <==> Ends(sc, kind, name, choice))
      && (r.Done? ==> exists n :: Iterate(sc, kind, name, choice, n) == Scan(Print(r.ts), -1, r.count))
  {
    hide Pass, Iterate, Print, Start, StandsAt;
    var sc := Start(ts, kind, name);
    StartStands(ts, kind, name);
    if Pass(ts, kind, name, choice).Done? {
      var n := DoneTerminates(sc, [], ts, kind, name, choice);
      EmptyPrint([]);
      assert sc.count == 0 by { StartCount(ts, kind, name); }
      assert "" + Print(Pass(ts, kind, name, choice).ts) == Print(Pass(ts, kind, name, choice).ts);
      assert Iterate(sc, kind, name, choice, n).start < 0;
    } else {
      forall n
        ensures Iterate(sc, kind, name, choice, n).start >= 0
      {
        StuckNeverTerminates(sc, [], ts, kind, name, choice, n);
      }
    }
  }

  lemma StartCount(ts: seq<Token>, kind: Kind, name: string)
    ensures Start(ts, kind, name).count == 0
  {
  }

  /** A start tag without an end tag keeps the loop running for ever. */
  lemma MissingEndTag()
    ensures !Ends(Start([Tag("if a")], If, "a"), If, "a", Take(true))
  {
    var ts := [Tag("if a")];
    assert ts[1..] == [] && Opener(If, "a") == "if a";
    assert Pass(ts, If, "a", Take(true)) == Stuck;
    PassDecidesTermination(ts, If, "a", Take(true));
  }

  // ---------- The class ----------

  function Substitute(ts: seq<Token>, name: string, value: string): string {
    if ts == [] then ""
    else (if ts[0] == Tag(name) then value else ts[0].Print()) + Substitute(ts[1..], name, value)
  }

  lemma {:induction false} SubstituteSkips(pre: seq<Token>, ts: seq<Token>, name: string, value: string)
    requires Without(pre, name)
    ensures Substitute(pre + ts, name, value) == Print(pre) + Substitute(ts, name, value)
    decreases |pre|
  {
    hide Token.Print;
    if pre == [] {
      assert pre + ts == ts;
    } else {
      assert (pre + ts)[1..] == pre[1..] + ts;
      SubstituteSkips(pre[1..], ts, name, value);
    }
  }

  function SetConditionResult(ts: seq<Token>, name: string, value: bool): Result
    requires BraceFree(name)
  {
    var first := Pass(ts, If, name, Take(value));
    if first.Stuck? then Stuck
    else Prepend([], first.count, Pass(first.ts, IfNot, name, Take(!value)))
  }

  lemma StartUnfolded(ts: seq<Token>, kind: Kind, name: string)
    ensures Start(ts, kind, name) == Scan(Print(ts), IndexOf(Print(ts), Tag(Opener(kind, name)).Print(), 0), 0)
  {
  }

  lemma StandsAtEnd(sc: Scan, done: seq<Token>, rest: seq<Token>, kind: Kind, name: string)
    requires StandsAt(sc, done, rest, kind, name)
    ensures sc.text == Print(done + rest) && Lexed(done + rest)
  {
    PrintConcat(done, rest);
  }

  class Template {
    var text: string

    constructor (source: string)
      ensures text == source
    {
      text := source;
    }

    /** The loop that replaces all constructs of one kind and name. */
    method Rewrite(kind: Kind, name: string, choice: Choice, ghost ts: seq<Token>) returns (count: nat)
      requires BraceFree(name) && Lexed(ts) && text == Print(ts)
      requires Pass(ts, kind, name, choice).Done?
      modifies this
      ensures text == Print(Pass(ts, kind, name, choice).ts) && count == Pass(ts, kind, name, choice).count
      ensures Lexed(Pass(ts, kind, name, choice).ts)
    {
      hide FindTag, Part, Pass, CountTag, Print, Token.Print, InsertMe, Iteration, StandsAt, IndexOf, MatchesAt, Opener,
           Else, End, Inside, NextRest, Lexed, BraceFree;
      count := 0;
      var startTag, endTag := Tag(Opener(kind, name)).Print(), Tag(End(name)).Print();
      var start := IndexOf(text, startTag, 0);
      ghost var done: seq<Token>, rest, goal := [], ts, Pass(ts, kind, name, choice);
      StartStands(ts, kind, name);
      StartUnfolded(ts, kind, name);
      PrependNothing(goal);
      while start >= 0
        invariant StandsAt(Scan(text, start, count), done, rest, kind, name)
        invariant goal == Prepend(done, count, Pass(rest, kind, name, choice))
        decreases CountTag(rest, End(name)), start >= 0
      {
        StartOfRest(Scan(text, start, count), done, rest, kind, name);
        IterationStep(Scan(text, start, count), done, rest, kind, name, choice);
        IterationUnfolded(Scan(text, start, count), kind, name, choice);
        PassAtOpener(rest, kind, name, choice);
        ghost var k, inside := FindTag(rest, Opener(kind, name)), Inside(rest, kind, name);
        PrependTwice(done, count, rest[..k], 1, Pass(NextRest(inside, name, choice), kind, name, choice));
        var end := IndexOf(text, endTag, start + |startTag|);
        if end >= 0 {
          count := count + 1;
          text := text[..start] + InsertMe(text, start, end, kind, name, choice) + text[end + |endTag|..];
          start := IndexOf(text, startTag, start);
          done, rest := done + rest[..k], NextRest(inside, name, choice);
        }
      }
      StartOfRest(Scan(text, start, count), done, rest, kind, name);
      NoOpenerLeft(rest, kind, name, choice);
      PrintConcat(done, rest);
      StandsAtEnd(Scan(text, start, count), done, rest, kind, name);
    }

    method SetCondition(name: string, value: bool, ghost ts: seq<Token>) returns (count: nat)
      requires BraceFree(name) && Lexed(ts) && text == Print(ts)
      requires SetConditionResult(ts, name, value).Done?
      modifies this
      ensures text == Print(SetConditionResult(ts, name, value).ts)
      ensures count == SetConditionResult(ts, name, value).count
    {
      hide Pass;
      count := Rewrite(If, name, Take(value), ts);
      ghost var first := Pass(ts, If, name, Take(value));
      var more := Rewrite(IfNot, name, Take(!value), first.ts);
      PrependNothing(Pass(first.ts, IfNot, name, Take(!value)));
      count := count + more;
    }

    method Loop(name: string, repetitions: nat, ghost ts: seq<Token>) returns (count: nat)
      requires BraceFree(name) && Lexed(ts) && text == Print(ts)
      requires Pass(ts, Kind.Loop, name, Repeat(repetitions)).Done?
      modifies this
      ensures text == Print(Pass(ts, Kind.Loop, name, Repeat(repetitions)).ts)
      ensures count == Pass(ts, Kind.Loop, name, Repeat(repetitions)).count
    {
      count := Rewrite(Kind.Loop, name, Repeat(repetitions), ts);
    }

    /** The inserted value is not searched again, whatever it contains. */
    method SetVariable(name: string, value: string, ghost ts: seq<Token>) returns (count: nat)
      requires BraceFree(name) && Lexed(ts) && text == Print(ts)
      modifies this
      ensures text == Substitute(ts, name, value) && count == CountTag(ts, name)
    {
      hide FindTag, CountTag, Print, Token.Print, Substitute, MatchesAt;
      count := 0;
      var variable := Tag(name).Print();
      var start := IndexOf(text, variable, 0);
      ghost var before, rest := "", ts;
      assert before + text == text;
      while start >= 0
        invariant Lexed(rest) && text == before + Print(rest)
        invariant start == IndexOf(text, variable, |before|)
        invariant before + Substitute(rest, name, value) == Substitute(ts, name, value)
        invariant count + CountTag(rest, name) == CountTag(ts, name)
        decreases |rest|
      {
        ghost var k := FindTag(rest, name);
        FirstVariable(before, rest, name, value);
        text := text[..start] + value + text[start + |variable|..];
        count := count + 1;
        before := before + Print(rest[..k]) + value;
        rest := rest[k + 1..];
        start := IndexOf(text, variable, start + |value|);
      }
      NoVariableLeft(before, rest, name, value);
    }
  }

  lemma PrependNothing(r: Result)
    ensures Prepend([], 0, r) == r
    ensures r.Done? ==> forall n: nat :: Prepend([], n, r) == Done(r.ts, n + r.count)
  {
    assert r.Done? ==> [] + r.ts == r.ts;
  }

  lemma FirstVariable(before: string, rest: seq<Token>, name: string, value: string)
    requires Lexed(rest) && BraceFree(name)
    requires IndexOf(before + Print(rest), Tag(name).Print(), |before|) >= 0
    ensures var k, variable := FindTag(rest, name), Tag(name).Print();
      && k != -1
      && var text, start := before + Print(rest), |before| + |Print(rest[..k])|;
      && IndexOf(text, variable, |before|) == start
      && start + |variable| <= |text|
      && text[..start] + value + text[start + |variable|..] == before + Print(rest[..k]) + value + Print(rest[k + 1..])
      && Substitute(rest, name, value) == Print(rest[..k]) + (value + Substitute(rest[k + 1..], name, value))
      && CountTag(rest, name) == 1 + CountTag(rest[k + 1..], name)
      && Lexed(rest[k + 1..])
  {
    hide FindTag, Print, Token.Print, IndexOf, MatchesAt, BraceFree;
    var k, variable := FindTag(rest, name), Tag(name).Print();
    IndexOfInSuffix(before, Print(rest), variable, 0);
    IndexOfTag(rest, name);
    var tail := rest[k + 1..];
    assert rest == rest[..k] + ([Tag(name)] + tail);
    PrintConcat(rest[..k], [Tag(name)] + tail);
    PrintConcat([Tag(name)], tail);
    PrintOne(Tag(name));
    assert before + Print(rest) == before + Print(rest[..k]) + variable + Print(tail);
    assert Without(rest[..k], name) by { BeforeFoundTag(rest, name); }
    SubstituteSkips(rest[..k], [Tag(name)] + tail, name, value);
    assert ([Tag(name)] + tail)[1..] == tail;
    CountTagConcat(rest[..k], [Tag(name)] + tail, name);
    WithoutMeansZero(rest[..k], name);
  }

  lemma NoVariableLeft(before: string, rest: seq<Token>, name: string, value: string)
    requires Lexed(rest) && BraceFree(name)
    requires IndexOf(before + Print(rest), Tag(name).Print(), |before|) < 0
    ensures Substitute(rest, name, value) == Print(rest) && CountTag(rest, name) == 0
  {
    hide Print, Token.Print, IndexOf, MatchesAt;
    IndexOfInSuffix(before, Print(rest), Tag(name).Print(), 0);
    IndexOfTag(rest, name);
    assert Without(rest, name);
    SubstituteSkips(rest, [], name, value);
    assert rest + [] == rest;
    WithoutMeansZero(rest, name);
  }
}
