/** When a rewriting loop terminates, read off the tags of the template. */
module TemplateTermination {
  import opened TemplateTokens
  import opened TemplatePass
  import opened TemplateEngine

  /** Behind every start tag stands an end tag: no start tag stands behind the last end tag. */
  predicate Closed(ts: seq<Token>, opener: string, end: string) {
    forall i :: 0 <= i < |ts| && ts[i] == Tag(opener) ==> exists j :: i < j < |ts| && ts[j] == Tag(end)
  }

  /** Between two start tags stands an end tag: the construct is not nested in itself. */
  predicate Flat(ts: seq<Token>, opener: string, end: string) {
    forall i, j :: 0 <= i < j < |ts| && ts[i] == Tag(opener) == ts[j] ==> exists k :: i < k < j && ts[k] == Tag(end)
  }

  lemma SuffixKeeps(a: seq<Token>, b: seq<Token>, opener: string, end: string)
    ensures Closed(a + b, opener, end) ==> Closed(b, opener, end)
    ensures Flat(a + b, opener, end) ==> Flat(b, opener, end)
  {
    var ts := a + b;
    assert forall i :: 0 <= i < |b| ==> b[i] == ts[|a| + i];
    assert forall i :: |a| <= i < |ts| ==> ts[i] == b[i - |a|];
    if Closed(ts, opener, end) {
      forall i | 0 <= i < |b| && b[i] == Tag(opener)
        ensures exists j :: i < j < |b| && b[j] == Tag(end)
      {
        assert ts[|a| + i] == Tag(opener);
        var j :| |a| + i < j < |ts| && ts[j] == Tag(end);
        assert b[j - |a|] == Tag(end);
      }
    }
    if Flat(ts, opener, end) {
      forall i, j | 0 <= i < j < |b| && b[i] == Tag(opener) == b[j]
        ensures exists k :: i < k < j && b[k] == Tag(end)
      {
        assert ts[|a| + i] == Tag(opener) == ts[|a| + j];
        var k :| |a| + i < k < |a| + j && ts[k] == Tag(end);
        assert b[k - |a|] == Tag(end);
      }
    }
  }

  /** A last end tag closes what stands in front of it. */
  lemma ClosedInFront(a: seq<Token>, b: seq<Token>, opener: string, end: string)
    requires opener != end && a != [] && a[|a| - 1] == Tag(end) && Closed(b, opener, end)
    ensures Closed(a + b, opener, end)
  {
    var ts := a + b;
    assert ts[|a| - 1] == Tag(end);
    forall i | 0 <= i < |ts| && ts[i] == Tag(opener)
      ensures exists j :: i < j < |ts| && ts[j] == Tag(end)
    {
      if i >= |a| {
        assert b[i - |a|] == Tag(opener);
        var j :| i - |a| < j < |b| && b[j] == Tag(end);
        assert ts[|a| + j] == Tag(end);
      }
    }
  }

  lemma StartIsNoEnd(kind: Kind, name: string)
    ensures Opener(kind, name) != End(name)
  {
    assert Opener(kind, name)[0] == kind.Keyword()[0] && End(name)[0] == 'e';
  }

  /** A terminating pass left no start tag behind the last end tag. */
  lemma {:induction false} DoneMeansClosed(ts: seq<Token>, kind: Kind, name: string, choice: Choice)
    requires BraceFree(name) && Pass(ts, kind, name, choice).Done?
    ensures Closed(ts, Opener(kind, name), End(name))
    decreases CountTag(ts, End(name))
  {
    hide Pass, Part, CountTag, Opener, End, BraceFree, FindTag, Closed, Inside, Without;
    var k := FindTag(ts, Opener(kind, name));
    if k == -1 {
      NoStartIsClosed(ts, Opener(kind, name), End(name));
    } else {
      PassAtOpener(ts, kind, name, choice);
      var inside := Inside(ts, kind, name);
      DoneMeansClosed(NextRest(inside, name, choice), kind, name, choice);
      StartIsNoEnd(kind, name);
      var front := ts[..k] + [Tag(Opener(kind, name))];
      ClosedBehind(front, inside, Part(inside, name, choice), Opener(kind, name), End(name));
      assert ts == front + inside;
    }
  }

  lemma NoStartIsClosed(ts: seq<Token>, opener: string, end: string)
    requires FindTag(ts, opener) == -1
    ensures Closed(ts, opener, end)
  {
  }

  /** What was closed after the replacement of a construct was closed before. */
  lemma ClosedBehind(pre: seq<Token>, inside: seq<Token>, part: seq<Token>, opener: string, end: string)
    requires opener != end && FindTag(inside, end) != -1
    requires Closed(part + inside[FindTag(inside, end) + 1..], opener, end)
    ensures Closed(pre + inside, opener, end)
  {
    hide FindTag, Closed;
    var e := FindTag(inside, end);
    SuffixKeeps(part, inside[e + 1..], opener, end);
    ClosedInFront(pre + inside[..e + 1], inside[e + 1..], opener, end);
    assert pre + inside == pre + inside[..e + 1] + inside[e + 1..];
  }

  lemma StartHasEnd(ts: seq<Token>, k: nat, opener: string, end: string)
    requires k < |ts| && ts[k] == Tag(opener) && Closed(ts, opener, end)
    ensures FindTag(ts[k + 1..], end) != -1
  {
    var j :| k < j < |ts| && ts[j] == Tag(end);
    assert ts[k + 1..][j - k - 1] == Tag(end);
  }

  lemma NoStartInside(ts: seq<Token>, k: nat, opener: string, end: string)
    requires k < |ts| && ts[k] == Tag(opener) && Flat(ts, opener, end) && FindTag(ts[k + 1..], end) != -1
    ensures Without(ts[k + 1..][..FindTag(ts[k + 1..], end)], opener)
  {
    var inside := ts[k + 1..];
    var e := FindTag(inside, end);
    assert forall j :: k < j < k + 1 + e ==> ts[j] == inside[j - k - 1] != Tag(end);
    forall i | 0 <= i < e
      ensures inside[i] != Tag(opener)
    {
      if ts[k + 1 + i] == Tag(opener) {
        assert false;
      }
    }
  }

  lemma PartHasNoStart(inside: seq<Token>, kind: Kind, name: string, choice: Choice)
    requires BraceFree(name) && FindTag(inside, End(name)) != -1
    requires Without(inside[..FindTag(inside, End(name))], Opener(kind, name))
    ensures Without(Part(inside, name, choice), Opener(kind, name))
  {
    hide FindTag, CopyTags, Opener, End, Else, BraceFree;
    var e, l := FindTag(inside, End(name)), FindTag(inside, Else(name));
    var opener := Opener(kind, name);
    if 0 <= l < e {
      assert inside[..l] == inside[..e][..l] && inside[l + 1..e] == inside[..e][l + 1..];
      ExpandHasNoStart(choice, kind, name, inside[..l], inside[l + 1..e]);
    } else {
      ExpandHasNoStart(choice, kind, name, inside[..e], []);
    }
  }

  lemma ExpandHasNoStart(choice: Choice, kind: Kind, name: string, body: seq<Token>, els: seq<Token>)
    requires BraceFree(name) && Without(body, Opener(kind, name)) && Without(els, Opener(kind, name))
    ensures Without(Expand(choice, name, body, els), Opener(kind, name))
  {
    if choice.Repeat? && choice.times > 0 {
      KeywordsOfKinds(kind);
      CopiesHaveNone(body, kind.Keyword(), name, 0, choice.times);
    }
  }

  lemma {:induction false} FlatAndClosedIsDone(ts: seq<Token>, kind: Kind, name: string, choice: Choice)
    requires BraceFree(name)
    requires Flat(ts, Opener(kind, name), End(name)) && Closed(ts, Opener(kind, name), End(name))
    ensures Pass(ts, kind, name, choice).Done?
    decreases |ts|
  {
    hide Pass, Part, CountTag, Opener, End, BraceFree, FindTag, Closed, Flat, Without;
    var k := FindTag(ts, Opener(kind, name));
    if k == -1 {
      NoOpenerLeft(ts, kind, name, choice);
    } else {
      PassAtOpener(ts, kind, name, choice);
      var inside := ts[k + 1..];
      StartHasEnd(ts, k, Opener(kind, name), End(name));
      var e := FindTag(inside, End(name));
      var part, tail := Part(inside, name, choice), inside[e + 1..];
      NoStartInside(ts, k, Opener(kind, name), End(name));
      PartHasNoStart(inside, kind, name, choice);
      PassSkips(part, tail, kind, name, choice);
      assert ts == ts[..k + 1 + e + 1] + tail;
      SuffixKeeps(ts[..k + 1 + e + 1], tail, Opener(kind, name), End(name));
      FlatAndClosedIsDone(tail, kind, name, choice);
    }
  }

  /**
   Where no construct is nested in itself, the loop ends if and only if no start tag stands behind the last end
   tag. A start tag there keeps any loop running for ever.
   */
  lemma LoopEndsExactly(ts: seq<Token>, kind: Kind, name: string, choice: Choice)
    requires BraceFree(name) && Lexed(ts)
    ensures Ends(Start(ts, kind, name), kind, name, choice) ==> Closed(ts, Opener(kind, name), End(name))
    ensures Flat(ts, Opener(kind, name), End(name)) && Closed(ts, Opener(kind, name), End(name)) ==>
              Ends(Start(ts, kind, name), kind, name, choice)
  {
    hide Pass, Ends, Start, Closed, Flat;
    PassDecidesTermination(ts, kind, name, choice);
    if Pass(ts, kind, name, choice).Done? {
      DoneMeansClosed(ts, kind, name, choice);
    }
    if Flat(ts, Opener(kind, name), End(name)) && Closed(ts, Opener(kind, name), End(name)) {
      FlatAndClosedIsDone(ts, kind, name, choice);
    }
  }

  /** Two nested start tags in front of one end tag: closed, and yet the loop never ends. */
  lemma NestedStartTags()
    ensures var ts := [Tag("if a"), Tag("if a"), Tag("end a")];
      && Closed(ts, Opener(If, "a"), End("a"))
      && !Ends(Start(ts, If, "a"), If, "a", Take(true))
  {
    var ts := [Tag("if a"), Tag("if a"), Tag("end a")];
    var opener, end := Opener(If, "a"), End("a");
    assert opener == "if a" && end == "end a";
    assert ts[2] == Tag(end);
    assert ts[1..] == [Tag("if a"), Tag("end a")];
    assert FindTag(ts[1..], end) == 1;
    assert FindTag(ts[1..], Else("a")) == -1;
    assert Part(ts[1..], "a", Take(true)) == [Tag("if a")];
    assert ts[1..][2..] == [] && [Tag("if a")] + [] == [Tag("if a")];
    assert Pass([Tag("if a")], If, "a", Take(true)) == Stuck;
    PassAtFirst(ts, If, "a", Take(true));
    PassDecidesTermination(ts, If, "a", Take(true));
  }
}
