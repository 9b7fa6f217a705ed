/** Templates as sequences of tags and text, and what searching and replacing means for them. */
module TemplateTokens {
  import opened Strings
  import opened Sequences

  datatype Token = Text(s: string) | Tag(content: string)
  {
    function Print(): string {
      match this
      case Text(s) => s
      case Tag(content) => "{" + content + "}"
    }

    /** Only tags contain opening braces, and only around themselves. */
    predicate Lexed() {
      match this
      case Text(s) => '{' !in s
      case Tag(content) => BraceFree(content)
    }
  }

  predicate BraceFree(s: string) {
    '{' !in s && '}' !in s
  }

  predicate Lexed(ts: seq<Token>) {
    forall i :: 0 <= i < |ts| ==> ts[i].Lexed()
  }

  function Print(ts: seq<Token>): string {
    if ts == [] then "" else ts[0].Print() + Print(ts[1..])
  }

  lemma {:induction false} PrintConcat(a: seq<Token>, b: seq<Token>)
    ensures Print(a + b) == Print(a) + Print(b)
  {
    hide Token.Print;
    if a == [] {
      assert a + b == b;
    } else {
      assert (a + b)[1..] == a[1..] + b;
      PrintConcat(a[1..], b);
    }
  }

  // ---------- Searching for a tag ----------

  /** The position of the first tag with this content, or -1. */
  function FindTag(ts: seq<Token>, content: string): (r: int)
    ensures r == -1 || (0 <= r < |ts| && ts[r] == Tag(content))
    ensures forall i :: 0 <= i < |ts| && (r == -1 || i < r) ==> ts[i] != Tag(content)
  {
    if ts == [] then -1
    else if ts[0] == Tag(content) then 0
    else
      var r := FindTag(ts[1..], content);
      if r == -1 then -1 else r + 1
  }

  /** A printed tag occurs nowhere inside another token. */
  lemma NoMatchInsideToken(t: Token, rest: string, content: string, i: nat)
    requires t.Lexed() && BraceFree(content) && t != Tag(content) && i < |t.Print()|
    ensures !MatchesAt(t.Print() + rest, Tag(content).Print(), i)
  {
    var s, pattern := t.Print() + rest, Tag(content).Print();
    if t.Text? || i > 0 {
      assert s[i] != '{' by {
        match t
        case Text(text) => assert s[i] == text[i];
        case Tag(c) => assert s[i] == if i <= |c| then c[i - 1] else '}';
      }
      if i + |pattern| <= |s| {
        assert s[i..i + |pattern|][0] == s[i];
      }
    } else {
      DifferentTag(t.content, content, rest);
    }
  }

  lemma DifferentTag(a: string, b: string, rest: string)
    requires BraceFree(a) && BraceFree(b) && a != b
    ensures !MatchesAt("{" + a + "}" + rest, "{" + b + "}", 0)
  {
    var s, p := "{" + a + "}" + rest, "{" + b + "}";
    var k := DifferAt(a, b);
    assert s[k + 1] == if k < |a| then a[k] else '}';
    assert p[k + 1] == if k < |b| then b[k] else '}';
    if |p| <= |s| {
      assert s[0..|p|][k + 1] == s[k + 1];
    }
  }

  /** The first position at which two different strings part, or at which the shorter one ends. */
  lemma {:induction false} DifferAt(a: string, b: string) returns (k: nat)
    requires a != b
    ensures k <= |a| && k <= |b| && a[..k] == b[..k]
    ensures k < |a| || k < |b|
    ensures k < |a| && k < |b| ==> a[k] != b[k]
  {
    if a == "" || b == "" || a[0] != b[0] {
      k := 0;
    } else {
      assert a == [a[0]] + a[1..] && b == [b[0]] + b[1..];
      var j := DifferAt(a[1..], b[1..]);
      k := j + 1;
      assert a[..k] == [a[0]] + a[1..][..j] && b[..k] == [b[0]] + b[1..][..j];
    }
  }

  /** Searching the printed template for a tag finds the first token that is this tag. */
  lemma {:induction false} IndexOfTag(ts: seq<Token>, content: string)
    requires Lexed(ts) && BraceFree(content)
    ensures var r := FindTag(ts, content);
      IndexOf(Print(ts), Tag(content).Print(), 0) == if r == -1 then -1 else |Print(ts[..r])|
    decreases |ts|
  {
    if ts != [] {
      hide Token.Print, Print, MatchesAt, IndexOf, BraceFree;
      PrintSplit(ts);
      if ts[0] == Tag(content) {
        TagIsFound(content, Print(ts[1..]));
        PrintNothing(ts);
      } else {
        TokenIsSkipped(ts[0], Print(ts[1..]), content);
        IndexOfTag(ts[1..], content);
        var r := FindTag(ts, content);
        if r != -1 {
          PrintSplit(ts[..r]);
          assert ts[..r][1..] == ts[1..][..r - 1];
        }
      }
    }
  }

  lemma PrintSplit(ts: seq<Token>)
    requires ts != []
    ensures Print(ts) == ts[0].Print() + Print(ts[1..])
  {
  }

  lemma PrintNothing(ts: seq<Token>)
    ensures Print(ts[..0]) == "" && Print([]) == ""
  {
  }

  lemma TagIsFound(content: string, rest: string)
    ensures IndexOf(Tag(content).Print() + rest, Tag(content).Print(), 0) == 0
  {
    var pattern := Tag(content).Print();
    assert (pattern + rest)[0..|pattern|] == pattern;
    IndexOfIs(pattern + rest, pattern, 0, 0);
  }

  lemma TokenIsSkipped(t: Token, rest: string, content: string)
    requires t.Lexed() && BraceFree(content) && t != Tag(content)
    ensures var pattern := Tag(content).Print(); var r := IndexOf(rest, pattern, 0);
      IndexOf(t.Print() + rest, pattern, 0) == if r == -1 then -1 else |t.Print()| + r
  {
    hide Token.Print;
    var s, pattern := t.Print() + rest, Tag(content).Print();
    forall i | 0 <= i < |t.Print()|
      ensures !MatchesAt(s, pattern, i)
    {
      NoMatchInsideToken(t, rest, content, i);
    }
    IndexOfSkips(s, pattern, 0, |t.Print()|);
    IndexOfInSuffix(t.Print(), rest, pattern, 0);
  }

  // ---------- Replacing everywhere ----------

  /** Replaces the beginning of every tag that starts with `before`. */
  function RenameTag(t: Token, before: string, after: string): Token {
    if t.Tag? && before <= t.content then Tag(after + t.content[|before|..]) else t
  }

  function RenameTags(ts: seq<Token>, before: string, after: string): (r: seq<Token>)
    ensures |r| == |ts| && forall i :: 0 <= i < |ts| ==> r[i] == RenameTag(ts[i], before, after)
  {
    if ts == [] then [] else [RenameTag(ts[0], before, after)] + RenameTags(ts[1..], before, after)
  }

  lemma {:induction false} ReplaceSkips(a: string, b: string, before: string, after: string)
    requires before != "" && before[0] !in a
    ensures ReplaceAll(a + b, before, after) == a + ReplaceAll(b, before, after)
  {
    if a == "" {
      assert a + b == b;
    } else {
      assert (a + b)[1..] == a[1..] + b;
      assert (a + b)[0] == a[0] && a[0] in a;
      ReplaceSkips(a[1..], b, before, after);
    }
  }

  /** Replacing `{before` by `{after` in the printed template renames the tags that start with `before`. */
  lemma {:induction false} ReplaceAllRenamesTags(ts: seq<Token>, before: string, after: string)
    requires Lexed(ts) && BraceFree(before)
    ensures ReplaceAll(Print(ts), "{" + before, "{" + after) == Print(RenameTags(ts, before, after))
    decreases |ts|
  {
    if ts != [] {
      var t, rest := ts[0], Print(ts[1..]);
      ReplaceAllRenamesTags(ts[1..], before, after);
      ReplaceInToken(t, rest, before, after);
    }
  }

  lemma ReplaceInToken(t: Token, rest: string, before: string, after: string)
    requires t.Lexed() && BraceFree(before)
    ensures ReplaceAll(t.Print() + rest, "{" + before, "{" + after)
         == RenameTag(t, before, after).Print() + ReplaceAll(rest, "{" + before, "{" + after)
  {
    match t {
      case Text(s) =>
        ReplaceSkips(s, rest, "{" + before, "{" + after);
      case Tag(content) =>
        PrefixOfTag(content, rest, before);
        if before <= content {
          assert content == before + content[|before|..];
          ReplaceInRenamedTag(before, content[|before|..], rest, after);
        } else {
          ReplaceInOtherTag(content, rest, before, after);
        }
    }
  }

  lemma ReplaceInRenamedTag(before: string, kept: string, rest: string, after: string)
    requires '{' !in kept
    ensures ReplaceAll(Tag(before + kept).Print() + rest, "{" + before, "{" + after)
         == Tag(after + kept).Print() + ReplaceAll(rest, "{" + before, "{" + after)
  {
    hide ReplaceAll;
    var p, q, tail := "{" + before, "{" + after, kept + "}";
    SplitTag(before, kept, rest);
    ReplaceHit(p + (tail + rest), p, q);
    assert (p + (tail + rest))[|p|..] == tail + rest;
    ReplaceSkips(tail, rest, p, q);
    SplitTag(after, kept, ReplaceAll(rest, p, q));
  }

  lemma SplitTag(before: string, kept: string, rest: string)
    ensures Tag(before + kept).Print() + rest == ("{" + before) + ((kept + "}") + rest)
  {
    assert "{" + (before + kept) == ("{" + before) + kept;
  }

  lemma ReplaceHit(s: string, before: string, after: string)
    requires before != "" && before <= s
    ensures ReplaceAll(s, before, after) == after + ReplaceAll(s[|before|..], before, after)
  {
  }

  lemma ReplaceInOtherTag(content: string, rest: string, before: string, after: string)
    requires BraceFree(content) && !("{" + before <= Tag(content).Print() + rest)
    ensures ReplaceAll(Tag(content).Print() + rest, "{" + before, "{" + after)
         == Tag(content).Print() + ReplaceAll(rest, "{" + before, "{" + after)
  {
    hide ReplaceAll;
    var p, q, s := "{" + before, "{" + after, Tag(content).Print() + rest;
    var tail := content + "}";
    assert s[1..] == tail + rest && s[0] == '{';
    ReplaceSkips(tail, rest, p, q);
    ReplaceMiss(s, p, q);
    assert "{" + (tail + ReplaceAll(rest, p, q)) == Tag(content).Print() + ReplaceAll(rest, p, q);
  }

  lemma ReplaceMiss(s: string, before: string, after: string)
    requires before != "" && s != "" && !(before <= s)
    ensures ReplaceAll(s, before, after) == [s[0]] + ReplaceAll(s[1..], before, after)
  {
  }

  lemma PrefixOfTag(content: string, rest: string, before: string)
    requires BraceFree(content) && BraceFree(before)
    ensures "{" + before <= Tag(content).Print() + rest <==> before <= content
  {
    var s, p := Tag(content).Print() + rest, "{" + before;
    if before <= content {
      assert s[..|p|] == "{" + content[..|before|];
    } else {
      var k := FirstUnequal(before, content);
      assert s[k + 1] == if k < |content| then content[k] else '}';
      assert p[k + 1] == before[k];
    }
  }

  lemma FirstUnequal(before: string, content: string) returns (k: nat)
    requires !(before <= content)
    ensures k < |before| && k <= |content| && (k < |content| ==> before[k] != content[k])
  {
    var n := if |before| <= |content| then |before| else |content|;
    if before[..n] == content[..n] {
      assert n < |before|;
      k := n;
    } else {
      k :| 0 <= k < n && before[k] != content[k];
    }
  }
}
