/** Templates as trees, the transformation each operation is meant to perform, and the proof that it does. */
module TemplateTree {
  import opened Strings
  import opened Sequences
  import opened TemplateTokens
  import opened TemplatePass

  datatype ElsePart = NoElse | ElsePart(nodes: seq<Node>)

  datatype Node = Leaf(token: Token) | Block(kind: Kind, name: string, body: seq<Node>, els: ElsePart)

  function ElseNodes(els: ElsePart): seq<Node> {
    match els
    case NoElse => []
    case ElsePart(nodes) => nodes
  }

  function NodeTokens(node: Node): seq<Token>
    decreases node, 1
  {
    match node
    case Leaf(token) => [token]
    case Block(kind, name, body, els) =>
      [Tag(Opener(kind, name))] + Tokens(body) + ElseTokens(name, els) + [Tag(End(name))]
  }

  function ElseTokens(name: string, els: ElsePart): seq<Token>
    decreases els, 1
  {
    match els
    case NoElse => []
    case ElsePart(nodes) => [Tag(Else(name))] + Tokens(nodes)
  }

  function Tokens(nodes: seq<Node>): seq<Token>
    decreases nodes, 0
  {
    if nodes == [] then [] else NodeTokens(nodes[0]) + Tokens(nodes[1..])
  }

  lemma {:induction false} TokensConcat(a: seq<Node>, b: seq<Node>)
    ensures Tokens(a + b) == Tokens(a) + Tokens(b)
    decreases |a|
  {
    hide NodeTokens;
    if a == [] {
      assert a + b == b;
    } else {
      assert (a + b)[1..] == a[1..] + b;
      TokensConcat(a[1..], b);
    }
  }

  // ---------- Numbering a tree ----------

  /** Numbering by the first keyword that fits. */
  function NumberFirst(content: string, keywords: seq<string>, name: string, i: nat): string
    decreases |keywords|
  {
    if keywords == [] then content
    else if Before(keywords[0], name) <= content then
      After(keywords[0], name, i) + content[|Before(keywords[0], name)|..]
    else NumberFirst(content, keywords[1..], name, i)
  }

  /** `name.rest` becomes `name<i>.rest`, any other name stays. */
  function NumberName(other: string, name: string, i: nat): string {
    if Before("", name) <= other then After("", name, i) + other[|Before("", name)|..] else other
  }

  function NumberNode(node: Node, name: string, i: nat): Node
    decreases node, 1
  {
    match node
    case Leaf(Text(s)) => node
    case Leaf(Tag(content)) => Leaf(Tag(NumberFirst(content, KEYWORDS, name, i)))
    case Block(kind, other, body, els) =>
      Block(kind, NumberName(other, name, i), NumberNodes(body, name, i), NumberElse(els, name, i))
  }

  function NumberElse(els: ElsePart, name: string, i: nat): ElsePart
    decreases els, 1
  {
    match els
    case NoElse => NoElse
    case ElsePart(nodes) => ElsePart(NumberNodes(nodes, name, i))
  }

  function NumberNodes(nodes: seq<Node>, name: string, i: nat): (r: seq<Node>)
    ensures |r| == |nodes|
    decreases nodes, 0
  {
    if nodes == [] then [] else [NumberNode(nodes[0], name, i)] + NumberNodes(nodes[1..], name, i)
  }

  function CopyNodes(body: seq<Node>, name: string, first: nat, times: nat): seq<Node>
    requires first <= times
    decreases times - first
  {
    if first == times then [] else NumberNodes(body, name, first) + CopyNodes(body, name, first + 1, times)
  }

  // ---------- The transformation ----------

  function ExpandTree(choice: Choice, name: string, body: seq<Node>, els: ElsePart): seq<Node> {
    match choice
    case Take(takeBody) => if takeBody then body else ElseNodes(els)
    case Repeat(times) => if times > 0 then CopyNodes(body, name, 0, times) else ElseNodes(els)
  }

  function ApplyNode(node: Node, kind: Kind, name: string, choice: Choice): seq<Node>
    decreases node, 1
  {
    match node
    case Leaf(_) => [node]
    case Block(k, n, body, els) =>
      if k == kind && n == name then ExpandTree(choice, name, body, els)
      else [Block(k, n, Apply(body, kind, name, choice), ApplyElse(els, kind, name, choice))]
  }

  function ApplyElse(els: ElsePart, kind: Kind, name: string, choice: Choice): ElsePart
    decreases els, 1
  {
    match els
    case NoElse => NoElse
    case ElsePart(nodes) => ElsePart(Apply(nodes, kind, name, choice))
  }

  /** Replaces every block of this kind and name, wherever it lies in the tree. */
  function Apply(nodes: seq<Node>, kind: Kind, name: string, choice: Choice): seq<Node>
    decreases nodes, 0
  {
    if nodes == [] then []
    else ApplyNode(nodes[0], kind, name, choice) + Apply(nodes[1..], kind, name, choice)
  }

  function CountNode(node: Node, kind: Kind, name: string): nat
    decreases node, 1
  {
    match node
    case Leaf(_) => 0
    case Block(k, n, body, els) =>
      if k == kind && n == name then 1
      else Count(body, kind, name) + CountElse(els, kind, name)
  }

  function CountElse(els: ElsePart, kind: Kind, name: string): nat
    decreases els, 1
  {
    match els
    case NoElse => 0
    case ElsePart(nodes) => Count(nodes, kind, name)
  }

  /** The number of blocks of this kind and name. */
  function Count(nodes: seq<Node>, kind: Kind, name: string): nat
    decreases nodes, 0
  {
    if nodes == [] then 0 else CountNode(nodes[0], kind, name) + Count(nodes[1..], kind, name)
  }

  // ---------- When a tree is safe for an operation ----------

  predicate Innermost(ts: seq<Token>, kind: Kind, name: string) {
    Without(ts, Opener(kind, name)) && Without(ts, Else(name)) && Without(ts, End(name))
  }

  predicate SafeNode(node: Node, kind: Kind, name: string)
    decreases node, 1
  {
    match node
    case Leaf(token) => token != Tag(Opener(kind, name))
    case Block(k, n, body, els) =>
      if k == kind && n == name then
        Innermost(Tokens(body), kind, name) && Innermost(Tokens(ElseNodes(els)), kind, name)
      else
        Safe(body, kind, name) && SafeElse(els, kind, name)
  }

  predicate SafeElse(els: ElsePart, kind: Kind, name: string)
    decreases els, 1
  {
    match els
    case NoElse => true
    case ElsePart(nodes) => Safe(nodes, kind, name)
  }

  /** No such construct inside another one of the same name, and no start tag without its block. */
  predicate Safe(nodes: seq<Node>, kind: Kind, name: string)
    decreases nodes, 0
  {
    nodes == [] || (SafeNode(nodes[0], kind, name) && Safe(nodes[1..], kind, name))
  }

  /** A tag content that begins with one keyword and the name does not begin with another one and the name. */
  lemma OneKeywordFits(content: string, a: string, b: string, name: string)
    requires a in KEYWORDS && b in KEYWORDS && a != b
    requires a + name <= content && |a + name| < |content|
    requires content[|a + name|] == '.' || IsDigit(content[|a + name|])
    ensures !(Before(b, name) <= content)
  {
    KeywordCases(a);
    KeywordCases(b);
    if a == "" {
      assert "" + name == name;
      NameIsNotReached(content, b, name);
    } else if b == "" {
      NameDoesNotFit(content, a, name);
    } else {
      KeywordsExclude(content, a, b, name);
    }
  }

  lemma KeywordsExclude(content: string, a: string, b: string, name: string)
    requires a in KEYWORDS[1..] && b in KEYWORDS[1..] && a != b && a + name <= content
    ensures !(Before(b, name) <= content)
  {
    var k := KeywordsDiffer(a, b);
    assert content[k] == (a + name)[k] == a[k] && Before(b, name)[k] == b[k];
  }

  /** Behind the name stands a dot or a digit: the tag does not begin with a keyword and the name. */
  lemma NameIsNotReached(content: string, keyword: string, name: string)
    requires keyword in KEYWORDS[1..] && name <= content && |name| < |content|
    requires content[|name|] == '.' || IsDigit(content[|name|])
    ensures !(Before(keyword, name) <= content)
  {
    hide KEYWORDS, IsDigit;
    var before := keyword + name;
    if Before(keyword, name) <= content {
      KeywordLetters(keyword);
      PrefixOfPrefix(before, Before(keyword, name), content);
      assert before[|name|] == content[|name|];
      PrefixesCompare(name, before, content);
      BehindName(keyword, name);
      assert false;
    }
  }

  /** The tag begins with a keyword and the name: it does not begin with the name and a dot. */
  lemma NameDoesNotFit(content: string, keyword: string, name: string)
    requires keyword in KEYWORDS[1..] && keyword + name <= content
    ensures !(Before("", name) <= content)
  {
    hide KEYWORDS;
    var before := Before("", name);
    assert before == name + ".";
    if before <= content {
      KeywordLetters(keyword);
      assert before[|name|] == '.' == content[|name|];
      PrefixOfPrefix(name, before, content);
      PrefixesCompare(name, keyword + name, content);
      BehindName(keyword, name);
      assert false;
    }
  }

  // ---------- Numbering tokens is numbering the tree ----------

  function NumberTag(t: Token, keywords: seq<string>, name: string, i: nat): Token
    decreases |keywords|
  {
    if keywords == [] then t
    else NumberTag(RenameTag(t, Before(keywords[0], name), After(keywords[0], name, i)), keywords[1..], name, i)
  }

  lemma {:induction false} NumberTagsPointwise(ts: seq<Token>, keywords: seq<string>, name: string, i: nat)
    ensures |NumberTags(ts, keywords, name, i)| == |ts|
    ensures forall k :: 0 <= k < |ts| ==> NumberTags(ts, keywords, name, i)[k] == NumberTag(ts[k], keywords, name, i)
    decreases |keywords|
  {
    if keywords != [] {
      var first := RenameTags(ts, Before(keywords[0], name), After(keywords[0], name, i));
      NumberTagsPointwise(first, keywords[1..], name, i);
    }
  }

  lemma NumberTagsConcat(a: seq<Token>, b: seq<Token>, keywords: seq<string>, name: string, i: nat)
    ensures NumberTags(a + b, keywords, name, i) == NumberTags(a, keywords, name, i) + NumberTags(b, keywords, name, i)
  {
    hide NumberTags, NumberTag;
    NumberTagsPointwise(a, keywords, name, i);
    NumberTagsPointwise(b, keywords, name, i);
    NumberTagsPointwise(a + b, keywords, name, i);
  }

  predicate Distinct(keywords: seq<string>) {
    && (forall i :: 0 <= i < |keywords| ==> keywords[i] in KEYWORDS)
    && (forall i, j :: 0 <= i < j < |keywords| ==> keywords[i] != keywords[j])
  }

  /** Once a tag is numbered, or when no keyword fits, the remaining replacements leave it alone. */
  lemma {:induction false} NumberTagStays(content: string, keywords: seq<string>, name: string, i: nat)
    requires forall k :: 0 <= k < |keywords| ==> !(Before(keywords[k], name) <= content)
    ensures NumberTag(Tag(content), keywords, name, i) == Tag(content)
    decreases |keywords|
  {
    if keywords != [] {
      NumberTagStays(content, keywords[1..], name, i);
    }
  }

  lemma {:induction false} NumberTagIsNumberFirst(content: string, keywords: seq<string>, name: string, i: nat)
    requires Distinct(keywords)
    ensures NumberTag(Tag(content), keywords, name, i) == Tag(NumberFirst(content, keywords, name, i))
    decreases |keywords|
  {
    if keywords != [] {
      var keyword := keywords[0];
      assert Distinct(keywords[1..]) by {
        assert forall k :: 0 <= k < |keywords[1..]| ==> keywords[1..][k] == keywords[k + 1];
      }
      if Before(keyword, name) <= content {
        var numbered := After(keyword, name, i) + content[|Before(keyword, name)|..];
        assert numbered[|keyword + name|] == Number(i)[0];
        assert keyword + name <= numbered;
        forall k | 0 <= k < |keywords[1..]|
          ensures !(Before(keywords[1..][k], name) <= numbered)
        {
          assert keywords[1..][k] == keywords[k + 1];
          OneKeywordFits(numbered, keyword, keywords[k + 1], name);
        }
        NumberTagStays(numbered, keywords[1..], name, i);
      } else {
        NumberTagIsNumberFirst(content, keywords[1..], name, i);
      }
    }
  }

  lemma KeywordsAreDistinct()
    ensures Distinct(KEYWORDS)
  {
  }

  lemma {:induction false} NumberFirstFits(content: string, keywords: seq<string>, keyword: string, name: string,
          i: nat)
    requires Distinct(keywords) && keyword in keywords && Before(keyword, name) <= content
    ensures NumberFirst(content, keywords, name, i)
         == After(keyword, name, i) + content[|Before(keyword, name)|..]
    decreases |keywords|
  {
    if keywords[0] != keyword {
      assert keyword in keywords[1..];
      assert forall k :: 0 <= k < |keywords[1..]| ==> keywords[1..][k] == keywords[k + 1];
      assert keyword + name <= content && content[|keyword + name|] == '.' by {
        assert Before(keyword, name)[|keyword + name|] == '.';
      }
      OneKeywordFits(content, keyword, keywords[0], name);
      NumberFirstFits(content, keywords[1..], keyword, name, i);
    }
  }

  lemma {:induction false} NumberFirstMisses(content: string, keywords: seq<string>, name: string, i: nat)
    requires forall k :: 0 <= k < |keywords| ==> !(Before(keywords[k], name) <= content)
    ensures NumberFirst(content, keywords, name, i) == content
    decreases |keywords|
  {
    if keywords != [] {
      NumberFirstMisses(content, keywords[1..], name, i);
    }
  }

  /** The replacement meant for the variables of the loop takes the tag of a block for one of them. */
  predicate Mistaken(content: string, name: string) {
    name + "." <= content
  }

  /** Numbering a block tag numbers the name of the block, unless the tag is mistaken for one of a variable. */
  lemma NumberBlockTag(keyword: string, other: string, name: string, i: nat)
    requires keyword in KEYWORDS[1..]
    ensures NumberFirst(keyword + other, KEYWORDS, name, i) == keyword + NumberName(other, name, i) <==>
      !Mistaken(keyword + other, name)
  {
    if Mistaken(keyword + other, name) {
      NumberMistakenTag(keyword, other, name, i);
    } else {
      NumberOwnTag(keyword, other, name, i);
    }
  }

  lemma NumberMistakenTag(keyword: string, other: string, name: string, i: nat)
    requires keyword in KEYWORDS[1..] && Mistaken(keyword + other, name)
    ensures NumberFirst(keyword + other, KEYWORDS, name, i) != keyword + NumberName(other, name, i)
  {
    hide NumberFirst, Number;
    var content := keyword + other;
    KeywordsAreDistinct();
    assert Before("", name) == name + ".";
    NumberFirstFits(content, KEYWORDS, "", name, i);
    assert |NumberFirst(content, KEYWORDS, name, i)| > |content|;
    PrefixBehind(keyword, name + ".", other);
    if name + "." <= other {
      assert keyword + name <= content by { assert other[..|name|] == name; }
      assert content[|name|] == '.' by { assert content[|name|] == (name + ".")[|name|]; }
      assert content[|name|] == (keyword + name)[|name|];
      PrefixesCompare(name, keyword + name, content);
      BehindName(keyword, name);
      assert false;
    } else {
      OtherNameStays(other, name, i);
    }
  }

  lemma NumberOwnTag(keyword: string, other: string, name: string, i: nat)
    requires keyword in KEYWORDS[1..] && !Mistaken(keyword + other, name)
    ensures NumberFirst(keyword + other, KEYWORDS, name, i) == keyword + NumberName(other, name, i)
  {
    hide NumberFirst, Number, KEYWORDS, NumberName;
    var content := keyword + other;
    KeywordsAreDistinct();
    KeywordIsKeyword(keyword);
    PrefixBehind(keyword, name + ".", other);
    assert Before(keyword, name) == keyword + (name + ".");
    if name + "." <= other {
      NumberFirstFits(content, KEYWORDS, keyword, name, i);
      RenamedBlockTag(keyword, other, name, i);
    } else {
      forall k | 0 <= k < |KEYWORDS|
        ensures !(Before(KEYWORDS[k], name) <= content)
      {
        if KEYWORDS[k] == "" {
          assert Before("", name) == name + ".";
        } else if KEYWORDS[k] != keyword && Before(KEYWORDS[k], name) <= content {
          KeywordDoesNotReach(content, KEYWORDS[k], keyword, name);
          assert false;
        }
      }
      NumberFirstMisses(content, KEYWORDS, name, i);
      OtherNameStays(other, name, i);
    }
  }

  lemma KeywordIsKeyword(keyword: string)
    requires keyword in KEYWORDS[1..]
    ensures keyword in KEYWORDS
  {
    var k :| 0 <= k < |KEYWORDS[1..]| && KEYWORDS[1..][k] == keyword;
    assert KEYWORDS[k + 1] == keyword;
  }

  lemma RenamedBlockTag(keyword: string, other: string, name: string, i: nat)
    requires name + "." <= other
    ensures Before(keyword, name) <= keyword + other
    ensures After(keyword, name, i) + (keyword + other)[|Before(keyword, name)|..]
         == keyword + NumberName(other, name, i)
  {
    hide Number;
    var rest := other[|name| + 1..];
    assert other == name + "." + rest && Before("", name) == name + ".";
    assert keyword + other == Before(keyword, name) + rest;
    assert After(keyword, name, i) == keyword + After("", name, i);
  }

  lemma OtherNameStays(other: string, name: string, i: nat)
    requires !(name + "." <= other)
    ensures NumberName(other, name, i) == other
  {
    assert Before("", name) == name + ".";
  }

  lemma PrefixBehind(a: string, p: string, b: string)
    ensures a + p <= a + b <==> p <= b
  {
    if a + p <= a + b {
      assert (a + b)[..|a + p|] == a + p;
      assert b[..|p|] == (a + b)[|a|..|a + p|] == (a + p)[|a|..];
    }
  }

  /** What begins with one keyword does not begin with another keyword and the name. */
  lemma KeywordDoesNotReach(content: string, a: string, b: string, name: string)
    requires a in KEYWORDS && a != "" && b in KEYWORDS[1..] && a != b && Before(a, name) <= content
    ensures !(b <= content)
  {
    KeywordCases(a);
    var k := KeywordsDiffer(a, b);
    assert content[k] == Before(a, name)[k] == a[k];
  }

  // ---------- When numbering the tokens is numbering the tree ----------

  predicate NumberableNode(node: Node, name: string)
    decreases node, 1
  {
    match node
    case Leaf(_) => true
    case Block(kind, other, body, els) =>
      && !Mistaken(Opener(kind, other), name) && !Mistaken(End(other), name)
      && Numberable(body, name) && NumberableElse(other, els, name)
  }

  predicate NumberableElse(other: string, els: ElsePart, name: string)
    decreases els, 1
  {
    match els
    case NoElse => true
    case ElsePart(nodes) => !Mistaken(Else(other), name) && Numberable(nodes, name)
  }

  /** No start, else or end tag of a block begins with the name of the loop and a dot. */
  predicate Numberable(nodes: seq<Node>, name: string)
    decreases nodes, 0
  {
    nodes == [] || (NumberableNode(nodes[0], name) && Numberable(nodes[1..], name))
  }

  /** Two token lists of one length, made of parts of one length. */
  lemma PartsAgree<T>(a: seq<T>, b: seq<T>, a': seq<T>, b': seq<T>)
    requires |a| == |a'|
    ensures a + b == a' + b' <==> a == a' && b == b'
  {
    assert (a + b)[..|a|] == a && (a + b)[|a|..] == b;
    assert (a' + b')[..|a|] == a' && (a' + b')[|a|..] == b';
  }

  lemma NumberedLength(ts: seq<Token>, name: string, i: nat)
    ensures |NumberTags(ts, KEYWORDS, name, i)| == |ts|
  {
    NumberTagsPointwise(ts, KEYWORDS, name, i);
  }

  lemma {:induction false} NumberedNodeTokens(node: Node, name: string, i: nat)
    ensures |NodeTokens(NumberNode(node, name, i))| == |NodeTokens(node)|
    ensures NodeTokens(NumberNode(node, name, i)) == NumberTags(NodeTokens(node), KEYWORDS, name, i) <==>
      NumberableNode(node, name)
    decreases node, 1
  {
    match node {
      case Leaf(t) =>
        NumberLeaf(t, name, i);
      case Block(kind, other, body, els) =>
        hide NumberTags, NumberFirst, Mistaken, NumberName, Opener, End;
        NumberedTokens(body, name, i);
        NumberedElseTokens(other, els, name, i);
        NumberedBlock(kind, other, Tokens(body), ElseTokens(other, els), Tokens(NumberNodes(body, name, i)),
                      ElseTokens(NumberName(other, name, i), NumberElse(els, name, i)), name, i);
    }
  }

  /** A block is numbered right if and only if each of its parts is. */
  lemma NumberedBlock(kind: Kind, other: string, body: seq<Token>, els: seq<Token>, body': seq<Token>,
                      els': seq<Token>, name: string, i: nat)
    requires |body| == |body'| && |els| == |els'|
    ensures var n := NumberName(other, name, i);
      [Tag(Opener(kind, n))] + body' + els' + [Tag(End(n))]
      == NumberTags([Tag(Opener(kind, other))] + body + els + [Tag(End(other))], KEYWORDS, name, i) <==>
        && !Mistaken(Opener(kind, other), name) && !Mistaken(End(other), name)
        && body' == NumberTags(body, KEYWORDS, name, i) && els' == NumberTags(els, KEYWORDS, name, i)
  {
    hide NumberTags, NumberFirst, Mistaken, NumberName;
    var n := NumberName(other, name, i);
    var opener, end := [Tag(Opener(kind, other))], [Tag(End(other))];
    var opener', end' := [Tag(Opener(kind, n))], [Tag(End(n))];
    KeywordsOfKinds(kind);
    NumberOneTag(kind.Keyword(), other, name, i);
    NumberOneTag("end ", other, name, i);
    NumberTagsConcat(opener, body, KEYWORDS, name, i);
    NumberTagsConcat(opener + body, els, KEYWORDS, name, i);
    NumberTagsConcat(opener + body + els, end, KEYWORDS, name, i);
    NumberedLength(opener, name, i);
    NumberedLength(body, name, i);
    NumberedLength(els, name, i);
    hide Opener, End;
    var o, b, e := NumberTags(opener, KEYWORDS, name, i), NumberTags(body, KEYWORDS, name, i),
      NumberTags(els, KEYWORDS, name, i);
    PartsAgree(opener', body', o, b);
    PartsAgree(opener' + body', els', o + b, e);
    PartsAgree(opener' + body' + els', end', o + b + e, NumberTags(end, KEYWORDS, name, i));
  }

  lemma NumberLeaf(t: Token, name: string, i: nat)
    ensures NodeTokens(NumberNode(Leaf(t), name, i)) == NumberTags([t], KEYWORDS, name, i)
  {
    hide NumberTags, NumberFirst;
    NumberTagsPointwise([t], KEYWORDS, name, i);
    if t.Tag? {
      KeywordsAreDistinct();
      NumberTagIsNumberFirst(t.content, KEYWORDS, name, i);
    } else {
      NumberTextToken(t, KEYWORDS, name, i);
    }
  }

  lemma {:induction false} NumberTextToken(t: Token, keywords: seq<string>, name: string, i: nat)
    requires t.Text?
    ensures NumberTag(t, keywords, name, i) == t
    decreases |keywords|
  {
    if keywords != [] {
      NumberTextToken(t, keywords[1..], name, i);
    }
  }

  lemma NumberOneTag(keyword: string, other: string, name: string, i: nat)
    requires keyword in KEYWORDS[1..]
    ensures [Tag(keyword + NumberName(other, name, i))] == NumberTags([Tag(keyword + other)], KEYWORDS, name, i) <==>
      !Mistaken(keyword + other, name)
  {
    hide NumberTags, NumberFirst, NumberName, Mistaken;
    NumberTagsPointwise([Tag(keyword + other)], KEYWORDS, name, i);
    KeywordsAreDistinct();
    NumberTagIsNumberFirst(keyword + other, KEYWORDS, name, i);
    NumberBlockTag(keyword, other, name, i);
    var ts := NumberTags([Tag(keyword + other)], KEYWORDS, name, i);
    assert ts == [Tag(NumberFirst(keyword + other, KEYWORDS, name, i))];
    assert [Tag(keyword + NumberName(other, name, i))] == ts ==> Tag(keyword + NumberName(other, name, i)) == ts[0];
  }

  lemma {:induction false} NumberedElseTokens(other: string, els: ElsePart, name: string, i: nat)
    ensures |ElseTokens(NumberName(other, name, i), NumberElse(els, name, i))| == |ElseTokens(other, els)|
    ensures NumberableElse(other, els, name) <==>
      ElseTokens(NumberName(other, name, i), NumberElse(els, name, i))
        == NumberTags(ElseTokens(other, els), KEYWORDS, name, i)
    decreases els, 1
  {
    match els {
      case NoElse =>
        hide NumberTags;
        NumberTagsPointwise([], KEYWORDS, name, i);
      case ElsePart(nodes) =>
        hide NumberTags, NumberFirst, Mistaken, NumberName;
        NumberedTokens(nodes, name, i);
        KeywordsOfKinds(If);
        NumberOneTag("else ", other, name, i);
        NumberTagsConcat([Tag(Else(other))], Tokens(nodes), KEYWORDS, name, i);
        NumberedLength([Tag(Else(other))], name, i);
        PartsAgree([Tag(Else(NumberName(other, name, i)))], Tokens(NumberNodes(nodes, name, i)),
                   NumberTags([Tag(Else(other))], KEYWORDS, name, i), NumberTags(Tokens(nodes), KEYWORDS, name, i));
    }
  }

  /** Numbering the printed tree is printing the numbered tree, if and only if no block tag is mistaken. */
  lemma {:induction false} NumberedTokens(nodes: seq<Node>, name: string, i: nat)
    ensures |Tokens(NumberNodes(nodes, name, i))| == |Tokens(nodes)|
    ensures Tokens(NumberNodes(nodes, name, i)) == NumberTags(Tokens(nodes), KEYWORDS, name, i) <==>
      Numberable(nodes, name)
    decreases nodes, 0
  {
    hide NumberTags, NumberNode, NodeTokens, NumberableNode;
    if nodes == [] {
      NumberTagsPointwise([], KEYWORDS, name, i);
    } else {
      NumberedNodeTokens(nodes[0], name, i);
      NumberedTokens(nodes[1..], name, i);
      NumberTagsConcat(NodeTokens(nodes[0]), Tokens(nodes[1..]), KEYWORDS, name, i);
      NumberedLength(NodeTokens(nodes[0]), name, i);
      PartsAgree(NodeTokens(NumberNode(nodes[0], name, i)), Tokens(NumberNodes(nodes[1..], name, i)),
                 NumberTags(NodeTokens(nodes[0]), KEYWORDS, name, i),
                 NumberTags(Tokens(nodes[1..]), KEYWORDS, name, i));
    }
  }

  lemma {:induction false} CopiedTokens(body: seq<Node>, name: string, first: nat, times: nat)
    requires first <= times
    ensures |Tokens(CopyNodes(body, name, first, times))| == |CopyTags(Tokens(body), name, first, times)|
    ensures Tokens(CopyNodes(body, name, first, times)) == CopyTags(Tokens(body), name, first, times) <==>
      first == times || Numberable(body, name)
    decreases times - first
  {
    hide NumberTags, NumberNodes, Numberable, Tokens;
    if first < times {
      NumberedTokens(body, name, first);
      NumberedLength(Tokens(body), name, first);
      CopiedTokens(body, name, first + 1, times);
      TokensConcat(NumberNodes(body, name, first), CopyNodes(body, name, first + 1, times));
      PartsAgree(Tokens(NumberNodes(body, name, first)), Tokens(CopyNodes(body, name, first + 1, times)),
                 NumberTags(Tokens(body), KEYWORDS, name, first), CopyTags(Tokens(body), name, first + 1, times));
    } else {
      TokensOfNothing();
    }
  }

  lemma ExpandedTokens(choice: Choice, name: string, body: seq<Node>, els: ElsePart)
    ensures |Tokens(ExpandTree(choice, name, body, els))|
         == |Expand(choice, name, Tokens(body), Tokens(ElseNodes(els)))|
    ensures Tokens(ExpandTree(choice, name, body, els)) == Expand(choice, name, Tokens(body), Tokens(ElseNodes(els)))
      <==> choice.Take? || choice.times == 0 || Numberable(body, name)
  {
    if choice.Repeat? && choice.times > 0 {
      CopiedTokens(body, name, 0, choice.times);
    }
  }

  // ---------- What the rewriting makes of the tokens of a tree ----------

  function RewrittenNode(node: Node, kind: Kind, name: string, choice: Choice): seq<Token>
    decreases node, 1
  {
    match node
    case Leaf(token) => [token]
    case Block(k, n, body, els) =>
      if k == kind && n == name then Expand(choice, name, Tokens(body), Tokens(ElseNodes(els)))
      else
        [Tag(Opener(k, n))] + Rewritten(body, kind, name, choice) + RewrittenElse(n, els, kind, name, choice)
        + [Tag(End(n))]
  }

  function RewrittenElse(n: string, els: ElsePart, kind: Kind, name: string, choice: Choice): seq<Token>
    decreases els, 1
  {
    match els
    case NoElse => []
    case ElsePart(nodes) => [Tag(Else(n))] + Rewritten(nodes, kind, name, choice)
  }

  /** Every block of this kind and name is replaced by its part, or by copies of the tokens of its body. */
  function Rewritten(nodes: seq<Node>, kind: Kind, name: string, choice: Choice): seq<Token>
    decreases nodes, 0
  {
    if nodes == [] then []
    else RewrittenNode(nodes[0], kind, name, choice) + Rewritten(nodes[1..], kind, name, choice)
  }

  predicate BodiesNumberableNode(node: Node, kind: Kind, name: string)
    decreases node, 1
  {
    match node
    case Leaf(_) => true
    case Block(k, n, body, els) =>
      if k == kind && n == name then Numberable(body, name)
      else
        && BodiesNumberable(body, kind, name)
        && match els case NoElse => true case ElsePart(nodes) => BodiesNumberable(nodes, kind, name)
  }

  /** In no body of such a block a block tag begins with the name and a dot. */
  predicate BodiesNumberable(nodes: seq<Node>, kind: Kind, name: string)
    decreases nodes, 0
  {
    nodes == [] || (BodiesNumberableNode(nodes[0], kind, name) && BodiesNumberable(nodes[1..], kind, name))
  }

  predicate MakesCopies(choice: Choice) {
    choice.Repeat? && choice.times > 0
  }

  /** The rewriting prints the transformed tree: no copies are made, or no block tag in them is mistaken. */
  predicate Meant(nodes: seq<Node>, kind: Kind, name: string, choice: Choice) {
    MakesCopies(choice) ==> BodiesNumberable(nodes, kind, name)
  }

  lemma {:induction false} RewrittenNodeIsMeant(node: Node, kind: Kind, name: string, choice: Choice)
    ensures |RewrittenNode(node, kind, name, choice)| == |Tokens(ApplyNode(node, kind, name, choice))|
    ensures RewrittenNode(node, kind, name, choice) == Tokens(ApplyNode(node, kind, name, choice)) <==>
      (MakesCopies(choice) ==> BodiesNumberableNode(node, kind, name))
    decreases node, 1
  {
    match node {
      case Leaf(_) =>
        SingleNode(node);
      case Block(k, n, body, els) =>
        hide Tokens, Expand, ExpandTree, Opener, End, Numberable;
        if k == kind && n == name {
          ExpandedTokens(choice, name, body, els);
        } else {
          var body', els' := Apply(body, kind, name, choice), ApplyElse(els, kind, name, choice);
          SingleNode(Block(k, n, body', els'));
          RewrittenIsMeant(body, kind, name, choice);
          RewrittenElseIsMeant(n, els, kind, name, choice);
          hide Apply, ApplyElse, Rewritten, RewrittenElse, ElseTokens;
          var opener, end := [Tag(Opener(k, n))], [Tag(End(n))];
          var b, e := Rewritten(body, kind, name, choice), RewrittenElse(n, els, kind, name, choice);
          PartsAgree(opener, b, opener, Tokens(body'));
          PartsAgree(opener + b, e, opener + Tokens(body'), ElseTokens(n, els'));
          PartsAgree(opener + b + e, end, opener + Tokens(body') + ElseTokens(n, els'), end);
        }
    }
  }

  lemma {:induction false} RewrittenElseIsMeant(n: string, els: ElsePart, kind: Kind, name: string, choice: Choice)
    ensures |RewrittenElse(n, els, kind, name, choice)| == |ElseTokens(n, ApplyElse(els, kind, name, choice))|
    ensures RewrittenElse(n, els, kind, name, choice) == ElseTokens(n, ApplyElse(els, kind, name, choice)) <==>
      Meant(ElseNodes(els), kind, name, choice)
    decreases els, 1
  {
    if els.ElsePart? {
      RewrittenIsMeant(els.nodes, kind, name, choice);
      PartsAgree([Tag(Else(n))], Rewritten(els.nodes, kind, name, choice),
                 [Tag(Else(n))], Tokens(Apply(els.nodes, kind, name, choice)));
    }
  }

  /** The tokens after the rewriting are those of the transformed tree, exactly when no block tag is mistaken. */
  lemma {:induction false} RewrittenIsMeant(nodes: seq<Node>, kind: Kind, name: string, choice: Choice)
    ensures |Rewritten(nodes, kind, name, choice)| == |Tokens(Apply(nodes, kind, name, choice))|
    ensures Rewritten(nodes, kind, name, choice) == Tokens(Apply(nodes, kind, name, choice)) <==>
      Meant(nodes, kind, name, choice)
    decreases nodes, 0
  {
    hide RewrittenNode, ApplyNode, BodiesNumberableNode, NodeTokens, MakesCopies;
    if nodes == [] {
      TokensOfNothing();
    } else {
      RewrittenNodeIsMeant(nodes[0], kind, name, choice);
      RewrittenIsMeant(nodes[1..], kind, name, choice);
      var a, b := ApplyNode(nodes[0], kind, name, choice), Apply(nodes[1..], kind, name, choice);
      TokensConcat(a, b);
      PartsAgree(RewrittenNode(nodes[0], kind, name, choice), Rewritten(nodes[1..], kind, name, choice),
                 Tokens(a), Tokens(b));
    }
  }

  // ---------- The rewriting loop performs the transformation ----------

  lemma {:induction false} FindTagBehind(pre: seq<Token>, content: string, post: seq<Token>)
    requires Without(pre, content)
    ensures FindTag(pre + [Tag(content)] + post, content) == |pre|
  {
    var ts := pre + [Tag(content)] + post;
    assert ts[|pre|] == Tag(content);
    assert forall i :: 0 <= i < |pre| ==> ts[i] == pre[i];
  }

  lemma PartWithElse(body: seq<Token>, els: seq<Token>, tail: seq<Token>, name: string, choice: Choice)
    requires Without(body, End(name)) && Without(body, Else(name)) && Without(els, End(name))
    ensures var rest := body + ([Tag(Else(name))] + els) + [Tag(End(name))] + tail;
      var e := FindTag(rest, End(name));
      e != -1 && rest[e + 1..] == tail && Part(rest, name, choice) == Expand(choice, name, body, els)
  {
    hide FindTag, Expand;
    var before, rest := body + ([Tag(Else(name))] + els), body + ([Tag(Else(name))] + els) + [Tag(End(name))] + tail;
    TagsDiffer(name);
    FindTagBehind(before, End(name), tail);
    assert rest == body + [Tag(Else(name))] + (els + [Tag(End(name))] + tail);
    FindTagBehind(body, Else(name), els + [Tag(End(name))] + tail);
    assert rest[|before| + 1..] == tail;
    assert rest[..|body|] == body && rest[|body| + 1..|before|] == els;
  }

  lemma PartWhenNoElse(body: seq<Token>, tail: seq<Token>, name: string, choice: Choice)
    requires Without(body, End(name)) && Without(body, Else(name))
    ensures var rest := body + [Tag(End(name))] + tail;
      var e := FindTag(rest, End(name));
      e != -1 && rest[e + 1..] == tail && Part(rest, name, choice) == Expand(choice, name, body, [])
  {
    hide Expand;
    var rest := body + [Tag(End(name))] + tail;
    FindTagBehind(body, End(name), tail);
    NoTagBefore(rest, |body|, Else(name));
    hide FindTag;
    assert rest[|body| + 1..] == tail && rest[..|body|] == body;
  }

  lemma NoTagBefore(ts: seq<Token>, n: nat, content: string)
    requires n <= |ts| && Without(ts[..n], content)
    ensures FindTag(ts, content) == -1 || FindTag(ts, content) >= n
  {
    assert forall i :: 0 <= i < n ==> ts[..n][i] == ts[i];
  }

  lemma PartOfBlock(node: Node, tail: seq<Token>, kind: Kind, name: string, choice: Choice)
    requires BraceFree(name) && node.Block? && node.kind == kind && node.name == name
    requires Innermost(Tokens(node.body), kind, name) && Innermost(Tokens(ElseNodes(node.els)), kind, name)
    ensures NodeTokens(node) != []
    ensures var ts := NodeTokens(node) + tail;
      var e := FindTag(ts[1..], End(name));
      && ts != [] && ts[0] == Tag(Opener(kind, name))
      && e != -1 && ts[1..][e + 1..] == tail
      && Part(ts[1..], name, choice) == Expand(choice, name, Tokens(node.body), Tokens(ElseNodes(node.els)))
  {
    hide Expand, BraceFree, FindTag, Part, Tokens;
    var body, ts := Tokens(node.body), NodeTokens(node) + tail;
    assert ts[1..] == body + ElseTokens(name, node.els) + [Tag(End(name))] + tail;
    match node.els {
      case ElsePart(nodes) =>
        PartWithElse(body, Tokens(nodes), tail, name, choice);
      case NoElse =>
        PartWhenNoElse(body, tail, name, choice);
        assert body + [] == body;
        TokensOfNothing();
    }
  }

  lemma TokensOfNothing()
    ensures Tokens([]) == []
  {
  }

  lemma TagsDiffer(name: string)
    ensures Tag(Else(name)) != Tag(End(name))
  {
    assert Else(name)[1] == 'l' && End(name)[1] == 'n';
  }

  lemma ExpandedHasNoOpener(choice: Choice, kind: Kind, name: string, body: seq<Token>, els: seq<Token>)
    requires BraceFree(name) && Without(body, Opener(kind, name)) && Without(els, Opener(kind, name))
    ensures Without(Expand(choice, name, body, els), Opener(kind, name))
  {
    if choice.Repeat? && choice.times > 0 {
      KeywordsOfKinds(kind);
      CopiesHaveNone(body, kind.Keyword(), name, 0, choice.times);
    }
  }

  lemma PassBlock(node: Node, tail: seq<Token>, kind: Kind, name: string, choice: Choice)
    requires BraceFree(name) && node.Block? && node.kind == kind && node.name == name
    requires SafeNode(node, kind, name)
    ensures Pass(NodeTokens(node) + tail, kind, name, choice)
         == Prepend(RewrittenNode(node, kind, name, choice), 1, Pass(tail, kind, name, choice))
  {
    hide NodeTokens, Part, Expand, FindTag, Pass, Without;
    PartOfBlock(node, tail, kind, name, choice);
    PassAtFirst(NodeTokens(node) + tail, kind, name, choice);
    var part := Expand(choice, name, Tokens(node.body), Tokens(ElseNodes(node.els)));
    ExpandedHasNoOpener(choice, kind, name, Tokens(node.body), Tokens(ElseNodes(node.els)));
    PassSkips(part, tail, kind, name, choice);
    PrependTwice([], 1, part, 0, Pass(tail, kind, name, choice));
    assert [] + part == part;
  }

  /** A token other than the opener is passed over. */
  lemma PassToken(t: Token, tail: seq<Token>, kind: Kind, name: string, choice: Choice)
    requires BraceFree(name) && t != Tag(Opener(kind, name))
    ensures Pass([t] + tail, kind, name, choice) == Prepend([t], 0, Pass(tail, kind, name, choice))
  {
    assert ([t] + tail)[1..] == tail;
  }

  lemma BlockTagsAreNoOpener(k: Kind, n: string, kind: Kind, name: string)
    ensures k != kind || n != name ==> Tag(Opener(k, n)) != Tag(Opener(kind, name))
    ensures Tag(Else(n)) != Tag(Opener(kind, name)) && Tag(End(n)) != Tag(Opener(kind, name))
  {
    KeywordsOfKinds(k);
    KeywordsOfKinds(kind);
    assert Else(n)[0] == 'e' && End(n)[0] == 'e' && Opener(kind, name)[0] == kind.Keyword()[0];
    if k != kind {
      var i := KeywordsDiffer(k.Keyword(), kind.Keyword());
      assert Opener(k, n)[i] == k.Keyword()[i] && Opener(kind, name)[i] == kind.Keyword()[i];
    } else if n != name {
      assert Opener(k, n)[|k.Keyword()|..] == n && Opener(kind, name)[|k.Keyword()|..] == name;
    }
  }

  lemma {:induction false} PassNode(node: Node, tail: seq<Token>, kind: Kind, name: string, choice: Choice)
    requires BraceFree(name) && SafeNode(node, kind, name)
    ensures Pass(NodeTokens(node) + tail, kind, name, choice)
         == Prepend(RewrittenNode(node, kind, name, choice), CountNode(node, kind, name),
                    Pass(tail, kind, name, choice))
    decreases node, 1
  {
    hide Pass;
    match node {
      case Leaf(t) =>
        PassToken(t, tail, kind, name, choice);
      case Block(k, n, body, els) =>
        if k == kind && n == name {
          PassBlock(node, tail, kind, name, choice);
        } else {
          hide Opener, End, Prepend, Tokens, ElseTokens, Rewritten, RewrittenElse, Count, CountElse, Safe, SafeElse;
          BlockTagsAreNoOpener(k, n, kind, name);
          var e, tail2 := ElseTokens(n, els), [Tag(End(n))] + tail;
          PassNodes(body, e + tail2, kind, name, choice);
          PassElse(n, els, tail2, kind, name, choice);
          PassOtherBlock(Tag(Opener(k, n)), Tokens(body), e, Tag(End(n)), tail, kind, name, choice,
                         Rewritten(body, kind, name, choice), Count(body, kind, name),
                         RewrittenElse(n, els, kind, name, choice), CountElse(els, kind, name));
        }
    }
  }

  /** Passing over a block part by part. */
  lemma PassOtherBlock(opener: Token, body: seq<Token>, els: seq<Token>, end: Token, tail: seq<Token>,
                       kind: Kind, name: string, choice: Choice,
                       body': seq<Token>, m: nat, els': seq<Token>, m': nat)
    requires BraceFree(name) && opener != Tag(Opener(kind, name)) && end != Tag(Opener(kind, name))
    requires Pass(body + (els + ([end] + tail)), kind, name, choice)
          == Prepend(body', m, Pass(els + ([end] + tail), kind, name, choice))
    requires Pass(els + ([end] + tail), kind, name, choice) == Prepend(els', m', Pass([end] + tail, kind, name, choice))
    ensures Pass([opener] + body + els + [end] + tail, kind, name, choice)
         == Prepend([opener] + body' + els' + [end], m + m', Pass(tail, kind, name, choice))
  {
    hide Pass, Prepend;
    var r := Pass(tail, kind, name, choice);
    assert [opener] + body + els + [end] + tail == [opener] + (body + (els + ([end] + tail)));
    PassToken(opener, body + (els + ([end] + tail)), kind, name, choice);
    PassToken(end, tail, kind, name, choice);
    PrependTwice(els', m', [end], 0, r);
    PrependTwice(body', m, els' + [end], m', r);
    PrependTwice([opener], 0, body' + (els' + [end]), m + m', r);
    assert [opener] + (body' + (els' + [end])) == [opener] + body' + els' + [end];
  }

  lemma SingleNode(node: Node)
    ensures Tokens([node]) == NodeTokens(node)
  {
    assert [node][1..] == [];
    assert NodeTokens(node) + [] == NodeTokens(node);
  }

  lemma {:induction false} PassElse(n: string, els: ElsePart, tail: seq<Token>, kind: Kind, name: string,
          choice: Choice)
    requires BraceFree(name) && SafeElse(els, kind, name)
    ensures Pass(ElseTokens(n, els) + tail, kind, name, choice)
         == Prepend(RewrittenElse(n, els, kind, name, choice), CountElse(els, kind, name),
                    Pass(tail, kind, name, choice))
    decreases els, 1
  {
    hide Pass;
    var r := Pass(tail, kind, name, choice);
    match els {
      case NoElse =>
        assert [] + tail == tail;
        PrependEmpty(r);
      case ElsePart(nodes) =>
        BlockTagsAreNoOpener(If, n, kind, name);
        assert ElseTokens(n, els) + tail == [Tag(Else(n))] + (Tokens(nodes) + tail);
        PassToken(Tag(Else(n)), Tokens(nodes) + tail, kind, name, choice);
        PassNodes(nodes, tail, kind, name, choice);
        PrependTwice([Tag(Else(n))], 0, Rewritten(nodes, kind, name, choice), Count(nodes, kind, name), r);
    }
  }

  lemma PrependEmpty(r: Result)
    ensures Prepend([], 0, r) == r
  {
    assert r.Done? ==> [] + r.ts == r.ts;
  }

  lemma {:induction false} PassNodes(nodes: seq<Node>, tail: seq<Token>, kind: Kind, name: string, choice: Choice)
    requires BraceFree(name) && Safe(nodes, kind, name)
    ensures Pass(Tokens(nodes) + tail, kind, name, choice)
         == Prepend(Rewritten(nodes, kind, name, choice), Count(nodes, kind, name), Pass(tail, kind, name, choice))
    decreases nodes, 0
  {
    hide Pass, NodeTokens, SafeNode, RewrittenNode, CountNode;
    var r := Pass(tail, kind, name, choice);
    if nodes == [] {
      assert [] + tail == tail;
      PrependEmpty(r);
    } else {
      assert Tokens(nodes) + tail == NodeTokens(nodes[0]) + (Tokens(nodes[1..]) + tail);
      PassNode(nodes[0], Tokens(nodes[1..]) + tail, kind, name, choice);
      PassNodes(nodes[1..], tail, kind, name, choice);
      PrependTwice(RewrittenNode(nodes[0], kind, name, choice), CountNode(nodes[0], kind, name),
                   Rewritten(nodes[1..], kind, name, choice), Count(nodes[1..], kind, name), r);
    }
  }

  /**
   On a safe tree the loop terminates, replaces the blocks and counts them; it prints the transformed tree if and only
   if no block tag in a copied body is mistaken for one of a variable of the loop.
   */
  lemma PassOnTree(nodes: seq<Node>, kind: Kind, name: string, choice: Choice)
    requires BraceFree(name) && Safe(nodes, kind, name)
    ensures Pass(Tokens(nodes), kind, name, choice)
         == Done(Rewritten(nodes, kind, name, choice), Count(nodes, kind, name))
    ensures Rewritten(nodes, kind, name, choice) == Tokens(Apply(nodes, kind, name, choice)) <==>
      Meant(nodes, kind, name, choice)
  {
    hide Pass, Safe, Tokens, Rewritten, Apply, Count, Meant;
    PassNodes(nodes, [], kind, name, choice);
    assert Tokens(nodes) + [] == Tokens(nodes);
    PassNothing(kind, name, choice);
    var ts := Rewritten(nodes, kind, name, choice);
    assert ts + [] == ts;
    RewrittenIsMeant(nodes, kind, name, choice);
  }

  lemma PassNothing(kind: Kind, name: string, choice: Choice)
    requires BraceFree(name)
    ensures Pass([], kind, name, choice) == Done([], 0)
  {
  }
}
