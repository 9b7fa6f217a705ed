/** Well-formed templates: every operation works on them, keeps them well-formed, and conditions commute. */
module TemplateWellFormed {
  import opened Strings
  import opened Sequences
  import opened TemplateTokens
  import opened TemplatePass
  import opened TemplateTree
  import opened TemplateEngine

  /** No construct tag of this name. */
  predicate Foreign(ts: seq<Token>, name: string) {
    forall k :: 1 <= k < |KEYWORDS| ==> Without(ts, KEYWORDS[k] + name)
  }

  /** A tag that is no start, else or end tag. */
  predicate Plain(t: Token) {
    t.Lexed() && (t.Tag? ==> forall k :: 1 <= k < |KEYWORDS| ==> !(KEYWORDS[k] <= t.content))
  }

  predicate WellFormedNode(node: Node)
    decreases node, 1
  {
    match node
    case Leaf(t) => Plain(t)
    case Block(_, name, body, els) =>
      && BraceFree(name) && WellFormed(body) && WellFormedElse(els)
      && Foreign(Tokens(body), name) && Foreign(Tokens(ElseNodes(els)), name)
  }

  predicate WellFormedElse(els: ElsePart)
    decreases els, 1
  {
    match els
    case NoElse => true
    case ElsePart(nodes) => WellFormed(nodes)
  }

  /** No construct inside another one of the same name; construct tags only as parts of their blocks. */
  predicate WellFormed(nodes: seq<Node>)
    decreases nodes, 0
  {
    nodes == [] || (WellFormedNode(nodes[0]) && WellFormed(nodes[1..]))
  }

  lemma {:induction false} WellFormedConcat(a: seq<Node>, b: seq<Node>)
    ensures WellFormed(a + b) <==> WellFormed(a) && WellFormed(b)
    decreases |a|
  {
    hide WellFormedNode;
    if a == [] {
      assert a + b == b;
    } else {
      assert (a + b)[1..] == a[1..] + b;
      WellFormedConcat(a[1..], b);
    }
  }

  // ---------- Well-formed trees are safe for every operation ----------

  lemma ForeignIsInnermost(ts: seq<Token>, kind: Kind, name: string)
    requires Foreign(ts, name)
    ensures Innermost(ts, kind, name)
  {
    assert KEYWORDS[1] == "if " && KEYWORDS[2] == "ifnot " && KEYWORDS[3] == "else " && KEYWORDS[4] == "end ";
    assert KEYWORDS[5] == "loop ";
  }

  lemma PlainIsNoOpener(t: Token, kind: Kind, name: string)
    requires Plain(t)
    ensures t != Tag(Opener(kind, name))
  {
    assert KEYWORDS[1] == "if " && KEYWORDS[2] == "ifnot " && KEYWORDS[5] == "loop ";
    assert kind.Keyword() <= Opener(kind, name);
  }

  lemma {:induction false} WellFormedNodeIsSafe(node: Node, kind: Kind, name: string)
    requires WellFormedNode(node)
    ensures SafeNode(node, kind, name)
    decreases node, 1
  {
    match node {
      case Leaf(t) =>
        PlainIsNoOpener(t, kind, name);
      case Block(k, n, body, els) =>
        WellFormedIsSafe(body, kind, name);
        if els.ElsePart? {
          WellFormedIsSafe(els.nodes, kind, name);
        }
        if n == name {
          ForeignIsInnermost(Tokens(body), kind, name);
          ForeignIsInnermost(Tokens(ElseNodes(els)), kind, name);
        }
    }
  }

  lemma {:induction false} WellFormedIsSafe(nodes: seq<Node>, kind: Kind, name: string)
    requires WellFormed(nodes)
    ensures Safe(nodes, kind, name)
    decreases nodes, 0
  {
    hide SafeNode, WellFormedNode;
    if nodes != [] {
      WellFormedNodeIsSafe(nodes[0], kind, name);
      WellFormedIsSafe(nodes[1..], kind, name);
    }
  }

  lemma {:induction false} WellFormedNodeIsLexed(node: Node)
    requires WellFormedNode(node)
    ensures Lexed(NodeTokens(node))
    decreases node, 1
  {
    if node.Block? {
      WellFormedIsLexed(node.body);
      if node.els.ElsePart? {
        WellFormedIsLexed(node.els.nodes);
      }
      NamesAreBraceFree(node.name);
    }
  }

  lemma {:induction false} WellFormedIsLexed(nodes: seq<Node>)
    requires WellFormed(nodes)
    ensures Lexed(Tokens(nodes))
    decreases nodes, 0
  {
    hide WellFormedNode, NodeTokens;
    if nodes != [] {
      WellFormedNodeIsLexed(nodes[0]);
      WellFormedIsLexed(nodes[1..]);
    }
  }

  // ---------- Taking parts keeps a tree well-formed ----------

  predicate Within(a: seq<Token>, b: seq<Token>) {
    forall t :: t in a ==> t in b
  }

  lemma ForeignWithin(a: seq<Token>, b: seq<Token>, name: string)
    requires Within(a, b) && Foreign(b, name)
    ensures Foreign(a, name)
  {
    forall k, i | 1 <= k < |KEYWORDS| && 0 <= i < |a|
      ensures a[i] != Tag(KEYWORDS[k] + name)
    {
      assert a[i] in b;
      var j :| 0 <= j < |b| && b[j] == a[i];
      assert Without(b, KEYWORDS[k] + name);
    }
  }

  lemma {:induction false} TakeNode(node: Node, kind: Kind, name: string, takeBody: bool)
    requires WellFormedNode(node)
    ensures WellFormed(ApplyNode(node, kind, name, Take(takeBody)))
    ensures Within(Tokens(ApplyNode(node, kind, name, Take(takeBody))), NodeTokens(node))
    decreases node, 1
  {
    SingleNode(node);
    match node {
      case Leaf(t) =>
        assert [node][1..] == [];
      case Block(k, n, body, els) =>
        if k == kind && n == name {
          TokensOfBlock(node);
        } else {
          TakeNodes(body, kind, name, takeBody);
          TakeElse(els, kind, name, takeBody);
          var choice := Take(takeBody);
          var els' := ApplyElse(els, kind, name, choice);
          var b := Block(k, n, Apply(body, kind, name, choice), els');
          SingleNode(b);
          WellFormedOne(b);
          TokensOfBlock(node);
          TokensOfBlock(b);
          ForeignWithin(Tokens(b.body), Tokens(body), n);
          ForeignWithin(Tokens(ElseNodes(els')), Tokens(ElseNodes(els)), n);
        }
    }
  }

  lemma WellFormedOne(node: Node)
    ensures WellFormed([node]) <==> WellFormedNode(node)
  {
    assert [node][1..] == [];
  }

  /** The tokens of a block. */
  lemma TokensOfBlock(node: Node)
    requires node.Block?
    ensures forall t :: t in NodeTokens(node) <==>
      || t == Tag(Opener(node.kind, node.name)) || t == Tag(End(node.name))
      || t in Tokens(node.body) || t in Tokens(ElseNodes(node.els))
      || (node.els.ElsePart? && t == Tag(Else(node.name)))
  {
  }

  lemma {:induction false} TakeElse(els: ElsePart, kind: Kind, name: string, takeBody: bool)
    requires WellFormedElse(els)
    ensures WellFormedElse(ApplyElse(els, kind, name, Take(takeBody)))
    ensures Within(Tokens(ElseNodes(ApplyElse(els, kind, name, Take(takeBody)))), Tokens(ElseNodes(els)))
    decreases els, 1
  {
    if els.ElsePart? {
      TakeNodes(els.nodes, kind, name, takeBody);
    }
  }

  /** After a condition is set the tree is still well-formed, and contains no new tags. */
  lemma {:induction false} TakeNodes(nodes: seq<Node>, kind: Kind, name: string, takeBody: bool)
    requires WellFormed(nodes)
    ensures WellFormed(Apply(nodes, kind, name, Take(takeBody)))
    ensures Within(Tokens(Apply(nodes, kind, name, Take(takeBody))), Tokens(nodes))
    decreases nodes, 0
  {
    hide WellFormedNode, NodeTokens, ApplyNode;
    if nodes != [] {
      TakeNode(nodes[0], kind, name, takeBody);
      TakeNodes(nodes[1..], kind, name, takeBody);
      var a, b := ApplyNode(nodes[0], kind, name, Take(takeBody)), Apply(nodes[1..], kind, name, Take(takeBody));
      WellFormedConcat(a, b);
      TokensConcat(a, b);
    }
  }

  // ---------- Counting ----------

  lemma {:induction false} CountNone(nodes: seq<Node>, kind: Kind, name: string)
    requires Without(Tokens(nodes), Opener(kind, name))
    ensures Count(nodes, kind, name) == 0
    decreases nodes, 0
  {
    hide NodeTokens, CountNode;
    if nodes != [] {
      var a, b := NodeTokens(nodes[0]), Tokens(nodes[1..]);
      WithoutParts(a, b, Opener(kind, name));
      CountNoneNode(nodes[0], kind, name);
      CountNone(nodes[1..], kind, name);
    }
  }

  lemma WithoutParts(a: seq<Token>, b: seq<Token>, content: string)
    ensures Without(a + b, content) <==> Without(a, content) && Without(b, content)
  {
    assert forall i :: 0 <= i < |a| ==> (a + b)[i] == a[i];
    assert forall i :: 0 <= i < |b| ==> (a + b)[|a| + i] == b[i];
  }

  lemma {:induction false} CountNoneNode(node: Node, kind: Kind, name: string)
    requires Without(NodeTokens(node), Opener(kind, name))
    ensures CountNode(node, kind, name) == 0
    decreases node, 1
  {
    if node.Block? {
      var c := Opener(kind, name);
      var a, b := [Tag(Opener(node.kind, node.name))], Tokens(node.body);
      var e := ElseTokens(node.name, node.els);
      WithoutParts(a + b + e, [Tag(End(node.name))], c);
      WithoutParts(a + b, e, c);
      WithoutParts(a, b, c);
      assert a[0] == Tag(Opener(node.kind, node.name));
      CountNone(node.body, kind, name);
      if node.els.ElsePart? {
        WithoutParts([Tag(Else(node.name))], Tokens(node.els.nodes), c);
        CountNone(node.els.nodes, kind, name);
      }
    }
  }

  lemma {:induction false} CountConcat(a: seq<Node>, b: seq<Node>, kind: Kind, name: string)
    ensures Count(a + b, kind, name) == Count(a, kind, name) + Count(b, kind, name)
    decreases |a|
  {
    hide CountNode;
    if a == [] {
      assert a + b == b;
    } else {
      assert (a + b)[1..] == a[1..] + b;
      CountConcat(a[1..], b, kind, name);
    }
  }

  /** Resolving the `if` blocks of a name leaves its `ifnot` blocks. */
  lemma {:induction false} IfNotBlocksStay(nodes: seq<Node>, name: string, takeBody: bool)
    requires WellFormed(nodes)
    ensures Count(Apply(nodes, If, name, Take(takeBody)), IfNot, name) == Count(nodes, IfNot, name)
    decreases nodes, 0
  {
    hide WellFormedNode, ApplyNode, CountNode;
    if nodes != [] {
      IfNotBlocksStayNode(nodes[0], name, takeBody);
      IfNotBlocksStay(nodes[1..], name, takeBody);
      CountConcat(ApplyNode(nodes[0], If, name, Take(takeBody)), Apply(nodes[1..], If, name, Take(takeBody)), IfNot,
          name);
    }
  }

  lemma {:induction false} IfNotBlocksStayNode(node: Node, name: string, takeBody: bool)
    requires WellFormedNode(node)
    ensures Count(ApplyNode(node, If, name, Take(takeBody)), IfNot, name) == CountNode(node, IfNot, name)
    decreases node, 1
  {
    match node {
      case Leaf(_) =>
        assert [node][1..] == [];
      case Block(k, n, body, els) =>
        if k == If && n == name {
          ForeignIsInnermost(Tokens(body), IfNot, name);
          ForeignIsInnermost(Tokens(ElseNodes(els)), IfNot, name);
          CountNone(body, IfNot, name);
          CountNone(ElseNodes(els), IfNot, name);
        } else {
          IfNotBlocksStay(body, name, takeBody);
          if els.ElsePart? {
            IfNotBlocksStay(els.nodes, name, takeBody);
          }
          CountOne(Block(k, n, Apply(body, If, name, Take(takeBody)), ApplyElse(els, If, name, Take(takeBody))), IfNot,
              name);
        }
    }
  }

  lemma CountOne(node: Node, kind: Kind, name: string)
    ensures Count([node], kind, name) == CountNode(node, kind, name)
  {
    assert [node][1..] == [];
  }

  // ---------- Conditions ----------

  /** The meaning of `setCondition`. */
  function SetConditionTree(nodes: seq<Node>, name: string, value: bool): seq<Node> {
    Apply(Apply(nodes, If, name, Take(value)), IfNot, name, Take(!value))
  }

  /**
   `setCondition` on a printed well-formed tree terminates, leaves the print of the tree with each `if` and
   `ifnot` block of that name replaced by its chosen branch, returns the number of these blocks, and the
   result is well-formed again.
   */
  lemma SetConditionOnTree(nodes: seq<Node>, name: string, value: bool)
    requires WellFormed(nodes) && BraceFree(name)
    ensures Lexed(Tokens(nodes))
    ensures SetConditionResult(Tokens(nodes), name, value)
         == Done(Tokens(SetConditionTree(nodes, name, value)), Count(nodes, If, name) + Count(nodes, IfNot, name))
    ensures WellFormed(SetConditionTree(nodes, name, value))
  {
    hide Pass, WellFormed, Apply, Tokens, Count, Safe, Rewritten;
    WellFormedIsLexed(nodes);
    var first := Apply(nodes, If, name, Take(value));
    WellFormedIsSafe(nodes, If, name);
    PassOnTree(nodes, If, name, Take(value));
    TakeNodes(nodes, If, name, value);
    WellFormedIsSafe(first, IfNot, name);
    PassOnTree(first, IfNot, name, Take(!value));
    TakeNodes(first, IfNot, name, !value);
    IfNotBlocksStay(nodes, name, value);
    var ts := Tokens(SetConditionTree(nodes, name, value));
    assert [] + ts == ts;
  }

  lemma {:induction false} ApplyConcat(a: seq<Node>, b: seq<Node>, kind: Kind, name: string, choice: Choice)
    ensures Apply(a + b, kind, name, choice) == Apply(a, kind, name, choice) + Apply(b, kind, name, choice)
    decreases |a|
  {
    hide ApplyNode;
    if a == [] {
      assert a + b == b;
    } else {
      assert (a + b)[1..] == a[1..] + b;
      ApplyConcat(a[1..], b, kind, name, choice);
    }
  }

  lemma ApplyOne(node: Node, kind: Kind, name: string, choice: Choice)
    ensures Apply([node], kind, name, choice) == ApplyNode(node, kind, name, choice)
  {
    assert [node][1..] == [];
  }

  lemma {:induction false} TakesCommute(nodes: seq<Node>, k1: Kind, n1: string, t1: bool, k2: Kind, n2: string,
          t2: bool)
    requires k1 != k2 || n1 != n2
    ensures Apply(Apply(nodes, k1, n1, Take(t1)), k2, n2, Take(t2))
         == Apply(Apply(nodes, k2, n2, Take(t2)), k1, n1, Take(t1))
    decreases nodes, 0
  {
    hide ApplyNode;
    if nodes != [] {
      TakesCommuteNode(nodes[0], k1, n1, t1, k2, n2, t2);
      TakesCommute(nodes[1..], k1, n1, t1, k2, n2, t2);
      ApplyConcat(ApplyNode(nodes[0], k1, n1, Take(t1)), Apply(nodes[1..], k1, n1, Take(t1)), k2, n2, Take(t2));
      ApplyConcat(ApplyNode(nodes[0], k2, n2, Take(t2)), Apply(nodes[1..], k2, n2, Take(t2)), k1, n1, Take(t1));
    }
  }

  lemma {:induction false} TakesCommuteNode(node: Node, k1: Kind, n1: string, t1: bool, k2: Kind, n2: string, t2: bool)
    requires k1 != k2 || n1 != n2
    ensures Apply(ApplyNode(node, k1, n1, Take(t1)), k2, n2, Take(t2))
         == Apply(ApplyNode(node, k2, n2, Take(t2)), k1, n1, Take(t1))
    decreases node, 1
  {
    hide Apply;
    var c1, c2 := Take(t1), Take(t2);
    match node {
      case Leaf(_) =>
        ApplyOne(node, k1, n1, c1);
        ApplyOne(node, k2, n2, c2);
      case Block(k, n, body, els) =>
        TakesCommute(body, k1, n1, t1, k2, n2, t2);
        TakesCommuteElse(els, k1, n1, t1, k2, n2, t2);
        ApplyOne(Block(k, n, Apply(body, k1, n1, c1), ApplyElse(els, k1, n1, c1)), k2, n2, c2);
        ApplyOne(Block(k, n, Apply(body, k2, n2, c2), ApplyElse(els, k2, n2, c2)), k1, n1, c1);
        ApplyNothing(k1, n1, c1);
        ApplyNothing(k2, n2, c2);
    }
  }

  lemma ApplyNothing(kind: Kind, name: string, choice: Choice)
    ensures Apply([], kind, name, choice) == []
  {
  }

  lemma {:induction false} TakesCommuteElse(els: ElsePart, k1: Kind, n1: string, t1: bool, k2: Kind, n2: string,
          t2: bool)
    requires k1 != k2 || n1 != n2
    ensures ApplyElse(ApplyElse(els, k1, n1, Take(t1)), k2, n2, Take(t2))
         == ApplyElse(ApplyElse(els, k2, n2, Take(t2)), k1, n1, Take(t1))
    decreases els, 1
  {
    if els.ElsePart? {
      TakesCommute(els.nodes, k1, n1, t1, k2, n2, t2);
    }
  }

  /** Setting two different conditions commutes, on the tree and on the final text. */
  lemma ConditionsCommute(nodes: seq<Node>, a: string, v: bool, b: string, w: bool)
    requires WellFormed(nodes) && BraceFree(a) && BraceFree(b) && a != b
    ensures SetConditionTree(SetConditionTree(nodes, a, v), b, w)
        == SetConditionTree(SetConditionTree(nodes, b, w), a, v)
    ensures var ab, ba := SetConditionResult(Tokens(nodes), a, v), SetConditionResult(Tokens(nodes), b, w);
      && ab.Done? && ba.Done?
      && var ab', ba' := SetConditionResult(ab.ts, b, w), SetConditionResult(ba.ts, a, v);
         ab'.Done? && ba'.Done? && Print(ab'.ts) == Print(ba'.ts)
  {
    hide Apply, Pass, WellFormed, Tokens, Print;
    var x := Apply(nodes, If, a, Take(v));
    var y := Apply(x, IfNot, a, Take(!v));
    TakesCommute(x, IfNot, a, !v, If, b, w);
    TakesCommute(Apply(x, If, b, Take(w)), IfNot, a, !v, IfNot, b, !w);
    TakesCommute(nodes, If, a, v, If, b, w);
    TakesCommute(Apply(nodes, If, b, Take(w)), If, a, v, IfNot, b, !w);
    SetConditionOnTree(nodes, a, v);
    SetConditionOnTree(nodes, b, w);
    SetConditionOnTree(SetConditionTree(nodes, a, v), b, w);
    SetConditionOnTree(SetConditionTree(nodes, b, w), a, v);
  }
}
