/** Loops on well-formed templates: exactly when numbered copies stay well-formed, so that loops compose. */
module TemplateLoops {
  import opened Strings
  import opened Sequences
  import opened TemplateTokens
  import opened TemplatePass
  import opened TemplateTree
  import opened TemplateEngine
  import opened TemplateWellFormed

  // ---------- The names of the blocks ----------

  function NamesOfNode(node: Node): set<string>
    decreases node, 1
  {
    match node
    case Leaf(_) => {}
    case Block(_, n, body, els) => {n} + Names(body) + NamesOfElse(els)
  }

  function NamesOfElse(els: ElsePart): set<string>
    decreases els, 1
  {
    match els
    case NoElse => {}
    case ElsePart(nodes) => Names(nodes)
  }

  /** The names of all blocks of the tree. */
  function Names(nodes: seq<Node>): set<string>
    decreases nodes, 0
  {
    if nodes == [] then {} else NamesOfNode(nodes[0]) + Names(nodes[1..])
  }

  lemma {:induction false} NamesConcat(a: seq<Node>, b: seq<Node>)
    ensures Names(a + b) == Names(a) + Names(b)
    decreases |a|
  {
    hide NamesOfNode;
    if a == [] {
      assert a + b == b;
    } else {
      assert (a + b)[1..] == a[1..] + b;
      NamesConcat(a[1..], b);
    }
  }

  lemma SameTail(a: string, b: string, c: string)
    ensures a + b == a + c <==> b == c
    ensures b <= c <==> a + b <= a + c
  {
    assert (a + b)[|a|..] == b && (a + c)[|a|..] == c;
    PrefixBehind(a, b, c);
  }

  lemma ForeignConcat(a: seq<Token>, b: seq<Token>, name: string)
    ensures Foreign(a + b, name) <==> Foreign(a, name) && Foreign(b, name)
  {
    forall k | 1 <= k < |KEYWORDS|
      ensures Without(a + b, KEYWORDS[k] + name) <==> Without(a, KEYWORDS[k] + name) && Without(b, KEYWORDS[k] + name)
    {
      WithoutParts(a, b, KEYWORDS[k] + name);
    }
  }

  /** A construct tag is foreign to every name but its own. */
  lemma TagIsForeign(keyword: string, n: string, other: string)
    requires keyword in KEYWORDS[1..]
    ensures Foreign([Tag(keyword + n)], other) <==> n != other
  {
    var ts := [Tag(keyword + n)];
    if n == other {
      var k :| 0 <= k < |KEYWORDS[1..]| && KEYWORDS[1..][k] == keyword;
      assert KEYWORDS[k + 1] == keyword && ts[0] == Tag(KEYWORDS[k + 1] + other);
      assert !Without(ts, KEYWORDS[k + 1] + other);
    } else {
      forall k | 1 <= k < |KEYWORDS|
        ensures Without(ts, KEYWORDS[k] + other)
      {
        KeywordMembers(k);
        if KEYWORDS[k] == keyword {
          SameTail(keyword, n, other);
        } else {
          var j := KeywordsDiffer(KEYWORDS[k], keyword);
          assert (keyword + n)[j] == keyword[j] && (KEYWORDS[k] + other)[j] == KEYWORDS[k][j];
        }
      }
    }
  }

  lemma {:induction false} NamesAreForeignNode(node: Node, other: string)
    requires WellFormedNode(node)
    ensures Foreign(NodeTokens(node), other) <==> other !in NamesOfNode(node)
    decreases node, 1
  {
    match node {
      case Leaf(t) =>
        assert t.Tag? ==> forall k :: 1 <= k < |KEYWORDS| ==> KEYWORDS[k] <= KEYWORDS[k] + other;
      case Block(kind, n, body, els) =>
        hide Foreign, Names, Tokens;
        KeywordsOfKinds(kind);
        var opener, end := [Tag(Opener(kind, n))], [Tag(End(n))];
        TagIsForeign(kind.Keyword(), n, other);
        TagIsForeign("end ", n, other);
        NamesAreForeign(body, other);
        NamesAreForeignElse(n, els, other);
        ForeignConcat(opener, Tokens(body), other);
        ForeignConcat(opener + Tokens(body), ElseTokens(n, els), other);
        ForeignConcat(opener + Tokens(body) + ElseTokens(n, els), end, other);
    }
  }

  lemma {:induction false} NamesAreForeignElse(n: string, els: ElsePart, other: string)
    requires WellFormedElse(els)
    ensures Foreign(Tokens(ElseNodes(els)), other) <==> other !in NamesOfElse(els)
    ensures n != other ==> (Foreign(ElseTokens(n, els), other) <==> other !in NamesOfElse(els))
    decreases els, 1
  {
    match els {
      case NoElse =>
      case ElsePart(nodes) =>
        hide Foreign, Names, Tokens;
        KeywordsOfKinds(If);
        TagIsForeign("else ", n, other);
        NamesAreForeign(nodes, other);
        ForeignConcat([Tag(Else(n))], Tokens(nodes), other);
    }
  }

  /** A name is foreign to a well-formed template if and only if no block has it. */
  lemma {:induction false} NamesAreForeign(nodes: seq<Node>, other: string)
    requires WellFormed(nodes)
    ensures Foreign(Tokens(nodes), other) <==> other !in Names(nodes)
    decreases nodes, 0
  {
    if nodes != [] {
      hide Foreign, NamesOfNode, NodeTokens, WellFormedNode;
      NamesAreForeignNode(nodes[0], other);
      NamesAreForeign(nodes[1..], other);
      ForeignConcat(NodeTokens(nodes[0]), Tokens(nodes[1..]), other);
    }
  }

  lemma WellFormedBlock(kind: Kind, n: string, body: seq<Node>, els: ElsePart)
    ensures WellFormedNode(Block(kind, n, body, els)) <==>
      BraceFree(n) && WellFormed(body) && WellFormedElse(els) && n !in Names(body) + NamesOfElse(els)
  {
    hide Foreign, Tokens, Names, NamesOfElse, WellFormed, BraceFree;
    if WellFormed(body) && WellFormedElse(els) {
      NamesAreForeign(body, n);
      NamesAreForeignElse(n, els, n);
    }
  }

  // ---------- Numbering tags and names ----------

  lemma KeywordMembers(k: nat)
    requires 1 <= k < |KEYWORDS|
    ensures KEYWORDS[k] in KEYWORDS[1..] && KEYWORDS[k] in KEYWORDS
  {
    assert KEYWORDS[1..][k - 1] == KEYWORDS[k];
  }

  /** What numbering does to one tag content. */
  lemma NumberFirstCases(content: string, name: string, i: nat) returns (keyword: string)
    ensures NumberFirst(content, KEYWORDS, name, i) != content ==>
      && keyword in KEYWORDS && Before(keyword, name) <= content
      && NumberFirst(content, KEYWORDS, name, i) == After(keyword, name, i) + content[|Before(keyword, name)|..]
  {
    KeywordsAreDistinct();
    keyword := "";
    if k :| 0 <= k < |KEYWORDS| && Before(KEYWORDS[k], name) <= content {
      keyword := KEYWORDS[k];
      NumberFirstFits(content, KEYWORDS, keyword, name, i);
    } else {
      NumberFirstMisses(content, KEYWORDS, name, i);
    }
  }

  /** A name that stands at the beginning of a plain tag is still followed by no keyword when it is numbered. */
  lemma NumberedNameIsPlain(keyword: string, name: string, i: nat, rest: string, content: string)
    requires keyword in KEYWORDS[1..] && name <= content && !(keyword <= content)
    ensures !(keyword <= After("", name, i) + rest)
  {
    var c := After("", name, i) + rest;
    KeywordLetters(keyword);
    assert name <= c && c[|name|] == Number(i)[0];
    if |keyword| > |name| {
      assert keyword[|name|] != c[|name|];
    } else if keyword <= c {
      PrefixesCompare(keyword, name, c);
      PrefixOfPrefix(keyword, name, content);
      assert false;
    }
  }

  lemma NumberingKeepsPlain(t: Token, name: string, i: nat)
    requires BraceFree(name) && Plain(t) && t.Tag?
    ensures Plain(Tag(NumberFirst(t.content, KEYWORDS, name, i)))
  {
    hide NumberFirst, Number;
    var keyword := NumberFirstCases(t.content, name, i);
    var c := NumberFirst(t.content, KEYWORDS, name, i);
    if c != t.content {
      assert keyword == "" by { PlainFitsNoKeyword(t, keyword, name); }
      assert name <= t.content by { assert Before("", name)[..|name|] == name; }
      forall k | 1 <= k < |KEYWORDS|
        ensures !(KEYWORDS[k] <= c)
      {
        KeywordMembers(k);
        NumberedNameIsPlain(KEYWORDS[k], name, i, t.content[|Before("", name)|..], t.content);
      }
      assert BraceFree(After("", name, i));
    }
  }

  lemma PlainFitsNoKeyword(t: Token, keyword: string, name: string)
    requires Plain(t) && t.Tag? && keyword in KEYWORDS && Before(keyword, name) <= t.content
    ensures keyword == ""
  {
    var k :| 0 <= k < |KEYWORDS| && KEYWORDS[k] == keyword;
    assert keyword <= Before(keyword, name);
  }

  lemma NumberedNameIsBraceFree(other: string, name: string, i: nat)
    requires BraceFree(other) && BraceFree(name)
    ensures BraceFree(NumberName(other, name, i))
  {
    if Before("", name) <= other {
      assert forall c :: c in other[|Before("", name)|..] ==> c in other;
    }
  }

  /** Numbering `a` by copy `i` of the loop gives `b`: `a` is `name.r` and `b` is `name<i>.r`. */
  predicate Collides(a: string, b: string, name: string, i: nat) {
    Before("", name) <= a && b == After("", name, i) + a[|Before("", name)|..]
  }

  /** Numbering identifies two different names exactly when one is already the numbered form of the other. */
  lemma NumberedNamesMeet(a: string, b: string, name: string, i: nat)
    ensures NumberName(a, name, i) == NumberName(b, name, i) <==>
      a == b || Collides(a, b, name, i) || Collides(b, a, name, i)
  {
    hide Number;
    var x, y := Before("", name), After("", name, i);
    NumberedIsOther(a, name, i);
    NumberedIsOther(b, name, i);
    if x <= a && x <= b {
      SameTail(y, a[|x|..], b[|x|..]);
      assert a == x + a[|x|..] && b == x + b[|x|..];
    }
  }

  /** A numbered name no longer begins with the name of the loop and a dot. */
  lemma NumberedIsOther(a: string, name: string, i: nat)
    ensures !(Before("", name) <= After("", name, i) + a)
  {
    assert (After("", name, i) + a)[|name|] == Number(i)[0] && Before("", name)[|name|] == '.';
  }

  function NumberedNames(names: set<string>, name: string, i: nat): set<string> {
    set a | a in names :: NumberName(a, name, i)
  }

  lemma {:induction false} NamesOfNumberedNode(node: Node, name: string, i: nat)
    ensures NamesOfNode(NumberNode(node, name, i)) == NumberedNames(NamesOfNode(node), name, i)
    decreases node, 1
  {
    if node.Block? {
      hide NumberName, NumberNodes, Names;
      NamesOfNumbered(node.body, name, i);
      NamesOfNumberedElse(node.els, name, i);
    }
  }

  lemma {:induction false} NamesOfNumberedElse(els: ElsePart, name: string, i: nat)
    ensures NamesOfElse(NumberElse(els, name, i)) == NumberedNames(NamesOfElse(els), name, i)
    decreases els, 1
  {
    if els.ElsePart? {
      NamesOfNumbered(els.nodes, name, i);
    }
  }

  lemma {:induction false} NamesOfNumbered(nodes: seq<Node>, name: string, i: nat)
    ensures Names(NumberNodes(nodes, name, i)) == NumberedNames(Names(nodes), name, i)
    decreases nodes, 0
  {
    hide NumberNode, NumberName, NamesOfNode;
    if nodes != [] {
      NamesOfNumberedNode(nodes[0], name, i);
      NamesOfNumbered(nodes[1..], name, i);
    }
  }

  // ---------- When numbering keeps a template well-formed ----------

  /** Copy `i` of the loop numbers no block like one of the blocks in it. */
  predicate Apart(n: string, inside: set<string>, name: string, i: nat) {
    forall p :: p in inside ==> !Collides(n, p, name, i) && !Collides(p, n, name, i)
  }

  predicate NoCollisionInNode(node: Node, name: string, i: nat)
    decreases node, 1
  {
    match node
    case Leaf(_) => true
    case Block(_, n, body, els) =>
      && NoCollision(body, name, i) && NoCollisionInElse(els, name, i)
      && Apart(n, Names(body) + NamesOfElse(els), name, i)
  }

  predicate NoCollisionInElse(els: ElsePart, name: string, i: nat)
    decreases els, 1
  {
    match els
    case NoElse => true
    case ElsePart(nodes) => NoCollision(nodes, name, i)
  }

  /** No block `name.r` holds a block `name<i>.r`, or the other way round. */
  predicate NoCollision(nodes: seq<Node>, name: string, i: nat)
    decreases nodes, 0
  {
    nodes == [] || (NoCollisionInNode(nodes[0], name, i) && NoCollision(nodes[1..], name, i))
  }

  predicate NoCollisions(body: seq<Node>, name: string, first: nat, times: nat) {
    forall i :: first <= i < times ==> NoCollision(body, name, i)
  }

  lemma ApartMeans(n: string, inside: set<string>, name: string, i: nat)
    requires n !in inside
    ensures NumberName(n, name, i) !in NumberedNames(inside, name, i) <==> Apart(n, inside, name, i)
  {
    hide NumberName, Collides;
    forall p | p in inside
      ensures NumberName(n, name, i) == NumberName(p, name, i) <==>
        Collides(n, p, name, i) || Collides(p, n, name, i)
    {
      NumberedNamesMeet(n, p, name, i);
    }
    if !Apart(n, inside, name, i) {
      var p :| p in inside && (Collides(n, p, name, i) || Collides(p, n, name, i));
      assert NumberName(p, name, i) in NumberedNames(inside, name, i);
    }
  }

  lemma {:induction false} NumberedNodeIsWellFormed(node: Node, name: string, i: nat)
    requires BraceFree(name) && WellFormedNode(node)
    ensures WellFormedNode(NumberNode(node, name, i)) <==> NoCollisionInNode(node, name, i)
    decreases node, 1
  {
    match node {
      case Leaf(t) =>
        if t.Tag? {
          NumberingKeepsPlain(t, name, i);
        }
      case Block(kind, n, body, els) =>
        WellFormedBlock(kind, n, body, els);
        hide WellFormed, WellFormedElse, Names, NamesOfElse, NumberNodes, NumberElse, NumberName, Apart, NoCollision,
             NoCollisionInElse, Foreign;
        WellFormedBlock(kind, NumberName(n, name, i), NumberNodes(body, name, i), NumberElse(els, name, i));
        NumberedIsWellFormed(body, name, i);
        NumberedElseIsWellFormed(els, name, i);
        NumberedNameIsBraceFree(n, name, i);
        NamesOfNumbered(body, name, i);
        NamesOfNumberedElse(els, name, i);
        ApartMeans(n, Names(body) + NamesOfElse(els), name, i);
        assert NumberedNames(Names(body), name, i) + NumberedNames(NamesOfElse(els), name, i)
            == NumberedNames(Names(body) + NamesOfElse(els), name, i);
    }
  }

  lemma {:induction false} NumberedElseIsWellFormed(els: ElsePart, name: string, i: nat)
    requires BraceFree(name) && WellFormedElse(els)
    ensures WellFormedElse(NumberElse(els, name, i)) <==> NoCollisionInElse(els, name, i)
    decreases els, 1
  {
    if els.ElsePart? {
      NumberedIsWellFormed(els.nodes, name, i);
    }
  }

  /** Numbering a well-formed body leaves a well-formed one if and only if no two nested blocks collide. */
  lemma {:induction false} NumberedIsWellFormed(nodes: seq<Node>, name: string, i: nat)
    requires BraceFree(name) && WellFormed(nodes)
    ensures WellFormed(NumberNodes(nodes, name, i)) <==> NoCollision(nodes, name, i)
    decreases nodes, 0
  {
    hide WellFormedNode, NumberNode, NoCollisionInNode;
    if nodes != [] {
      NumberedNodeIsWellFormed(nodes[0], name, i);
      NumberedIsWellFormed(nodes[1..], name, i);
    }
  }

  lemma {:induction false} CopiesAreWellFormed(body: seq<Node>, name: string, first: nat, times: nat)
    requires BraceFree(name) && WellFormed(body) && first <= times
    ensures WellFormed(CopyNodes(body, name, first, times)) <==> NoCollisions(body, name, first, times)
    decreases times - first
  {
    hide WellFormedNode, NumberNodes, NoCollision;
    if first < times {
      NumberedIsWellFormed(body, name, first);
      CopiesAreWellFormed(body, name, first + 1, times);
      WellFormedConcat(NumberNodes(body, name, first), CopyNodes(body, name, first + 1, times));
    }
  }

  // ---------- The names that a loop adds ----------

  function LoopNamesOfNode(node: Node, name: string): set<string>
    decreases node, 1
  {
    match node
    case Leaf(_) => {}
    case Block(k, n, body, els) =>
      if k == Loop && n == name then Names(body) else LoopNames(body, name) + LoopNamesOfElse(els, name)
  }

  function LoopNamesOfElse(els: ElsePart, name: string): set<string>
    decreases els, 1
  {
    match els
    case NoElse => {}
    case ElsePart(nodes) => LoopNames(nodes, name)
  }

  /** The names of the blocks in the bodies of the loops of this name. */
  function LoopNames(nodes: seq<Node>, name: string): set<string>
    decreases nodes, 0
  {
    if nodes == [] then {} else LoopNamesOfNode(nodes[0], name) + LoopNames(nodes[1..], name)
  }

  /** One of the copies numbers one of the names like `other`. */
  predicate Reached(other: string, names: set<string>, name: string, first: nat, times: nat) {
    exists a, i :: a in names && first <= i < times && Collides(a, other, name, i)
  }

  lemma ReachedInParts(other: string, a: set<string>, b: set<string>, name: string, times: nat)
    ensures Reached(other, a + b, name, 0, times) <==>
      Reached(other, a, name, 0, times) || Reached(other, b, name, 0, times)
  {
  }

  lemma {:induction false} NamesOfCopies(body: seq<Node>, other: string, name: string, first: nat, times: nat)
    requires other !in Names(body) && first <= times
    ensures other in Names(CopyNodes(body, name, first, times)) <==> Reached(other, Names(body), name, first, times)
    decreases times - first
  {
    hide NumberNodes;
    if first < times {
      NamesOfNumbered(body, name, first);
      NamesOfCopies(body, other, name, first + 1, times);
      NamesConcat(NumberNodes(body, name, first), CopyNodes(body, name, first + 1, times));
      NumberedIn(other, Names(body), name, first);
    }
  }

  lemma NumberedIn(other: string, names: set<string>, name: string, i: nat)
    requires other !in names
    ensures other in NumberedNames(names, name, i) <==> exists a :: a in names && Collides(a, other, name, i)
  {
    if a :| a in names && Collides(a, other, name, i) {
      assert NumberName(a, name, i) == other;
    }
  }

  /** Which new block names a loop brings into a template. */
  lemma {:induction false} NamesAfterLoopNode(node: Node, other: string, name: string, times: nat)
    requires other !in NamesOfNode(node)
    ensures other in Names(ApplyNode(node, Loop, name, Repeat(times))) <==>
      Reached(other, LoopNamesOfNode(node, name), name, 0, times)
    decreases node, 1
  {
    match node {
      case Leaf(_) =>
        assert [node][1..] == [];
      case Block(k, n, body, els) =>
        hide Names, CopyNodes, Reached, LoopNames, LoopNamesOfElse, Apply, ApplyElse;
        if k == Loop && n == name {
          NamesOfCopies(body, other, name, 0, times);
          NoneWithoutCopies(other, Names(body), name);
          NamesOfElseNodes(els);
        } else {
          NamesAfterLoop(body, other, name, times);
          NamesAfterLoopElse(els, other, name, times);
          ReachedInParts(other, LoopNames(body, name), LoopNamesOfElse(els, name), name, times);
          NamesOfOne(Block(k, n, Apply(body, Loop, name, Repeat(times)), ApplyElse(els, Loop, name, Repeat(times))));
        }
    }
  }

  lemma NoneWithoutCopies(other: string, names: set<string>, name: string)
    ensures !Reached(other, names, name, 0, 0) && !Reached(other, {}, name, 0, 0)
  {
  }

  lemma NamesOfElseNodes(els: ElsePart)
    ensures Names(ElseNodes(els)) == NamesOfElse(els)
  {
  }

  lemma NamesOfOne(node: Node)
    ensures Names([node]) == NamesOfNode(node)
  {
    assert [node][1..] == [];
  }

  lemma {:induction false} NamesAfterLoopElse(els: ElsePart, other: string, name: string, times: nat)
    requires other !in NamesOfElse(els)
    ensures other in NamesOfElse(ApplyElse(els, Loop, name, Repeat(times))) <==>
      Reached(other, LoopNamesOfElse(els, name), name, 0, times)
    decreases els, 1
  {
    if els.ElsePart? {
      NamesAfterLoop(els.nodes, other, name, times);
    }
  }

  lemma {:induction false} NamesAfterLoop(nodes: seq<Node>, other: string, name: string, times: nat)
    requires other !in Names(nodes)
    ensures other in Names(Apply(nodes, Loop, name, Repeat(times))) <==>
      Reached(other, LoopNames(nodes, name), name, 0, times)
    decreases nodes, 0
  {
    hide ApplyNode, NamesOfNode, LoopNamesOfNode;
    if nodes != [] {
      NamesAfterLoopNode(nodes[0], other, name, times);
      NamesAfterLoop(nodes[1..], other, name, times);
      NamesConcat(ApplyNode(nodes[0], Loop, name, Repeat(times)), Apply(nodes[1..], Loop, name, Repeat(times)));
      ReachedInParts(other, LoopNamesOfNode(nodes[0], name), LoopNames(nodes[1..], name), name, times);
    }
  }

  // ---------- Exactly when a loop keeps the template well-formed ----------

  predicate NoClashInNode(node: Node, name: string, times: nat)
    decreases node, 1
  {
    match node
    case Leaf(_) => true
    case Block(k, n, body, els) =>
      if k == Loop && n == name then NoCollisions(body, name, 0, times)
      else
        && NoClash(body, name, times) && NoClashInElse(els, name, times)
        && !Reached(n, LoopNames(body, name) + LoopNamesOfElse(els, name), name, 0, times)
  }

  predicate NoClashInElse(els: ElsePart, name: string, times: nat)
    decreases els, 1
  {
    match els
    case NoElse => true
    case ElsePart(nodes) => NoClash(nodes, name, times)
  }

  /**
   In the body of a loop of this name no block `name.r` holds a block `name<i>.r`, or the other way round, and
   no block `name<i>.r` around such a loop has a block `name.r` in the body, for the copies `i` of the loop.
   */
  predicate NoClash(nodes: seq<Node>, name: string, times: nat)
    decreases nodes, 0
  {
    nodes == [] || (NoClashInNode(nodes[0], name, times) && NoClash(nodes[1..], name, times))
  }

  lemma {:induction false} LoopKeepsWellFormedNode(node: Node, name: string, times: nat)
    requires BraceFree(name) && WellFormedNode(node)
    ensures WellFormed(ApplyNode(node, Loop, name, Repeat(times))) <==> NoClashInNode(node, name, times)
    decreases node, 1
  {
    match node {
      case Leaf(_) =>
        WellFormedOne(node);
      case Block(k, n, body, els) =>
        WellFormedBlock(k, n, body, els);
        hide WellFormed, WellFormedElse, Names, NamesOfElse, NoCollisions, NoClash, NoClashInElse, Reached, Foreign,
             CopyNodes, Apply, ApplyElse, LoopNames, LoopNamesOfElse;
        if k == Loop && n == name {
          CopiesAreWellFormed(body, name, 0, times);
          ElseIsWellFormed(els);
        } else {
          var body', els' := Apply(body, Loop, name, Repeat(times)), ApplyElse(els, Loop, name, Repeat(times));
          WellFormedOne(Block(k, n, body', els'));
          WellFormedBlock(k, n, body', els');
          LoopKeepsWellFormed(body, name, times);
          LoopKeepsWellFormedElse(els, name, times);
          NamesAfterLoop(body, n, name, times);
          NamesAfterLoopElse(els, n, name, times);
          ReachedInParts(n, LoopNames(body, name), LoopNamesOfElse(els, name), name, times);
        }
    }
  }

  lemma ElseIsWellFormed(els: ElsePart)
    ensures WellFormedElse(els) ==> WellFormed(ElseNodes(els))
  {
  }

  lemma {:induction false} LoopKeepsWellFormedElse(els: ElsePart, name: string, times: nat)
    requires BraceFree(name) && WellFormedElse(els)
    ensures WellFormedElse(ApplyElse(els, Loop, name, Repeat(times))) <==> NoClashInElse(els, name, times)
    decreases els, 1
  {
    if els.ElsePart? {
      LoopKeepsWellFormed(els.nodes, name, times);
    }
  }

  /** A loop keeps a well-formed template well-formed if and only if no numbered name clashes. */
  lemma {:induction false} LoopKeepsWellFormed(nodes: seq<Node>, name: string, times: nat)
    requires BraceFree(name) && WellFormed(nodes)
    ensures WellFormed(Apply(nodes, Loop, name, Repeat(times))) <==> NoClash(nodes, name, times)
    decreases nodes, 0
  {
    hide NodeTokens, ApplyNode, WellFormedNode, NoClashInNode;
    if nodes != [] {
      LoopKeepsWellFormedNode(nodes[0], name, times);
      LoopKeepsWellFormed(nodes[1..], name, times);
      WellFormedConcat(ApplyNode(nodes[0], Loop, name, Repeat(times)), Apply(nodes[1..], Loop, name, Repeat(times)));
    }
  }

  /** A template in which a loop that runs once nests two blocks of one name. */
  const CLASHING: seq<Node> :=
    [Block(Loop, "a", [Block(If, "a.x", [Block(If, "a0.x", [Leaf(Text("t"))], NoElse)], NoElse)], NoElse)]

  lemma LoopNestsOneName()
    ensures WellFormed(CLASHING) && !WellFormed(Apply(CLASHING, Loop, "a", Repeat(1)))
  {
    var inner := Block(If, "a0.x", [Leaf(Text("t"))], NoElse);
    var outer := Block(If, "a.x", [inner], NoElse);
    var loop := Block(Loop, "a", [outer], NoElse);
    NamesOfOne(Leaf(Text("t")));
    NamesOfOne(inner);
    NamesOfOne(outer);
    WellFormedOne(Leaf(Text("t")));
    WellFormedOne(inner);
    WellFormedOne(outer);
    WellFormedOne(loop);
    WellFormedBlock(If, "a0.x", [Leaf(Text("t"))], NoElse);
    WellFormedBlock(If, "a.x", [inner], NoElse);
    WellFormedBlock(Loop, "a", [outer], NoElse);
    LoopKeepsWellFormed(CLASHING, "a", 1);
    assert Number(0) == "0";
    assert Collides("a.x", "a0.x", "a", 0);
    assert !NoCollision([outer], "a", 0);
  }

  // ---------- A sufficient condition ----------

  /** No name of a block begins as if the loop had numbered it. */
  predicate NoneLooksNumbered(names: set<string>, name: string, times: nat) {
    forall n, i :: n in names && 0 <= i < times ==> !(After("", name, i) <= n)
  }

  lemma {:induction false} PlainNamesDoNotCollideNode(node: Node, name: string, times: nat, i: nat)
    requires NoneLooksNumbered(NamesOfNode(node), name, times) && i < times
    ensures NoCollisionInNode(node, name, i)
    decreases node, 1
  {
    if node.Block? {
      hide Names, After, Before;
      PlainNamesDoNotCollide(node.body, name, times, i);
      if node.els.ElsePart? {
        PlainNamesDoNotCollide(node.els.nodes, name, times, i);
      }
    }
  }

  lemma {:induction false} PlainNamesDoNotCollide(nodes: seq<Node>, name: string, times: nat, i: nat)
    requires NoneLooksNumbered(Names(nodes), name, times) && i < times
    ensures NoCollision(nodes, name, i)
    decreases nodes, 0
  {
    if nodes != [] {
      hide NamesOfNode, NoCollisionInNode, After;
      PlainNamesDoNotCollideNode(nodes[0], name, times, i);
      PlainNamesDoNotCollide(nodes[1..], name, times, i);
    }
  }

  lemma {:induction false} PlainNamesDoNotClashNode(node: Node, name: string, times: nat)
    requires NoneLooksNumbered(NamesOfNode(node), name, times)
    ensures NoClashInNode(node, name, times)
    decreases node, 1
  {
    if node.Block? {
      hide Names, After, Before, NoCollision;
      if node.kind == Loop && node.name == name {
        forall i | 0 <= i < times
          ensures NoCollision(node.body, name, i)
        {
          PlainNamesDoNotCollide(node.body, name, times, i);
        }
      } else {
        PlainNamesDoNotClash(node.body, name, times);
        if node.els.ElsePart? {
          PlainNamesDoNotClash(node.els.nodes, name, times);
        }
      }
    }
  }

  /** No clash is possible when no block is named as if it had been numbered before. */
  lemma {:induction false} PlainNamesDoNotClash(nodes: seq<Node>, name: string, times: nat)
    requires NoneLooksNumbered(Names(nodes), name, times)
    ensures NoClash(nodes, name, times)
    decreases nodes, 0
  {
    if nodes != [] {
      hide NamesOfNode, NoClashInNode, After;
      PlainNamesDoNotClashNode(nodes[0], name, times);
      PlainNamesDoNotClash(nodes[1..], name, times);
    }
  }

  // ---------- Which names are numbered as they should be ----------

  predicate IsConstruct(content: string) {
    exists k :: 1 <= k < |KEYWORDS| && KEYWORDS[k] <= content
  }

  /** No construct tag begins with the name and a dot. */
  predicate NoneMistaken(ts: seq<Token>, name: string) {
    forall t :: t in ts && t.Tag? && IsConstruct(t.content) ==> !Mistaken(t.content, name)
  }

  lemma TagIsConstruct(keyword: string, n: string)
    requires keyword in KEYWORDS[1..]
    ensures IsConstruct(keyword + n)
  {
    var k :| 0 <= k < |KEYWORDS[1..]| && KEYWORDS[1..][k] == keyword;
    assert KEYWORDS[k + 1] == keyword;
  }

  lemma {:induction false} NumberableOnTagsNode(node: Node, name: string)
    requires WellFormedNode(node)
    ensures NumberableNode(node, name) <==> NoneMistaken(NodeTokens(node), name)
    decreases node, 1
  {
    match node {
      case Leaf(t) =>
      case Block(kind, n, body, els) =>
        TokensOfBlock(node);
        KeywordsOfKinds(kind);
        TagIsConstruct(kind.Keyword(), n);
        TagIsConstruct("end ", n);
        TagIsConstruct("else ", n);
        NumberableOnTags(body, name);
        if els.ElsePart? {
          NumberableOnTags(els.nodes, name);
        }
        hide IsConstruct, Mistaken, NodeTokens, Tokens, Numberable, Opener, End, Else;
    }
  }

  /** Whether numbering gets the block tags of a well-formed body right can be read off its tags. */
  lemma {:induction false} NumberableOnTags(nodes: seq<Node>, name: string)
    requires WellFormed(nodes)
    ensures Numberable(nodes, name) <==> NoneMistaken(Tokens(nodes), name)
    decreases nodes, 0
  {
    hide IsConstruct, Mistaken, NodeTokens, NumberableNode, WellFormedNode;
    if nodes != [] {
      NumberableOnTagsNode(nodes[0], name);
      NumberableOnTags(nodes[1..], name);
    }
  }

  /** The name begins with no keyword, as every name without a space does. */
  predicate PlainName(name: string) {
    forall k :: 1 <= k < |KEYWORDS| ==> !(KEYWORDS[k] <= name)
  }

  lemma NamesWithoutSpaceArePlain(name: string)
    requires ' ' !in name
    ensures PlainName(name)
  {
    forall k | 1 <= k < |KEYWORDS|
      ensures !(KEYWORDS[k] <= name)
    {
      KeywordMembers(k);
      KeywordLetters(KEYWORDS[k]);
      assert |KEYWORDS[k]| <= |name| ==> name[|KEYWORDS[k]| - 1] in name;
    }
  }

  lemma PlainNameIsNotMistaken(keyword: string, n: string, name: string)
    requires keyword in KEYWORDS[1..] && PlainName(name)
    ensures !Mistaken(keyword + n, name)
  {
    var c := keyword + n;
    var k :| 0 <= k < |KEYWORDS[1..]| && KEYWORDS[1..][k] == keyword;
    assert !(KEYWORDS[k + 1] <= name) && KEYWORDS[k + 1] == keyword;
    KeywordLetters(keyword);
    if |name| < |keyword| {
      assert c[|name|] == keyword[|name|] != '.' && (name + ".")[|name|] == '.';
    } else if Mistaken(c, name) {
      PrefixOfPrefix(name, name + ".", c);
      PrefixesCompare(keyword, name, c);
      assert false;
    }
  }

  lemma {:induction false} PlainNameIsNumberableNode(node: Node, name: string)
    requires PlainName(name)
    ensures NumberableNode(node, name)
    decreases node, 1
  {
    hide Mistaken, PlainName;
    match node {
      case Leaf(_) =>
      case Block(kind, n, body, els) =>
        KeywordsOfKinds(kind);
        PlainNameIsNotMistaken(kind.Keyword(), n, name);
        PlainNameIsNotMistaken("end ", n, name);
        PlainNameIsNotMistaken("else ", n, name);
        PlainNameIsNumberable(body, name);
        if els.ElsePart? {
          PlainNameIsNumberable(els.nodes, name);
        }
    }
  }

  /** A name that begins with no keyword is never the beginning of a construct tag. */
  lemma {:induction false} PlainNameIsNumberable(nodes: seq<Node>, name: string)
    requires PlainName(name)
    ensures Numberable(nodes, name)
    decreases nodes, 0
  {
    hide PlainName, NumberableNode;
    if nodes != [] {
      PlainNameIsNumberableNode(nodes[0], name);
      PlainNameIsNumberable(nodes[1..], name);
    }
  }

  lemma {:induction false} PlainNameIsMeantNode(node: Node, kind: Kind, name: string)
    requires PlainName(name)
    ensures BodiesNumberableNode(node, kind, name)
    decreases node, 1
  {
    hide Numberable, PlainName;
    if node.Block? {
      PlainNameIsNumberable(node.body, name);
      PlainNameIsMeant(node.body, kind, name);
      if node.els.ElsePart? {
        PlainNameIsMeant(node.els.nodes, kind, name);
      }
    }
  }

  /** So numbering gets every template right for such a name. */
  lemma {:induction false} PlainNameIsMeant(nodes: seq<Node>, kind: Kind, name: string)
    requires PlainName(name)
    ensures BodiesNumberable(nodes, kind, name)
    decreases nodes, 0
  {
    hide PlainName, BodiesNumberableNode;
    if nodes != [] {
      PlainNameIsMeantNode(nodes[0], kind, name);
      PlainNameIsMeant(nodes[1..], kind, name);
    }
  }

  /** A template whose inner start tag is taken for a variable of the loop. */
  const MISTAKEN: seq<Node> := [Block(Loop, "if x", [Block(If, "x.y", [Leaf(Text("t"))], NoElse)], NoElse)]

  /** One round of this loop leaves a start tag and an end tag that do not belong together. */
  lemma LoopMistakesTag()
    ensures WellFormed(MISTAKEN) && !BodiesNumberable(MISTAKEN, Loop, "if x")
    ensures Pass(Tokens(MISTAKEN), Loop, "if x", Repeat(1))
         == Done([Tag("if x0.y"), Text("t"), Tag("end x.y")], 1)
    ensures Tokens(Apply(MISTAKEN, Loop, "if x", Repeat(1))) == [Tag("if x.y"), Text("t"), Tag("end x.y")]
  {
    var leaf := Leaf(Text("t"));
    var inner := Block(If, "x.y", [leaf], NoElse);
    var outer := Block(Loop, "if x", [inner], NoElse);
    NamesOfOne(leaf);
    NamesOfOne(inner);
    WellFormedOne(leaf);
    WellFormedOne(inner);
    WellFormedOne(outer);
    WellFormedBlock(If, "x.y", [leaf], NoElse);
    WellFormedBlock(Loop, "if x", [inner], NoElse);
    assert Opener(If, "x.y") == "if x" + "." + "y";
    assert Mistaken(Opener(If, "x.y"), "if x");
    WellFormedIsSafe(MISTAKEN, Loop, "if x");
    PassOnTree(MISTAKEN, Loop, "if x", Repeat(1));
    MistakenCopy();
  }

  lemma MistakenCopy()
    ensures Rewritten(MISTAKEN, Loop, "if x", Repeat(1)) == [Tag("if x0.y"), Text("t"), Tag("end x.y")]
    ensures Tokens(Apply(MISTAKEN, Loop, "if x", Repeat(1))) == [Tag("if x.y"), Text("t"), Tag("end x.y")]
    ensures Count(MISTAKEN, Loop, "if x") == 1
  {
    hide NumberTags, NumberNodes, NumberFirst, Tokens;
    var leaf := Leaf(Text("t"));
    var body := [Block(If, "x.y", [leaf], NoElse)];
    SingleNode(leaf);
    SingleNode(body[0]);
    var ts := [Tag("if x.y"), Text("t"), Tag("end x.y")];
    assert Opener(If, "x.y") == "if x.y" && End("x.y") == "end x.y";
    assert NodeTokens(body[0]) == [Tag(Opener(If, "x.y"))] + [Text("t")] + [] + [Tag(End("x.y"))];
    assert Tokens(body) == ts;
    MistakenBody(ts);
    CountOne(MISTAKEN[0], Loop, "if x");
    assert MISTAKEN[1..] == [] && Rewritten([], Loop, "if x", Repeat(1)) == [];
    assert Rewritten(MISTAKEN, Loop, "if x", Repeat(1)) == CopyTags(ts, "if x", 0, 1) + [];
    assert CopyTags(ts, "if x", 0, 1) == NumberTags(ts, KEYWORDS, "if x", 0) + CopyTags(ts, "if x", 1, 1);
    ApplyOne(MISTAKEN[0], Loop, "if x", Repeat(1));
    assert ApplyNode(MISTAKEN[0], Loop, "if x", Repeat(1)) == CopyNodes(body, "if x", 0, 1);
    assert CopyNodes(body, "if x", 0, 1) == NumberNodes(body, "if x", 0) + CopyNodes(body, "if x", 1, 1);
    UntouchedBody(body[0]);
    WellFormedOne(body[0]);
    assert NumberNodes(body, "if x", 0) + [] == body;
  }

  lemma MistakenBody(ts: seq<Token>)
    requires ts == [Tag("if x.y"), Text("t"), Tag("end x.y")]
    ensures NumberTags(ts, KEYWORDS, "if x", 0) == [Tag("if x0.y"), Text("t"), Tag("end x.y")]
  {
    hide NumberTags, NumberTag;
    NumberTagsPointwise(ts, KEYWORDS, "if x", 0);
    MistakenStart();
    UntouchedEnd();
    NumberTextToken(Text("t"), KEYWORDS, "if x", 0);
  }

  lemma MistakenStart()
    ensures NumberTag(Tag("if x.y"), KEYWORDS, "if x", 0) == Tag("if x0.y")
  {
    hide NumberTag, NumberFirst, KEYWORDS;
    KeywordsAreDistinct();
    NumberTagIsNumberFirst("if x.y", KEYWORDS, "if x", 0);
    assert Number(0) == "0";
    assert Before("", "if x") == "if x." && After("", "if x", 0) == "if x0.";
    NoKeywordIsFirst();
    NumberFirstFits("if x.y", KEYWORDS, "", "if x", 0);
    assert "if x.y"[5..] == "y";
  }

  lemma NoKeywordIsFirst()
    ensures "" in KEYWORDS
  {
    assert KEYWORDS[0] == "";
  }

  lemma UntouchedEnd()
    ensures NumberTag(Tag("end x.y"), KEYWORDS, "if x", 0) == Tag("end x.y")
  {
    hide NumberTag, NumberFirst, Number, KEYWORDS;
    KeywordsAreDistinct();
    NumberTagIsNumberFirst("end x.y", KEYWORDS, "if x", 0);
    assert "if x."[0] != ("end " + "x.y")[0];
    KeywordsOfKinds(If);
    NumberOwnTag("end ", "x.y", "if x", 0);
    assert "end " + "x.y" == "end x.y";
    OtherNameStays("x.y", "if x", 0) by { assert "if x."[0] != "x.y"[0]; }
  }

  lemma UntouchedBody(node: Node)
    requires node == Block(If, "x.y", [Leaf(Text("t"))], NoElse)
    ensures NumberNodes([node], "if x", 0) == [node]
  {
    var leaf := Leaf(Text("t"));
    assert [node][1..] == [] && [leaf][1..] == [];
    assert NumberNodes([leaf], "if x", 0) == [leaf];
  }

  // ---------- Loops in a row ----------

  /**
   `loop` on a printed well-formed tree terminates and returns the number of loops of that name. It leaves the print of
   the tree in which each of them has become its numbered copies (or its else part), if and only if no copies are made
   or no construct tag in a body begins with the name and a dot. That tree is well-formed again, so that every operation
   works on it, if and only if no numbered name clashes.
   */
  lemma LoopOnTree(nodes: seq<Node>, name: string, times: nat)
    requires WellFormed(nodes) && BraceFree(name)
    ensures Lexed(Tokens(nodes))
    ensures Pass(Tokens(nodes), Loop, name, Repeat(times))
         == Done(Rewritten(nodes, Loop, name, Repeat(times)), Count(nodes, Loop, name))
    ensures Rewritten(nodes, Loop, name, Repeat(times)) == Tokens(Apply(nodes, Loop, name, Repeat(times))) <==>
      times == 0 || BodiesNumberable(nodes, Loop, name)
    ensures WellFormed(Apply(nodes, Loop, name, Repeat(times))) <==> NoClash(nodes, name, times)
  {
    hide Pass, WellFormed, Apply, Tokens, Count, Safe, NoClash, Rewritten, BodiesNumberable;
    WellFormedIsLexed(nodes);
    WellFormedIsSafe(nodes, Loop, name);
    PassOnTree(nodes, Loop, name, Repeat(times));
    LoopKeepsWellFormed(nodes, name, times);
  }

  /** Two `loop` calls in a row, for instance on an outer loop and then on a copy of an inner one. */
  lemma NestedLoops(nodes: seq<Node>, outer: string, m: nat, inner: string, n: nat)
    requires WellFormed(nodes) && BraceFree(outer) && BraceFree(inner)
    requires NoClash(nodes, outer, m) && (m == 0 || BodiesNumberable(nodes, Loop, outer))
    ensures var tree := Apply(nodes, Loop, outer, Repeat(m));
      var first, second := Pass(Tokens(nodes), Loop, outer, Repeat(m)), Rewritten(tree, Loop, inner, Repeat(n));
      && first == Done(Tokens(tree), Count(nodes, Loop, outer)) && Lexed(first.ts)
      && Pass(first.ts, Loop, inner, Repeat(n)) == Done(second, Count(tree, Loop, inner))
      && (second == Tokens(Apply(tree, Loop, inner, Repeat(n))) <==> n == 0 || BodiesNumberable(tree, Loop, inner))
      && (WellFormed(Apply(tree, Loop, inner, Repeat(n))) <==> NoClash(tree, inner, n))
  {
    hide Pass, WellFormed, Apply, Tokens, Count, NoClash, Rewritten, BodiesNumberable;
    LoopOnTree(nodes, outer, m);
    LoopOnTree(Apply(nodes, Loop, outer, Repeat(m)), inner, n);
  }
}
