/** What the operations show, told on the text of a template: one part of a condition, and numbered copies in order. */
module TemplateMeaning {
  import opened Strings
  import opened TemplateTokens
  import opened TemplatePass
  import opened TemplateTree
  import opened TemplateEngine
  import opened TemplateWellFormed
  import opened TemplateLoops

  function Shown(nodes: seq<Node>): string {
    Print(Tokens(nodes))
  }

  // ---------- The text of a block ----------

  function Word(kind: Kind): string {
    match kind
    case If => "{if "
    case IfNot => "{ifnot "
    case Loop => "{loop "
  }

  /** A block as it stands in the template, with and without an else part. */
  lemma BlockIsShown(kind: Kind, name: string, body: seq<Node>, els: seq<Node>)
    ensures Shown([Block(kind, name, body, NoElse)])
         == Word(kind) + name + "}" + Shown(body) + "{end " + name + "}"
    ensures Shown([Block(kind, name, body, ElsePart(els))])
         == Word(kind) + name + "}" + Shown(body) + "{else " + name + "}" + Shown(els) + "{end " + name + "}"
  {
    hide Print, Tokens, Token.Print, Shown;
    TagsAreShown(kind, name);
    BlockInParts(kind, name, body, NoElse);
    BlockInParts(kind, name, body, ElsePart(els));
    ElseInParts(name, els);
    var opener, closer := Word(kind) + name + "}", "{end " + name + "}";
    assert opener + Shown(body) + "" == opener + Shown(body);
    Associate(opener + Shown(body), "{else " + name + "}", Shown(els), closer);
  }

  lemma BlockInParts(kind: Kind, name: string, body: seq<Node>, els: ElsePart)
    ensures Shown([Block(kind, name, body, els)])
         == Tag(Opener(kind, name)).Print() + Shown(body) + Print(ElseTokens(name, els)) + Tag(End(name)).Print()
  {
    hide Print, Tokens, Token.Print, ElseTokens;
    var opener, closer := [Tag(Opener(kind, name))], [Tag(End(name))];
    SingleNode(Block(kind, name, body, els));
    PrintOne(opener[0]);
    PrintOne(closer[0]);
    PrintConcat(opener, Tokens(body));
    PrintConcat(opener + Tokens(body), ElseTokens(name, els));
    PrintConcat(opener + Tokens(body) + ElseTokens(name, els), closer);
  }

  lemma ElseInParts(name: string, els: seq<Node>)
    ensures Print(ElseTokens(name, NoElse)) == ""
    ensures Print(ElseTokens(name, ElsePart(els))) == Tag(Else(name)).Print() + Shown(els)
  {
    hide Tokens, Token.Print, Print;
    var middle := [Tag(Else(name))];
    PrintOne(middle[0]);
    PrintConcat(middle, Tokens(els));
    EmptyPrint([]);
  }

  lemma TagsAreShown(kind: Kind, name: string)
    ensures Tag(Opener(kind, name)).Print() == Word(kind) + name + "}"
    ensures Tag(Else(name)).Print() == "{else " + name + "}"
    ensures Tag(End(name)).Print() == "{end " + name + "}"
  {
    assert Word(kind) == "{" + kind.Keyword();
    assert "{" + (kind.Keyword() + name) == "{" + kind.Keyword() + name;
    assert "{" + ("else " + name) == "{else " + name;
    assert "{" + ("end " + name) == "{end " + name;
  }

  lemma Associate(a: string, b: string, c: string, d: string)
    ensures a + (b + c) + d == a + b + c + d
  {
  }

  // ---------- Trees without the construct ----------

  lemma {:induction false} ApplyNoneNode(node: Node, kind: Kind, name: string, choice: Choice)
    requires Without(NodeTokens(node), Opener(kind, name))
    ensures ApplyNode(node, kind, name, choice) == [node]
    decreases node, 1
  {
    hide Expand, ExpandTree, Opener;
    if node.Block? {
      var c := Opener(kind, name);
      var a, b := [Tag(Opener(node.kind, node.name))], Tokens(node.body);
      var e := ElseTokens(node.name, node.els);
      WithoutParts(a + b + e, [Tag(End(node.name))], c);
      WithoutParts(a + b, e, c);
      WithoutParts(a, b, c);
      assert a[0] == Tag(Opener(node.kind, node.name));
      ApplyNone(node.body, kind, name, choice);
      if node.els.ElsePart? {
        WithoutParts([Tag(Else(node.name))], Tokens(node.els.nodes), c);
        ApplyNone(node.els.nodes, kind, name, choice);
      }
    }
  }

  /** Where no start tag of the construct is, nothing is replaced. */
  lemma {:induction false} ApplyNone(nodes: seq<Node>, kind: Kind, name: string, choice: Choice)
    requires Without(Tokens(nodes), Opener(kind, name))
    ensures Apply(nodes, kind, name, choice) == nodes
    decreases nodes, 0
  {
    hide NodeTokens, ApplyNode, Opener;
    if nodes != [] {
      WithoutParts(NodeTokens(nodes[0]), Tokens(nodes[1..]), Opener(kind, name));
      ApplyNoneNode(nodes[0], kind, name, choice);
      ApplyNone(nodes[1..], kind, name, choice);
      assert nodes == [nodes[0]] + nodes[1..];
    }
  }

  // ---------- Conditions ----------

  /** The part that is shown: the body of an `if` block when the condition is true, of an `ifnot` block when not. */
  function ChosenPart(kind: Kind, body: seq<Node>, els: ElsePart, value: bool): seq<Node>
    requires kind == If || kind == IfNot
  {
    if (kind == If && value) || (kind == IfNot && !value) then body
    else
      match els
      case NoElse => []
      case ElsePart(nodes) => nodes
  }

  lemma ConditionInPlace(kind: Kind, name: string, body: seq<Node>, els: ElsePart, value: bool)
    requires kind == If || kind == IfNot
    requires WellFormed([Block(kind, name, body, els)])
    ensures SetConditionTree([Block(kind, name, body, els)], name, value) == ChosenPart(kind, body, els, value)
  {
    var block := Block(kind, name, body, els);
    WellFormedOne(block);
    ForeignIsInnermost(Tokens(body), If, name);
    ForeignIsInnermost(Tokens(ElseNodes(els)), If, name);
    ForeignIsInnermost(Tokens(body), IfNot, name);
    ForeignIsInnermost(Tokens(ElseNodes(els)), IfNot, name);
    hide WellFormed, Apply, Tokens, Foreign, Opener;
    ApplyOne(block, If, name, Take(value));
    ApplyOne(block, IfNot, name, Take(!value));
    forall k: Kind, b: bool | k == If || k == IfNot
      ensures Apply(body, k, name, Take(b)) == body
      ensures Apply(ElseNodes(els), k, name, Take(b)) == ElseNodes(els)
    {
      ApplyNone(body, k, name, Take(b));
      ApplyNone(ElseNodes(els), k, name, Take(b));
    }
  }

  lemma SetConditionConcat(a: seq<Node>, b: seq<Node>, name: string, value: bool)
    ensures SetConditionTree(a + b, name, value) == SetConditionTree(a, name, value) + SetConditionTree(b, name, value)
  {
    hide Apply;
    ApplyConcat(a, b, If, name, Take(value));
    ApplyConcat(Apply(a, If, name, Take(value)), Apply(b, If, name, Take(value)), IfNot, name, Take(!value));
  }

  /**
   `setCondition` on a well-formed template with an `if` or `ifnot` block of the name: the chosen part stands in the
   place of the block, and what stands in front of it and behind it becomes what it would become on its own.
   */
  lemma ConditionShows(before: seq<Node>, kind: Kind, name: string, body: seq<Node>, els: ElsePart, after: seq<Node>,
                       value: bool)
    requires kind == If || kind == IfNot
    requires BraceFree(name) && WellFormed(before + [Block(kind, name, body, els)] + after)
    ensures var r := SetConditionResult(Tokens(before + [Block(kind, name, body, els)] + after), name, value);
      && r.Done?
      && Print(r.ts) == Shown(SetConditionTree(before, name, value)) + Shown(ChosenPart(kind, body, els, value))
                        + Shown(SetConditionTree(after, name, value))
  {
    hide WellFormed, Apply, Tokens, Print, SetConditionTree, SetConditionResult, ChosenPart;
    var block := [Block(kind, name, body, els)];
    SetConditionOnTree(before + block + after, name, value);
    WellFormedConcat(before + block, after);
    WellFormedConcat(before, block);
    ConditionInPlace(kind, name, body, els, value);
    SetConditionConcat(before + block, after, name, value);
    SetConditionConcat(before, block, name, value);
    var a, b, c := SetConditionTree(before, name, value), ChosenPart(kind, body, els, value),
                   SetConditionTree(after, name, value);
    ShownInParts(a + b, c);
    ShownInParts(a, b);
  }

  lemma ShownInParts(a: seq<Node>, b: seq<Node>)
    ensures Shown(a + b) == Shown(a) + Shown(b)
  {
    hide Tokens, Print;
    TokensConcat(a, b);
    PrintConcat(Tokens(a), Tokens(b));
  }

  // ---------- Loops ----------

  /** One more repetition adds the copy with the next number behind the others; the first copy has number 0. */
  lemma {:induction false} CopiesInOrder(body: seq<Node>, name: string, first: nat, n: nat)
    requires first <= n
    ensures CopyNodes(body, name, first, first) == []
    ensures CopyNodes(body, name, first, n + 1) == CopyNodes(body, name, first, n) + NumberNodes(body, name, n)
    decreases n - first
  {
    hide NumberNodes;
    var copy := NumberNodes(body, name, n);
    if first < n {
      CopiesInOrder(body, name, first + 1, n);
      var head := NumberNodes(body, name, first);
      var rest := CopyNodes(body, name, first + 1, n);
      assert head + (rest + copy) == head + rest + copy;
    } else {
      assert CopyNodes(body, name, n + 1, n + 1) == [];
      assert copy + [] == copy == [] + copy;
    }
  }

  /** In a copy the number stands behind the name of the loop in the name of a variable and of a block. */
  lemma NumberedNames(name: string, rest: string, i: nat, kind: Kind, body: seq<Node>, nodes: seq<Node>)
    ensures NumberNode(Leaf(Tag(name + "." + rest)), name, i) == Leaf(Tag(name + Number(i) + "." + rest))
    ensures NumberNode(Block(kind, name + "." + rest, body, ElsePart(nodes)), name, i)
         == Block(kind, name + Number(i) + "." + rest, NumberNodes(body, name, i),
                  ElsePart(NumberNodes(nodes, name, i)))
    ensures NumberNode(Block(kind, name + "." + rest, body, NoElse), name, i)
         == Block(kind, name + Number(i) + "." + rest, NumberNodes(body, name, i), NoElse)
  {
    hide NumberFirst, Number, KEYWORDS;
    var content := name + "." + rest;
    KeywordsAreDistinct();
    NoKeywordIsFirst();
    assert Before("", name) == name + "." && Before("", name) <= content;
    NumberFirstFits(content, KEYWORDS, "", name, i);
    assert content[|name| + 1..] == rest;
    assert After("", name, i) == name + Number(i) + ".";
  }

  lemma KeywordInFront(keyword: string, name: string, content: string)
    ensures Before(keyword, name) <= content ==> keyword <= content
    ensures Before("", name) == name + "."
  {
    var before := Before(keyword, name);
    assert before == keyword + (name + ".");
    assert before <= content ==> content[..|keyword|] == before[..|keyword|] == keyword;
  }

  /** Everything else in a copy is as in the body: text, other variables, and the names of other blocks. */
  lemma OtherNames(t: Token, other: string, name: string, i: nat, kind: Kind, body: seq<Node>)
    requires Plain(t) && (t.Tag? ==> !(name + "." <= t.content)) && !(name + "." <= other)
    ensures NumberNode(Leaf(t), name, i) == Leaf(t)
    ensures NumberNode(Block(kind, other, body, NoElse), name, i)
         == Block(kind, other, NumberNodes(body, name, i), NoElse)
  {
    hide NumberFirst, Number;
    OtherNameStays(other, name, i);
    if t.Tag? {
      forall k | 0 <= k < |KEYWORDS|
        ensures !(Before(KEYWORDS[k], name) <= t.content)
      {
        KeywordInFront(KEYWORDS[k], name, t.content);
      }
      NumberFirstMisses(t.content, KEYWORDS, name, i);
    }
  }

  lemma {:induction false} NumberedEach(nodes: seq<Node>, name: string, i: nat, j: nat)
    requires j < |nodes|
    ensures NumberNodes(nodes, name, i)[j] == NumberNode(nodes[j], name, i)
  {
    hide NumberNode;
    if j > 0 {
      NumberedEach(nodes[1..], name, i, j - 1);
    }
  }

  /** The texts of `n` copies, one behind the other, with the numbers from 0 to `n - 1`. */
  function CopiesShown(body: seq<Node>, name: string, n: nat): string {
    if n == 0 then "" else CopiesShown(body, name, n - 1) + Shown(NumberNodes(body, name, n - 1))
  }

  lemma {:induction false} CopiesAreShown(body: seq<Node>, name: string, n: nat)
    ensures Shown(CopyNodes(body, name, 0, n)) == CopiesShown(body, name, n)
  {
    hide Shown, NumberNodes, CopyNodes;
    if n == 0 {
      CopiesInOrder(body, name, 0, 0);
      NothingShown();
    } else {
      CopiesInOrder(body, name, 0, n - 1);
      CopiesAreShown(body, name, n - 1);
      ShownInParts(CopyNodes(body, name, 0, n - 1), NumberNodes(body, name, n - 1));
    }
  }

  lemma NothingShown()
    ensures Shown([]) == ""
  {
  }

  lemma LoopInPlace(name: string, body: seq<Node>, els: ElsePart, times: nat)
    ensures Shown(Apply([Block(Loop, name, body, els)], Loop, name, Repeat(times)))
         == if times > 0 then CopiesShown(body, name, times)
            else match els case NoElse => "" case ElsePart(nodes) => Shown(nodes)
  {
    hide Shown, CopyNodes, Apply, CopiesShown;
    ApplyOne(Block(Loop, name, body, els), Loop, name, Repeat(times));
    CopiesAreShown(body, name, times);
    NothingShown();
  }

  /**
   `loop` on a well-formed template with a block of the name, where no tag is mistaken: in the place of the block stand
   its numbered copies in order, or its else part if there is no repetition, and what stands in front of it and behind
   it becomes what it would become on its own.
   */
  lemma LoopShows(before: seq<Node>, name: string, body: seq<Node>, els: ElsePart, after: seq<Node>, times: nat)
    requires var nodes := before + [Block(Loop, name, body, els)] + after;
      BraceFree(name) && WellFormed(nodes) && (times == 0 || BodiesNumberable(nodes, Loop, name))
    ensures var r := Pass(Tokens(before + [Block(Loop, name, body, els)] + after), Loop, name, Repeat(times));
      && r.Done?
      && Print(r.ts) == Shown(Apply(before, Loop, name, Repeat(times)))
           + (if times > 0 then CopiesShown(body, name, times)
              else match els case NoElse => "" case ElsePart(nodes) => Shown(nodes))
           + Shown(Apply(after, Loop, name, Repeat(times)))
  {
    hide WellFormed, Apply, Tokens, Print, BodiesNumberable, Pass, Rewritten, CopiesShown;
    var block := [Block(Loop, name, body, els)];
    LoopOnTree(before + block + after, name, times);
    ApplyConcat(before + block, after, Loop, name, Repeat(times));
    ApplyConcat(before, block, Loop, name, Repeat(times));
    LoopInPlace(name, body, els, times);
    var a, b, c := Apply(before, Loop, name, Repeat(times)), Apply(block, Loop, name, Repeat(times)),
                   Apply(after, Loop, name, Repeat(times));
    ShownInParts(a + b, c);
    ShownInParts(a, b);
  }

  // ---------- Variables ----------

  /** `setVariable`: a tag in braces is replaced by the value, and text without such a tag stays. */
  lemma VariableShows(before: seq<Token>, name: string, after: seq<Token>, value: string)
    requires Without(before, name)
    ensures Print(before + [Tag(name)] + after) == Print(before) + "{" + name + "}" + Print(after)
    ensures Substitute(before + [Tag(name)] + after, name, value)
         == Print(before) + value + Substitute(after, name, value)
    ensures Substitute(before, name, value) == Print(before)
  {
    hide Print, Substitute;
    PrintConcat(before + [Tag(name)], after);
    PrintConcat(before, [Tag(name)]);
    PrintOne(Tag(name));
    assert before + [Tag(name)] + after == before + ([Tag(name)] + after);
    assert Print(before) + ("{" + name + "}") == Print(before) + "{" + name + "}";
    SubstituteSkips(before, [Tag(name)] + after, name, value);
    FirstIsSubstituted(name, after, value);
    var later := Substitute(after, name, value);
    assert Print(before) + (value + later) == Print(before) + value + later;
    SubstituteSkips(before, [], name, value);
    NothingSubstituted(name, value);
    assert before + [] == before;
  }

  lemma FirstIsSubstituted(name: string, after: seq<Token>, value: string)
    ensures Substitute([Tag(name)] + after, name, value) == value + Substitute(after, name, value)
  {
    assert ([Tag(name)] + after)[1..] == after;
  }

  lemma NothingSubstituted(name: string, value: string)
    ensures Substitute([], name, value) == ""
  {
  }
}
