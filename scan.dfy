/**
 * `extract_docx_headings` and `insert_node`: the paragraphs of a document become a
 * forest of headings. A paragraph whose style is a decimal number is a heading of
 * that level; a paragraph without a style is content of the newest heading.
 *
 * The forest is built in an arena: nodes are appended in document order, children
 * are indices into the arena, and the path stack holds indices where the original
 * holds raw pointers into the tree under construction.
 */
module Scan {
  import opened Wrappers
  import opened Usize
  import opened Headings

  /** A paragraph: its style id, if it has one, and its text. */
  datatype Paragraph = Paragraph(style: Option<string>, text: string)

  /** A child of the document body: a paragraph or anything else (a table, a section break). */
  datatype DocumentChild = ParagraphChild(paragraph: Paragraph) | OtherChild

  /** What one child of the document contributes. */
  datatype Kind = HeadingKind(level: nat, title: string) | ContentKind(text: string) | Skipped

  function KindOf(c: DocumentChild): (k: Kind)
    ensures k.HeadingKind? ==> k.level < Limit
  {
    match c
    case OtherChild => Skipped
    case ParagraphChild(p) =>
      if p.style.Some? then
        match ParseUsize(p.style.value)
        case Some(level) => HeadingKind(level, p.text)
        case None => Skipped
      else ContentKind(p.text)
  }

  /** `h` with `text` appended to its contents, which are created on first use. */
  function WithContent(h: Heading, text: string): Heading {
    h.(contents := Some((if h.contents.None? then [] else h.contents.value) + [text]))
  }

  /** Content attached under the newest heading; dropped when there is no heading yet. */
  function Attached(hs: seq<Heading>, text: string): seq<Heading> {
    if hs == [] then [] else hs[..|hs| - 1] + [WithContent(hs[|hs| - 1], text)]
  }

  /** The headings so far after one more child of kind `k`. */
  function Absorb(hs: seq<Heading>, k: Kind): seq<Heading> {
    match k
    case HeadingKind(level, title) => hs + [Heading(level, title, None)]
    case ContentKind(text) => Attached(hs, text)
    case Skipped => hs
  }

  /** The headings of a document in order, each with the plain paragraphs attached to it. */
  function Outline(doc: seq<DocumentChild>): seq<Heading>
    decreases |doc|
  {
    if doc == [] then [] else Absorb(Outline(doc[..|doc| - 1]), KindOf(doc[|doc| - 1]))
  }

  /** The forest `extract_docx_headings` returns for a document. */
  function HeadingForest(doc: seq<DocumentChild>): seq<Node> {
    Forest(Outline(doc))
  }

  /**
   * The state of a scan after the headings `hs`: the arena of their nodes, the
   * indices of the roots (the `tree` of the original) and the path stack.
   */
  ghost predicate Scanned(nodes: seq<ArenaNode>, tree: seq<nat>, pathStack: seq<nat>, hs: seq<Heading>) {
    && nodes == Arena(hs)
    && tree == Roots(hs)
    && pathStack == StackOf(Levels(hs))
  }

  /**
   * `insert_node`: pops the path stack down to the newest entry of a smaller level,
   * hangs the new node under it (or makes it a root when the stack runs empty) and
   * pushes it. Only the parent's children change; the new node is on top of the stack.
   */
  method InsertNode(nodes: seq<ArenaNode>, tree: seq<nat>, pathStack: seq<nat>, level: nat, title: string, ghost hs: seq<Heading>)
    returns (nodes': seq<ArenaNode>, tree': seq<nat>, pathStack': seq<nat>)
    requires Scanned(nodes, tree, pathStack, hs)
    ensures Scanned(nodes', tree', pathStack', hs + [Heading(level, title, None)])
    ensures pathStack' != [] && pathStack'[|pathStack'| - 1] == |nodes|
  {
    ghost var ls := Levels(hs);
    var n := |nodes|;
    var stack: seq<nat> := pathStack;
    assert |ls| == n;
    if n > 0 {
      StackTop(ls);
    }
    while stack != []
      invariant OnPath(ls, stack)
      invariant LastBelow(ls, Bound(stack), level) == LastBelow(ls, n, level)
      decreases |stack|
    {
      var last := stack[|stack| - 1];
      ArenaLevel(hs, last);
      if level > nodes[last].level {
        nodes', tree', pathStack' := AddChild(nodes, tree, stack, level, title, hs, pathStack);
        return;
      } else {
        PopStep(ls, stack, level);
        stack := stack[..|stack| - 1];
      }
    }
    nodes', tree', pathStack' := AddRoot(nodes, tree, level, title, hs, pathStack);
  }

  /** The new node becomes the last child of the node on top of `stack`, and is pushed. */
  method AddChild(nodes: seq<ArenaNode>, tree: seq<nat>, stack: seq<nat>, level: nat, title: string,
                  ghost hs: seq<Heading>, ghost pathStack: seq<nat>)
    returns (nodes': seq<ArenaNode>, tree': seq<nat>, pathStack': seq<nat>)
    requires Scanned(nodes, tree, pathStack, hs)
    requires stack != [] && OnPath(Levels(hs), stack) && Levels(hs)[stack[|stack| - 1]] < level
    requires LastBelow(Levels(hs), Bound(stack), level) == LastBelow(Levels(hs), |hs|, level)
    ensures Scanned(nodes', tree', pathStack', hs + [Heading(level, title, None)])
    ensures pathStack' != [] && pathStack'[|pathStack'| - 1] == |nodes|
  {
    var n := |nodes|;
    var last := stack[|stack| - 1];
    nodes' := nodes[last := nodes[last].(children := nodes[last].children + [n])] + [ArenaNode(level, title, None, [])];
    tree' := tree;
    pathStack' := stack + [n];
    ChildInserted(nodes, tree, pathStack, hs, Heading(level, title, None), stack);
  }

  /** With no parent on the stack, the new node becomes a root and the only stack entry. */
  method AddRoot(nodes: seq<ArenaNode>, tree: seq<nat>, level: nat, title: string,
                 ghost hs: seq<Heading>, ghost pathStack: seq<nat>)
    returns (nodes': seq<ArenaNode>, tree': seq<nat>, pathStack': seq<nat>)
    requires Scanned(nodes, tree, pathStack, hs)
    requires LastBelow(Levels(hs), 0, level) == LastBelow(Levels(hs), |hs|, level)
    ensures Scanned(nodes', tree', pathStack', hs + [Heading(level, title, None)])
    ensures pathStack' == [|nodes|]
  {
    var n := |nodes|;
    tree' := tree + [n];
    nodes' := nodes + [ArenaNode(level, title, None, [])];
    pathStack' := [] + [n];
    RootInserted(nodes, tree, pathStack, hs, Heading(level, title, None));
  }

  /**
   * A paragraph without a style: its text goes to the contents of the node on top
   * of the path stack, created on first use; with an empty stack it goes nowhere.
   */
  method AttachContent(nodes: seq<ArenaNode>, tree: seq<nat>, pathStack: seq<nat>, text: string, ghost hs: seq<Heading>)
    returns (nodes': seq<ArenaNode>)
    requires Scanned(nodes, tree, pathStack, hs)
    ensures Scanned(nodes', tree, pathStack, Attached(hs, text))
    ensures |nodes'| == |nodes| && forall i :: 0 <= i < |nodes| - 1 ==> nodes'[i] == nodes[i]
  {
    nodes' := nodes;
    if pathStack != [] {
      var last := pathStack[|pathStack| - 1];
      StackTop(Levels(hs));
      AttachedArena(hs, text);
      if nodes'[last].contents.None? {
        nodes' := nodes'[last := nodes'[last].(contents := Some([]))];
      }
      nodes' := nodes'[last := nodes'[last].(contents := Some(nodes'[last].contents.value + [text]))];
    } else {
      assert hs == [];
    }
  }

  /**
   * The scan state after a heading whose parent is the top of `stack`: the parent
   * gains it as its last child, the roots stay and the stack grows by it.
   */
  lemma {:induction false} ChildInserted(nodes: seq<ArenaNode>, tree: seq<nat>, pathStack: seq<nat>, hs: seq<Heading>, h: Heading, stack: seq<nat>)
    requires Scanned(nodes, tree, pathStack, hs) && h.contents.None?
    requires stack != [] && OnPath(Levels(hs), stack) && Levels(hs)[stack[|stack| - 1]] < h.level
    requires LastBelow(Levels(hs), Bound(stack), h.level) == LastBelow(Levels(hs), |hs|, h.level)
    ensures var p := stack[|stack| - 1];
      Scanned(nodes[p := nodes[p].(children := nodes[p].children + [|hs|])] + [ArenaNode(h.level, h.title, None, [])],
              tree, stack + [|hs|], hs + [h])
  {
    var ls := Levels(hs);
    var p := stack[|stack| - 1];
    assert LastBelow(ls, p + 1, h.level) == Some(p);
    LevelsAppend(hs, h);
    LastBelowAppend(ls, h.level, |hs|, h.level);
    ArenaAppendChild(hs, h, p);
    RootsAppend(hs, h);
    StackAppend(ls, h.level);
  }

  /** The scan state after a heading with no parent: a new root on an emptied stack. */
  lemma {:induction false} RootInserted(nodes: seq<ArenaNode>, tree: seq<nat>, pathStack: seq<nat>, hs: seq<Heading>, h: Heading)
    requires Scanned(nodes, tree, pathStack, hs) && h.contents.None?
    requires LastBelow(Levels(hs), 0, h.level) == LastBelow(Levels(hs), |hs|, h.level)
    ensures Scanned(nodes + [ArenaNode(h.level, h.title, None, [])], tree + [|hs|], [] + [|hs|], hs + [h])
  {
    var ls := Levels(hs);
    LevelsAppend(hs, h);
    LastBelowAppend(ls, h.level, |hs|, h.level);
    ArenaAppendRoot(hs, h);
    RootsAppend(hs, h);
    StackAppend(ls, h.level);
  }

  /** Attaching content changes only the newest node's contents. */
  lemma {:induction false} AttachedArena(hs: seq<Heading>, text: string)
    requires hs != []
    ensures var n := |hs|; var hs2 := Attached(hs, text);
      && Levels(hs2) == Levels(hs)
      && Roots(hs2) == Roots(hs)
      && Arena(hs2) == Arena(hs)[n - 1 := Arena(hs)[n - 1].(contents := hs2[n - 1].contents)]
  {
    var n := |hs|;
    var hs2 := Attached(hs, text);
    assert Levels(hs2) == Levels(hs);
    ArenaAt(hs);
    ArenaAt(hs2);
    var a := Arena(hs)[n - 1 := Arena(hs)[n - 1].(contents := hs2[n - 1].contents)];
    forall i | 0 <= i < n ensures Arena(hs2)[i] == a[i] {
      if i < n - 1 {
        assert hs2[i] == hs[i];
      }
    }
  }

  /** One child of the document body: a numbered style inserts a heading, no style attaches content. */
  method ScanChild(nodes: seq<ArenaNode>, tree: seq<nat>, pathStack: seq<nat>, c: DocumentChild, ghost hs: seq<Heading>)
    returns (nodes': seq<ArenaNode>, tree': seq<nat>, pathStack': seq<nat>)
    requires Scanned(nodes, tree, pathStack, hs)
    ensures Scanned(nodes', tree', pathStack', Absorb(hs, KindOf(c)))
  {
    nodes', tree', pathStack' := nodes, tree, pathStack;
    match c
    case ParagraphChild(p) =>
      if p.style.Some? {
        var level := ParseUsize(p.style.value);
        if level.Some? {
          nodes', tree', pathStack' := InsertNode(nodes, tree, pathStack, level.value, p.text, hs);
        }
      } else {
        nodes' := AttachContent(nodes, tree, pathStack, p.text, hs);
      }
    case OtherChild =>
  }

  /** `extract_docx_headings`: one pass over the children of the document body. */
  method ExtractDocxHeadings(doc: seq<DocumentChild>) returns (forest: seq<Node>)
    ensures forest == HeadingForest(doc)
  {
    var nodes: seq<ArenaNode> := [];
    var tree: seq<nat> := [];
    var pathStack: seq<nat> := [];
    ghost var hs: seq<Heading> := [];
    for i := 0 to |doc|
      invariant hs == Outline(doc[..i]) && Scanned(nodes, tree, pathStack, hs)
    {
      OutlineLast(doc[..i], doc[i]);
      assert doc[..i] + [doc[i]] == doc[..i + 1];
      nodes, tree, pathStack := ScanChild(nodes, tree, pathStack, doc[i], hs);
      hs := Absorb(hs, KindOf(doc[i]));
    }
    assert doc[..|doc|] == doc;
    forest := Trees(nodes, tree, -1);
  }

  // ------------------------------------------------------------------
  // What the scan keeps of a document.

  /** The children that are headings, in document order. */
  function HeadingsOf(doc: seq<DocumentChild>): (ks: seq<Kind>)
    ensures forall x :: 0 <= x < |ks| ==> ks[x].HeadingKind?
    decreases |doc|
  {
    if doc == [] then []
    else HeadingsOf(doc[..|doc| - 1]) + (if KindOf(doc[|doc| - 1]).HeadingKind? then [KindOf(doc[|doc| - 1])] else [])
  }

  /** The texts of the plain paragraphs, in document order. */
  function Texts(doc: seq<DocumentChild>): seq<string>
    decreases |doc|
  {
    if doc == [] then []
    else Texts(doc[..|doc| - 1]) + (if KindOf(doc[|doc| - 1]).ContentKind? then [KindOf(doc[|doc| - 1]).text] else [])
  }

  predicate NoHeadings(doc: seq<DocumentChild>) {
    forall x :: 0 <= x < |doc| ==> !KindOf(doc[x]).HeadingKind?
  }

  /** Contents `c` after the texts `ts` are attached: created by the first text, then extended. */
  function Grown(c: Option<seq<string>>, ts: seq<string>): Option<seq<string>> {
    if ts == [] then c else Some((if c.None? then [] else c.value) + ts)
  }

  lemma {:induction false} OutlineLast(doc: seq<DocumentChild>, c: DocumentChild)
    ensures (doc + [c])[..|doc|] == doc
    ensures Outline(doc + [c]) == Absorb(Outline(doc), KindOf(c))
  {
    assert (doc + [c])[..|doc|] == doc;
  }

  /** The last child of a non-empty suffix is absorbed last. */
  lemma {:induction false} OutlineSnoc(x: seq<DocumentChild>, doc: seq<DocumentChild>)
    requires doc != []
    ensures Outline(x + doc) == Absorb(Outline(x + doc[..|doc| - 1]), KindOf(doc[|doc| - 1]))
  {
    var d := doc[..|doc| - 1];
    var c := doc[|doc| - 1];
    assert doc == d + [c];
    assert x + doc == (x + d) + [c];
    OutlineLast(x + d, c);
  }

  /** What follows a prefix sees only the prefix's outline. */
  lemma {:induction false} OutlineCongruent(a: seq<DocumentChild>, b: seq<DocumentChild>, doc: seq<DocumentChild>)
    requires Outline(a) == Outline(b)
    ensures Outline(a + doc) == Outline(b + doc)
    decreases |doc|
  {
    if doc != [] {
      var d := doc[..|doc| - 1];
      var c := doc[|doc| - 1];
      OutlineCongruent(a, b, d);
      OutlineSnoc(a, doc);
      OutlineSnoc(b, doc);
    } else {
      assert a + doc == a && b + doc == b;
    }
  }

  /**
   * A child that is not a paragraph, or a paragraph whose style is not a decimal
   * level, leaves no trace: neither heading nor content.
   */
  lemma {:induction false} SkippedChildDropped(a: seq<DocumentChild>, c: DocumentChild, b: seq<DocumentChild>)
    requires c.OtherChild? || (c.paragraph.style.Some? && ParseUsize(c.paragraph.style.value).None?)
    ensures Outline(a + [c] + b) == Outline(a + b)
  {
    OutlineLast(a, c);
    OutlineCongruent(a + [c], a, b);
  }

  /** Before the first heading no child contributes anything. */
  lemma {:induction false} NoHeadingsEmpty(doc: seq<DocumentChild>)
    requires NoHeadings(doc)
    ensures Outline(doc) == []
    decreases |doc|
  {
    if doc != [] {
      var d := doc[..|doc| - 1];
      assert NoHeadings(d) by {
        forall x | 0 <= x < |d| ensures !KindOf(d[x]).HeadingKind? {
          assert d[x] == doc[x];
        }
      }
      NoHeadingsEmpty(d);
      assert !KindOf(doc[|doc| - 1]).HeadingKind?;
    }
  }

  /** Plain paragraphs before the first heading are attached nowhere. */
  lemma {:induction false} PlainPrefixIgnored(pre: seq<DocumentChild>, doc: seq<DocumentChild>)
    requires NoHeadings(pre)
    ensures Outline(pre + doc) == Outline(doc)
  {
    NoHeadingsEmpty(pre);
    assert Outline([]) == [];
    OutlineCongruent(pre, [], doc);
    assert [] + doc == doc;
  }

  /** With no heading in `body`, its plain paragraphs all extend the contents of the newest heading. */
  lemma {:induction false} SectionGrowth(x: seq<DocumentChild>, hs: seq<Heading>, h: Heading, body: seq<DocumentChild>)
    requires Outline(x) == hs + [h] && NoHeadings(body)
    ensures Outline(x + body) == hs + [h.(contents := Grown(h.contents, Texts(body)))]
    decreases |body|
  {
    if body == [] {
      assert x + body == x;
    } else {
      var d := body[..|body| - 1];
      var c := body[|body| - 1];
      assert NoHeadings(d) by {
        forall y | 0 <= y < |d| ensures !KindOf(d[y]).HeadingKind? {
          assert d[y] == body[y];
        }
      }
      SectionGrowth(x, hs, h, d);
      assert x + body == (x + d) + [c];
      OutlineLast(x + d, c);
      assert !KindOf(c).HeadingKind?;
      var g := h.(contents := Grown(h.contents, Texts(d)));
      assert (hs + [g])[..|hs|] == hs;
      assert Texts(body) == Texts(d) + (if KindOf(c).ContentKind? then [KindOf(c).text] else []);
      if KindOf(c).ContentKind? {
        GrownStep(h.contents, Texts(d), KindOf(c).text);
      } else {
        assert Texts(body) == Texts(d);
      }
    }
  }

  lemma {:induction false} GrownStep(c: Option<seq<string>>, ts: seq<string>, t: string)
    ensures Grown(c, ts + [t]) == Some((if Grown(c, ts).None? then [] else Grown(c, ts).value) + [t])
  {
    if ts != [] {
      var base := if c.None? then [] else c.value;
      assert base + (ts + [t]) == (base + ts) + [t];
    } else {
      assert ts + [t] == [t];
    }
  }

  /**
   * The plain paragraphs after a heading, up to the next one, become its contents,
   * in order; the contents stay `None` exactly when there are none.
   */
  lemma {:induction false} SectionContents(pre: seq<DocumentChild>, c: DocumentChild, body: seq<DocumentChild>)
    requires KindOf(c).HeadingKind? && NoHeadings(body)
    ensures var k := KindOf(c);
      Outline(pre + [c] + body)
        == Outline(pre) + [Heading(k.level, k.title, if Texts(body) == [] then None else Some(Texts(body)))]
  {
    var k := KindOf(c);
    OutlineLast(pre, c);
    SectionGrowth(pre + [c], Outline(pre), Heading(k.level, k.title, None), body);
    assert [] + Texts(body) == Texts(body);
  }

  /** Attaching contents keeps the levels and titles of the headings. */
  lemma {:induction false} OutlineHeadings(doc: seq<DocumentChild>)
    ensures |Outline(doc)| == |HeadingsOf(doc)|
    ensures forall x :: 0 <= x < |Outline(doc)| ==>
      Outline(doc)[x].level == HeadingsOf(doc)[x].level && Outline(doc)[x].title == HeadingsOf(doc)[x].title
    decreases |doc|
  {
    if doc != [] {
      var d := doc[..|doc| - 1];
      OutlineHeadings(d);
      OutlineLast(d, doc[|doc| - 1]);
      assert d + [doc[|doc| - 1]] == doc;
    }
  }

  /**
   * The forest lists every heading paragraph exactly once, in document order, with
   * its level and title, and every child is deeper than its parent.
   */
  lemma {:induction false} ScanPreorder(doc: seq<DocumentChild>)
    ensures FlattenForest(HeadingForest(doc)) == Outline(doc)
    ensures |Outline(doc)| == |HeadingsOf(doc)|
    ensures forall x :: 0 <= x < |Outline(doc)| ==>
      Outline(doc)[x].level == HeadingsOf(doc)[x].level && Outline(doc)[x].title == HeadingsOf(doc)[x].title
    ensures forall x :: 0 <= x < |HeadingForest(doc)| ==> Deepening(HeadingForest(doc)[x])
  {
    ForestPreorder(Outline(doc));
    ForestDeepening(Outline(doc));
    OutlineHeadings(doc);
  }

  // ------------------------------------------------------------------
  // Examples.

  function Styled(style: string, text: string): DocumentChild {
    ParagraphChild(Paragraph(Some(style), text))
  }

  lemma LevelStyles()
    ensures ParseUsize("0") == Some(0)
    ensures ParseUsize("1") == Some(1)
    ensures ParseUsize("2") == Some(2)
  {
    assert "1"[..0] == [] && "2"[..0] == [];
  }

  /** Style `0` is a heading level like any other. */
  lemma LevelZeroExample()
    ensures Outline([Styled("0", "T")]) == [Heading(0, "T", None)]
  {
    LevelStyles();
    OutlineLast([], Styled("0", "T"));
    assert [] + [Styled("0", "T")] == [Styled("0", "T")];
  }

  /** Headings of levels 1, 2, 2, 1 titled A to D. */
  lemma OutlineExample(doc: seq<DocumentChild>)
    requires doc == [Styled("1", "A"), Styled("2", "B"), Styled("2", "C"), Styled("1", "D")]
    ensures Outline(doc) == [Heading(1, "A", None), Heading(2, "B", None), Heading(2, "C", None), Heading(1, "D", None)]
  {
    LevelStyles();
    var d1, d2, d3 := doc[..1], doc[..2], doc[..3];
    OutlineLast([], doc[0]);
    assert [] + [doc[0]] == d1;
    OutlineLast(d1, doc[1]);
    assert d1 + [doc[1]] == d2;
    OutlineLast(d2, doc[2]);
    assert d2 + [doc[2]] == d3;
    OutlineLast(d3, doc[3]);
    assert d3 + [doc[3]] == doc;
  }

  /** The levels 1, 2, 2, 1: B and C hang under A, and D is a second root. */
  lemma ForestExample(hs: seq<Heading>)
    requires hs == [Heading(1, "A", None), Heading(2, "B", None), Heading(2, "C", None), Heading(1, "D", None)]
    ensures Forest(hs) == [Node(1, "A", None, [Node(2, "B", None, []), Node(2, "C", None, [])]), Node(1, "D", None, [])]
  {
    ExampleArena(hs);
    var nodes := Arena(hs);
    assert Tree(nodes, 1) == Node(2, "B", None, []);
    assert Tree(nodes, 2) == Node(2, "C", None, []);
    assert Trees(nodes, [2], 0) == [Tree(nodes, 2)];
    assert Tree(nodes, 0) == Node(1, "A", None, [Node(2, "B", None, []), Node(2, "C", None, [])]);
    assert Tree(nodes, 3) == Node(1, "D", None, []);
    assert Trees(nodes, [3], -1) == [Tree(nodes, 3)];
  }

  /** The arena and the roots of the example outline. */
  lemma ExampleArena(hs: seq<Heading>)
    requires hs == [Heading(1, "A", None), Heading(2, "B", None), Heading(2, "C", None), Heading(1, "D", None)]
    ensures Roots(hs) == [0, 3]
    ensures Arena(hs) == [ArenaNode(1, "A", None, [1, 2]), ArenaNode(2, "B", None, []),
                          ArenaNode(2, "C", None, []), ArenaNode(1, "D", None, [])]
  {
    var ls := Levels(hs);
    assert ls == [1, 2, 2, 1];
    assert Parent(ls, 0) == None && Parent(ls, 3) == None;
    assert Parent(ls, 1) == Some(0) && Parent(ls, 2) == Some(0);
    assert ChildrenFrom(ls, None, 3) == [3];
    assert ChildrenFrom(ls, None, 1) == [3];
    assert ChildrenFrom(ls, Some(0), 3) == [];
    assert ChildrenFrom(ls, Some(0), 1) == [1, 2];
    assert ChildrenFrom(ls, Some(1), 3) == [];
    assert ChildrenFrom(ls, Some(1), 2) == [];
    assert ChildrenFrom(ls, Some(2), 3) == [];
    assert ChildrenFrom(ls, Some(3), 4) == [];
    ArenaAt(hs);
  }


  /** The document with headings of levels 1, 2, 2, 1 gives `A{B, C}, D`. */
  lemma ScanExample(doc: seq<DocumentChild>)
    requires doc == [Styled("1", "A"), Styled("2", "B"), Styled("2", "C"), Styled("1", "D")]
    ensures HeadingForest(doc) == [Node(1, "A", None, [Node(2, "B", None, []), Node(2, "C", None, [])]), Node(1, "D", None, [])]
  {
    OutlineExample(doc);
    ForestExample(Outline(doc));
  }
}
