/**
 * The heading forest of a document, defined from the flat list of its headings.
 *
 * A heading hangs under the last earlier heading of a strictly smaller level, or is
 * a root when there is none. The forest is described as an arena: one node per
 * heading, in document order, whose children are the indices of the headings that
 * hang under it.
 */
module Headings {
  import opened Wrappers

  /** A heading of the document with the plain paragraphs attached under it. */
  datatype Heading = Heading(level: nat, title: string, contents: Option<seq<string>>)

  /** `Node` of the heading scanner: a heading with its sub-headings. */
  datatype Node = Node(level: nat, title: string, contents: Option<seq<string>>, children: seq<Node>)

  /** A node of the arena: `children` are indices of later nodes of the same arena. */
  datatype ArenaNode = ArenaNode(level: nat, title: string, contents: Option<seq<string>>, children: seq<nat>)

  function Levels(hs: seq<Heading>): seq<nat> {
    seq(|hs|, i requires 0 <= i < |hs| => hs[i].level)
  }

  /** The last index before `k` whose level is below `level`, if any. */
  function LastBelow(ls: seq<nat>, k: nat, level: nat): (r: Option<nat>)
    requires k <= |ls|
    ensures r.Some? ==> r.value < k && ls[r.value] < level && forall j :: r.value < j < k ==> ls[j] >= level
    ensures r.None? ==> forall j :: 0 <= j < k ==> ls[j] >= level
    decreases k
  {
    if k == 0 then None
    else if ls[k - 1] < level then Some(k - 1)
    else LastBelow(ls, k - 1, level)
  }

  /** The heading `i` hangs under: the last earlier one of a smaller level; `None` for a root. */
  function Parent(ls: seq<nat>, i: nat): Option<nat>
    requires i < |ls|
  {
    LastBelow(ls, i, ls[i])
  }

  /** The headings at or after `k` whose parent is `p`, in document order. */
  function ChildrenFrom(ls: seq<nat>, p: Option<nat>, k: nat): seq<nat>
    requires k <= |ls|
    decreases |ls| - k
  {
    if k == |ls| then []
    else (if Parent(ls, k) == p then [k] else []) + ChildrenFrom(ls, p, k + 1)
  }

  /** The children of `p` from `k` on lie at or after `k` and hang under `p`. */
  lemma {:induction false} ChildrenBounds(ls: seq<nat>, p: Option<nat>, k: nat)
    requires k <= |ls|
    ensures forall x :: 0 <= x < |ChildrenFrom(ls, p, k)| ==>
      k <= ChildrenFrom(ls, p, k)[x] < |ls| && Parent(ls, ChildrenFrom(ls, p, k)[x]) == p
    decreases |ls| - k
  {
    if k < |ls| {
      ChildrenBounds(ls, p, k + 1);
    }
  }

  /** The children lists are in document order and miss no heading. */
  lemma {:induction false} ChildrenComplete(ls: seq<nat>, p: Option<nat>, k: nat)
    requires k <= |ls|
    ensures forall x, y :: 0 <= x < y < |ChildrenFrom(ls, p, k)| ==> ChildrenFrom(ls, p, k)[x] < ChildrenFrom(ls, p, k)[y]
    ensures forall i :: k <= i < |ls| && Parent(ls, i) == p ==> i in ChildrenFrom(ls, p, k)
    decreases |ls| - k
  {
    if k < |ls| {
      ChildrenComplete(ls, p, k + 1);
      ChildrenBounds(ls, p, k + 1);
    }
  }

  /** The node the scanner builds for heading `i`: the heading and the indices of its children. */
  function NodeAt(hs: seq<Heading>, i: nat): ArenaNode
    requires i < |hs|
  {
    ArenaNode(hs[i].level, hs[i].title, hs[i].contents, ChildrenFrom(Levels(hs), Some(i), i + 1))
  }

  /** The nodes of the first `k` headings, in document order. */
  function ArenaPrefix(hs: seq<Heading>, k: nat): (nodes: seq<ArenaNode>)
    requires k <= |hs|
    ensures |nodes| == k
    decreases k
  {
    if k == 0 then [] else ArenaPrefix(hs, k - 1) + [NodeAt(hs, k - 1)]
  }

  /** The arena the scanner builds for the headings `hs`. */
  function Arena(hs: seq<Heading>): (nodes: seq<ArenaNode>)
    ensures |nodes| == |hs|
  {
    ArenaPrefix(hs, |hs|)
  }

  lemma {:induction false} ArenaPrefixAt(hs: seq<Heading>, k: nat)
    requires k <= |hs|
    ensures forall i :: 0 <= i < k ==> ArenaPrefix(hs, k)[i] == NodeAt(hs, i)
    decreases k
  {
    if k > 0 {
      ArenaPrefixAt(hs, k - 1);
    }
  }

  /** Node `i` of the arena has the level of heading `i`. */
  lemma {:induction false} ArenaLevel(hs: seq<Heading>, i: nat)
    requires i < |hs|
    ensures Arena(hs)[i].level == Levels(hs)[i]
  {
    ArenaAt(hs);
  }

  /** Node `i` of the arena is built from heading `i`. */
  lemma {:induction false} ArenaAt(hs: seq<Heading>)
    ensures forall i :: 0 <= i < |hs| ==> Arena(hs)[i] == NodeAt(hs, i)
  {
    ArenaPrefixAt(hs, |hs|);
  }

  /** The root headings, in document order. */
  function Roots(hs: seq<Heading>): seq<nat> {
    ChildrenFrom(Levels(hs), None, 0)
  }

  /** The node `i` of an arena with its sub-headings spelled out. */
  function Tree(nodes: seq<ArenaNode>, i: nat): Node
    requires i < |nodes|
    decreases |nodes| - i, |nodes[i].children| + 1
  {
    var n := nodes[i];
    Node(n.level, n.title, n.contents, Trees(nodes, n.children, i))
  }

  /**
   * The nodes `cs` of an arena with their sub-headings spelled out; an index that
   * does not point past `lo` into the arena is dropped, which never happens for
   * the arena of a list of headings.
   */
  function Trees(nodes: seq<ArenaNode>, cs: seq<nat>, lo: int): seq<Node>
    decreases |nodes| - lo, |cs|
  {
    if cs == [] then []
    else (if lo < cs[0] < |nodes| then [Tree(nodes, cs[0])] else []) + Trees(nodes, cs[1..], lo)
  }

  /** The forest of the headings `hs`. */
  function Forest(hs: seq<Heading>): seq<Node> {
    Trees(Arena(hs), Roots(hs), -1)
  }

  // ------------------------------------------------------------------
  // Pre-order: the forest lists every heading once, in document order.

  function FlattenNode(n: Node): seq<Heading>
    decreases n
  {
    [Heading(n.level, n.title, n.contents)] + FlattenForest(n.children)
  }

  /** The headings of a forest in pre-order, without their children. */
  function FlattenForest(f: seq<Node>): seq<Heading>
    decreases f
  {
    if f == [] then [] else FlattenNode(f[0]) + FlattenForest(f[1..])
  }

  /** Where the subtree of heading `j` stops: the next heading of a level at most `j`'s. */
  function End(ls: seq<nat>, j: nat): (e: nat)
    requires j < |ls|
    ensures j < e <= |ls|
    ensures forall k :: j < k < e ==> ls[k] > ls[j]
    ensures e < |ls| ==> ls[e] <= ls[j]
  {
    EndFrom(ls, j, j + 1)
  }

  function EndFrom(ls: seq<nat>, j: nat, k: nat): (e: nat)
    requires j < k <= |ls|
    ensures k <= e <= |ls|
    ensures forall x :: k <= x < e ==> ls[x] > ls[j]
    ensures e < |ls| ==> ls[e] <= ls[j]
    decreases |ls| - k
  {
    if k == |ls| || ls[k] <= ls[j] then k else EndFrom(ls, j, k + 1)
  }

  /** Where the children of `p` stop; the whole list for the roots. */
  function EndOf(ls: seq<nat>, p: Option<nat>): nat
    requires p.Some? ==> p.value < |ls|
  {
    if p.None? then |ls| else End(ls, p.value)
  }

  function LoOf(p: Option<nat>): int {
    if p.None? then -1 else p.value
  }

  /** Below a run of levels at least `level` the search for a smaller one goes on unchanged. */
  lemma {:induction false} LastBelowSkip(ls: seq<nat>, a: nat, b: nat, level: nat)
    requires a <= b <= |ls|
    requires forall j :: a <= j < b ==> ls[j] >= level
    ensures LastBelow(ls, b, level) == LastBelow(ls, a, level)
    decreases b
  {
    if a < b {
      LastBelowSkip(ls, a, b - 1, level);
    }
  }

  lemma {:induction false} ChildrenSkip(ls: seq<nat>, p: Option<nat>, a: nat, b: nat)
    requires a <= b <= |ls|
    requires forall i :: a <= i < b ==> Parent(ls, i) != p
    ensures ChildrenFrom(ls, p, a) == ChildrenFrom(ls, p, b)
    decreases b - a
  {
    if a < b {
      ChildrenSkip(ls, p, a + 1, b);
    }
  }

  /** A child of `p` lies after `p` and before `p`'s subtree stops. */
  lemma {:induction false} ChildInside(ls: seq<nat>, p: Option<nat>, i: nat)
    requires i < |ls| && Parent(ls, i) == p
    ensures p.Some? ==> p.value < i
    ensures i < EndOf(ls, p)
  {
    if p.Some? {
      var j := p.value;
      var e := End(ls, j);
    }
  }

  lemma {:induction false} ChildrenEnd(ls: seq<nat>, p: Option<nat>)
    requires p.Some? ==> p.value < |ls|
    ensures ChildrenFrom(ls, p, EndOf(ls, p)) == []
  {
    forall i | EndOf(ls, p) <= i < |ls| ensures Parent(ls, i) != p {
      if Parent(ls, i) == p {
        ChildInside(ls, p, i);
      }
    }
    ChildrenSkip(ls, p, EndOf(ls, p), |ls|);
  }

  /**
   * After a child `k` of `p` and its subtree comes either the end of `p`'s subtree
   * or the next child of `p`.
   */
  lemma {:induction false} ChildrenStep(ls: seq<nat>, p: Option<nat>, k: nat)
    requires k < |ls| && Parent(ls, k) == p
    ensures p.Some? ==> p.value < |ls|
    ensures End(ls, k) <= EndOf(ls, p)
    ensures End(ls, k) == EndOf(ls, p) || Parent(ls, End(ls, k)) == p
    ensures ChildrenFrom(ls, p, k) == [k] + ChildrenFrom(ls, p, End(ls, k))
  {
    ChildInside(ls, p, k);
    SubtreeSkipped(ls, p, k);
    SubtreeNested(ls, p, k);
    if End(ls, k) < EndOf(ls, p) {
      NextSibling(ls, p, k);
    }
  }

  /** No heading inside the subtree of a child `k` of `p` is another child of `p`. */
  lemma {:induction false} SubtreeSkipped(ls: seq<nat>, p: Option<nat>, k: nat)
    requires k < |ls| && Parent(ls, k) == p
    ensures ChildrenFrom(ls, p, k) == [k] + ChildrenFrom(ls, p, End(ls, k))
  {
    ChildInside(ls, p, k);
    var e := End(ls, k);
    forall i | k + 1 <= i < e ensures Parent(ls, i) != p {
      InsideNotChild(ls, p, k, i);
    }
    ChildrenSkip(ls, p, k + 1, e);
    assert ChildrenFrom(ls, p, k) == [k] + ChildrenFrom(ls, p, k + 1);
  }

  /** A heading strictly inside the subtree of a child `k` of `p` has its parent inside it too. */
  lemma {:induction false} InsideNotChild(ls: seq<nat>, p: Option<nat>, k: nat, i: nat)
    requires k < i < |ls| && i < End(ls, k) && Parent(ls, k) == p
    ensures Parent(ls, i) != p
  {
    ChildInside(ls, p, k);
    assert ls[k] < ls[i];
    assert LastBelow(ls, i, ls[i]).Some? && LastBelow(ls, i, ls[i]).value >= k;
  }

  /** The subtree of a child of `p` stops no later than `p`'s. */
  lemma {:induction false} SubtreeNested(ls: seq<nat>, p: Option<nat>, k: nat)
    requires k < |ls| && Parent(ls, k) == p
    ensures p.Some? ==> p.value < |ls|
    ensures End(ls, k) <= EndOf(ls, p)
  {
    ChildInside(ls, p, k);
    if p.Some? {
      var j := p.value;
      var ej := End(ls, j);
      assert k < ej;
      assert ej < |ls| ==> ls[ej] < ls[k];
    }
  }

  /** Where the subtree of a child of `p` stops inside `p`'s, the next child of `p` starts. */
  lemma {:induction false} NextSibling(ls: seq<nat>, p: Option<nat>, k: nat)
    requires k < |ls| && Parent(ls, k) == p
    requires p.Some? ==> p.value < |ls|
    requires End(ls, k) < EndOf(ls, p)
    ensures End(ls, k) < |ls| && Parent(ls, End(ls, k)) == p
  {
    ChildInside(ls, p, k);
    var e := End(ls, k);
    var lo := if p.None? then 0 else p.value + 1;
    forall x | lo <= x < e ensures ls[x] >= ls[e] {
      if x < k {
        assert ls[x] >= ls[k];
      }
    }
    LastBelowSkip(ls, lo, e, ls[e]);
    if p.Some? {
      assert ls[p.value] < ls[e];
    }
  }

  lemma {:induction false} TreesCons(nodes: seq<ArenaNode>, cs: seq<nat>, lo: int)
    requires cs != [] && lo < cs[0] < |nodes|
    ensures FlattenForest(Trees(nodes, cs, lo)) == FlattenNode(Tree(nodes, cs[0])) + FlattenForest(Trees(nodes, cs[1..], lo))
  {
    var t := Trees(nodes, cs, lo);
    assert t[0] == Tree(nodes, cs[0]);
    assert t[1..] == Trees(nodes, cs[1..], lo);
  }

  /** The subtree of heading `j` lists the headings from `j` up to where it stops. */
  lemma {:induction false} TreePreorder(hs: seq<Heading>, j: nat)
    requires j < |hs|
    ensures FlattenNode(Tree(Arena(hs), j)) == hs[j..End(Levels(hs), j)]
    decreases End(Levels(hs), j) - j, 1
  {
    var ls := Levels(hs);
    var e := End(ls, j);
    if j + 1 < e {
      assert ls[j] < ls[j + 1];
      assert Parent(ls, j + 1) == Some(j);
    }
    ChildrenPreorder(hs, Some(j), j + 1);
    TreeAt(hs, j);
    SliceCons(hs, j, e);
  }

  lemma {:induction false} TreeAt(hs: seq<Heading>, j: nat)
    requires j < |hs|
    ensures FlattenNode(Tree(Arena(hs), j))
         == [hs[j]] + FlattenForest(Trees(Arena(hs), ChildrenFrom(Levels(hs), Some(j), j + 1), j))
  {
    ArenaAt(hs);
  }

  lemma SliceCons<T>(s: seq<T>, a: nat, b: nat)
    requires a < b <= |s|
    ensures s[a..b] == [s[a]] + s[a + 1..b]
  {
  }

  lemma SliceSplit<T>(s: seq<T>, a: nat, b: nat, c: nat)
    requires a <= b <= c <= |s|
    ensures s[a..c] == s[a..b] + s[b..c]
  {
  }

  /** The children of `p` from the child `k` on list the headings from `k` up to where `p`'s subtree stops. */
  lemma {:induction false} ChildrenPreorder(hs: seq<Heading>, p: Option<nat>, k: nat)
    requires p.Some? ==> p.value < k
    requires k <= |hs|
    requires k == EndOf(Levels(hs), p) || (k < |hs| && Parent(Levels(hs), k) == p)
    ensures k <= EndOf(Levels(hs), p)
    ensures
      FlattenForest(Trees(Arena(hs), ChildrenFrom(Levels(hs), p, k), LoOf(p))) == hs[k..EndOf(Levels(hs), p)]
    decreases EndOf(Levels(hs), p) - k + 1, 0
  {
    var ls := Levels(hs);
    var nodes := Arena(hs);
    ArenaAt(hs);
    if k == EndOf(ls, p) {
      ChildrenEnd(ls, p);
    } else {
      ChildrenStep(ls, p, k);
      var e := End(ls, k);
      var cs := ChildrenFrom(ls, p, k);
      TreesCons(nodes, cs, LoOf(p));
      assert cs[1..] == ChildrenFrom(ls, p, e);
      TreePreorder(hs, k);
      ChildrenPreorder(hs, p, e);
      SliceSplit(hs, k, e, EndOf(ls, p));
    }
  }

  /** Every heading appears once in the forest, in document (pre-)order. */
  lemma {:induction false} ForestPreorder(hs: seq<Heading>)
    ensures FlattenForest(Forest(hs)) == hs
  {
    ChildrenPreorder(hs, None, 0);
  }

  // ------------------------------------------------------------------
  // Levels grow from parent to child.

  /** Every child is of a strictly greater level than the node it hangs under. */
  predicate Deepening(n: Node)
    decreases n
  {
    forall x :: 0 <= x < |n.children| ==> n.children[x].level > n.level && Deepening(n.children[x])
  }

  lemma {:induction false} TreesAt(nodes: seq<ArenaNode>, cs: seq<nat>, lo: int, x: nat)
    requires forall y :: 0 <= y < |cs| ==> lo < cs[y] < |nodes|
    requires x < |cs|
    ensures |Trees(nodes, cs, lo)| == |cs| && Trees(nodes, cs, lo)[x] == Tree(nodes, cs[x])
    decreases x
  {
    if x > 0 {
      TreesAt(nodes, cs[1..], lo, x - 1);
    } else {
      TreesLength(nodes, cs, lo);
    }
  }

  lemma {:induction false} TreesLength(nodes: seq<ArenaNode>, cs: seq<nat>, lo: int)
    requires forall y :: 0 <= y < |cs| ==> lo < cs[y] < |nodes|
    ensures |Trees(nodes, cs, lo)| == |cs|
    decreases |cs|
  {
    if cs != [] {
      TreesLength(nodes, cs[1..], lo);
    }
  }

  lemma {:induction false} TreeDeepening(hs: seq<Heading>, j: nat)
    requires j < |hs|
    ensures Tree(Arena(hs), j).level == hs[j].level
    ensures Deepening(Tree(Arena(hs), j))
    decreases |hs| - j
  {
    var nodes := Arena(hs);
    var ls := Levels(hs);
    ArenaAt(hs);
    var cs := nodes[j].children;
    assert cs == ChildrenFrom(ls, Some(j), j + 1);
    ChildrenBounds(ls, Some(j), j + 1);
    var t := Tree(nodes, j);
    TreesLength(nodes, cs, j);
    forall x | 0 <= x < |t.children| ensures t.children[x].level > t.level && Deepening(t.children[x]) {
      TreesAt(nodes, cs, j, x);
      var c := cs[x];
      assert Parent(ls, c) == Some(j);
      TreeDeepening(hs, c);
    }
  }

  /** In the forest of any headings, every child is deeper than its parent. */
  lemma {:induction false} ForestDeepening(hs: seq<Heading>)
    ensures forall x :: 0 <= x < |Forest(hs)| ==> Deepening(Forest(hs)[x])
  {
    var rs := Roots(hs);
    ArenaAt(hs);
    ChildrenBounds(Levels(hs), None, 0);
    TreesLength(Arena(hs), rs, -1);
    forall x | 0 <= x < |Forest(hs)| ensures Deepening(Forest(hs)[x]) {
      TreesAt(Arena(hs), rs, -1, x);
      TreeDeepening(hs, rs[x]);
    }
  }

  // ------------------------------------------------------------------
  // The path stack.

  /** The chain from a root down to `i`, each heading the parent of the next. */
  function Path(ls: seq<nat>, i: nat): (path: seq<nat>)
    requires i < |ls|
    ensures |path| >= 1 && path[|path| - 1] == i
    ensures forall x :: 0 <= x < |path| ==> path[x] <= i
    decreases i
  {
    match Parent(ls, i)
    case None => [i]
    case Some(p) => Path(ls, p) + [i]
  }

  /** The path stack after the headings with levels `ls`: the chain down to the newest one. */
  function StackOf(ls: seq<nat>): seq<nat> {
    if ls == [] then [] else Path(ls, |ls| - 1)
  }

  /** Along a path the levels strictly increase, it starts at a root, and each entry is its successor's parent. */
  lemma {:induction false} PathShape(ls: seq<nat>, i: nat)
    requires i < |ls|
    ensures Parent(ls, Path(ls, i)[0]) == None
    ensures forall x :: 0 < x < |Path(ls, i)| ==> Parent(ls, Path(ls, i)[x]) == Some(Path(ls, i)[x - 1])
    ensures forall x :: 0 < x < |Path(ls, i)| ==> ls[Path(ls, i)[x - 1]] < ls[Path(ls, i)[x]]
    decreases i
  {
    var path := Path(ls, i);
    match Parent(ls, i)
    case None =>
    case Some(p) =>
      PathShape(ls, p);
      var q := Path(ls, p);
      assert path == q + [i];
      forall x | 0 < x < |path| ensures Parent(ls, path[x]) == Some(path[x - 1]) {
        if x < |q| {
          assert path[x] == q[x] && path[x - 1] == q[x - 1];
        }
      }
  }

  /** Every heading after a path entry, up to the path's end, is deeper than that entry. */
  lemma {:induction false} PathOpen(ls: seq<nat>, i: nat, x: nat, m: nat)
    requires i < |ls| && x < |Path(ls, i)|
    requires Path(ls, i)[x] < m <= i
    ensures ls[m] > ls[Path(ls, i)[x]]
    decreases i
  {
    var path := Path(ls, i);
    match Parent(ls, i)
    case None =>
    case Some(p) =>
      var q := Path(ls, p);
      assert path == q + [i];
      if x < |q| {
        assert path[x] == q[x];
        PathShape(ls, p);
        if m <= p {
          PathOpen(ls, p, x, m);
        } else {
          if q[x] < p {
            PathOpen(ls, p, x, p);
          }
          assert ls[m] >= ls[i] > ls[p];
        }
      }
  }

  /**
   * Each entry of the path stack is the last child of the entry below it, and the
   * bottom entry is the last root: the stack runs down the right edge of the forest.
   */
  lemma {:induction false} StackOnRightEdge(ls: seq<nat>)
    requires ls != []
    ensures StackOf(ls) != [] && LastIs(ChildrenFrom(ls, None, 0), StackOf(ls)[0])
    ensures forall x :: 0 < x < |StackOf(ls)| ==>
      LastIs(ChildrenFrom(ls, Some(StackOf(ls)[x - 1]), StackOf(ls)[x - 1] + 1), StackOf(ls)[x])
  {
    StackBottomEdge(ls);
    forall x | 0 < x < |StackOf(ls)|
      ensures LastIs(ChildrenFrom(ls, Some(StackOf(ls)[x - 1]), StackOf(ls)[x - 1] + 1), StackOf(ls)[x])
    {
      StackEntryEdge(ls, x);
    }
  }

  lemma {:induction false} StackBottomEdge(ls: seq<nat>)
    requires ls != []
    ensures StackOf(ls) != [] && LastIs(ChildrenFrom(ls, None, 0), StackOf(ls)[0])
  {
    PathShape(ls, |ls| - 1);
    LastChild(ls, |ls| - 1, 0, None);
  }

  lemma {:induction false} StackEntryEdge(ls: seq<nat>, x: nat)
    requires ls != [] && 0 < x < |StackOf(ls)|
    ensures LastIs(ChildrenFrom(ls, Some(StackOf(ls)[x - 1]), StackOf(ls)[x - 1] + 1), StackOf(ls)[x])
  {
    var i := |ls| - 1;
    PathParentAt(ls, i, x);
    LastChild(ls, i, x, Some(Path(ls, i)[x - 1]));
  }

  /** Each entry of a path after the first is a child of the entry before it. */
  lemma {:induction false} PathParentAt(ls: seq<nat>, i: nat, x: nat)
    requires i < |ls| && 0 < x < |Path(ls, i)|
    ensures Parent(ls, Path(ls, i)[x]) == Some(Path(ls, i)[x - 1])
    ensures Path(ls, i)[x - 1] < Path(ls, i)[x]
  {
    PathShape(ls, i);
  }

  predicate LastIs(cs: seq<nat>, k: nat) {
    cs != [] && cs[|cs| - 1] == k
  }

  lemma {:induction false} LastChild(ls: seq<nat>, i: nat, x: nat, p: Option<nat>)
    requires i < |ls| && x < |Path(ls, i)| && Parent(ls, Path(ls, i)[x]) == p
    requires p.Some? ==> p.value < Path(ls, i)[x]
    requires i == |ls| - 1
    ensures LastIs(ChildrenFrom(ls, p, LoOf(p) + 1), Path(ls, i)[x])
  {
    var k := Path(ls, i)[x];
    NoLaterSibling(ls, i, x, p);
    ChildrenSkip(ls, p, k + 1, |ls|);
    ChildrenTail(ls, p, LoOf(p) + 1, k);
  }

  /** No heading after an entry of the newest path shares that entry's parent. */
  lemma {:induction false} NoLaterSibling(ls: seq<nat>, i: nat, x: nat, p: Option<nat>)
    requires i == |ls| - 1 && x < |Path(ls, i)| && Parent(ls, Path(ls, i)[x]) == p
    ensures forall m :: Path(ls, i)[x] < m < |ls| ==> Parent(ls, m) != p
  {
    forall m | Path(ls, i)[x] < m < |ls| ensures Parent(ls, m) != p {
      AfterPathEntry(ls, i, x, p, m);
    }
  }

  /** A heading after an entry of the newest path has its parent at or after that entry. */
  lemma {:induction false} AfterPathEntry(ls: seq<nat>, i: nat, x: nat, p: Option<nat>, m: nat)
    requires i == |ls| - 1 && x < |Path(ls, i)| && Parent(ls, Path(ls, i)[x]) == p
    requires Path(ls, i)[x] < m < |ls|
    ensures Parent(ls, m) != p
  {
    var k := Path(ls, i)[x];
    PathOpen(ls, i, x, m);
    assert LastBelow(ls, m, ls[m]).Some? && LastBelow(ls, m, ls[m]).value >= k;
  }

  /** The children of `p` from `a` on end with `k` when `k` is the last of them. */
  lemma {:induction false} ChildrenTail(ls: seq<nat>, p: Option<nat>, a: nat, k: nat)
    requires a <= k < |ls| && Parent(ls, k) == p
    requires ChildrenFrom(ls, p, k + 1) == []
    ensures LastIs(ChildrenFrom(ls, p, a), k)
    decreases k - a
  {
    var head := if Parent(ls, a) == p then [a] else [];
    assert ChildrenFrom(ls, p, a) == head + ChildrenFrom(ls, p, a + 1);
    if a < k {
      ChildrenTail(ls, p, a + 1, k);
      var tail := ChildrenFrom(ls, p, a + 1);
      assert (head + tail)[|head + tail| - 1] == tail[|tail| - 1];
    } else {
      assert head + [] == [k];
    }
  }

  // ------------------------------------------------------------------
  // Adding one heading at the end.

  lemma {:induction false} LevelsAppend(hs: seq<Heading>, h: Heading)
    ensures Levels(hs + [h]) == Levels(hs) + [h.level]
  {
  }

  lemma {:induction false} LastBelowAppend(ls: seq<nat>, l: nat, k: nat, level: nat)
    requires k <= |ls|
    ensures LastBelow(ls + [l], k, level) == LastBelow(ls, k, level)
    decreases k
  {
    if k > 0 {
      LastBelowAppend(ls, l, k - 1, level);
    }
  }

  lemma {:induction false} ChildrenAppend(ls: seq<nat>, l: nat, p: Option<nat>, k: nat)
    requires k <= |ls|
    ensures ChildrenFrom(ls + [l], p, k)
         == ChildrenFrom(ls, p, k) + (if Parent(ls + [l], |ls|) == p then [|ls|] else [])
    decreases |ls| - k
  {
    if k < |ls| {
      ChildrenAppend(ls, l, p, k + 1);
      ChildrenAppendStep(ls, l, p, k);
    } else {
      assert ChildrenFrom(ls + [l], p, k + 1) == [];
    }
  }

  /** One step of `ChildrenAppend`: index `k` is a child in both sequences or in neither. */
  lemma {:induction false} ChildrenAppendStep(ls: seq<nat>, l: nat, p: Option<nat>, k: nat)
    requires k < |ls|
    requires ChildrenFrom(ls + [l], p, k + 1)
          == ChildrenFrom(ls, p, k + 1) + (if Parent(ls + [l], |ls|) == p then [|ls|] else [])
    ensures ChildrenFrom(ls + [l], p, k)
         == ChildrenFrom(ls, p, k) + (if Parent(ls + [l], |ls|) == p then [|ls|] else [])
  {
    LastBelowAppend(ls, l, k, ls[k]);
    assert (ls + [l])[k] == ls[k];
    var head := if Parent(ls, k) == p then [k] else [];
    var last := if Parent(ls + [l], |ls|) == p then [|ls|] else [];
    assert head + (ChildrenFrom(ls, p, k + 1) + last) == (head + ChildrenFrom(ls, p, k + 1)) + last;
  }

  lemma {:induction false} PathAppend(ls: seq<nat>, l: nat, i: nat)
    requires i < |ls|
    ensures Path(ls + [l], i) == Path(ls, i)
    decreases i
  {
    LastBelowAppend(ls, l, i, ls[i]);
    match Parent(ls, i)
    case None =>
    case Some(p) => PathAppend(ls, l, p);
  }

  /**
   * A new heading becomes the last child of its parent, or the last root when it has
   * none; it starts with no children; and every other node is left as it was.
   */
  lemma {:induction false} ArenaAppend(hs: seq<Heading>, h: Heading)
    requires h.contents.None?
    ensures var n := |hs|; var p := Parent(Levels(hs + [h]), n);
      && |Arena(hs + [h])| == n + 1
      && Arena(hs + [h])[n] == ArenaNode(h.level, h.title, None, [])
      && (forall i :: 0 <= i < n ==>
            Arena(hs + [h])[i] == Arena(hs)[i].(children := Arena(hs)[i].children + (if p == Some(i) then [n] else [])))
  {
    var n := |hs|;
    var ls := Levels(hs);
    LevelsAppend(hs, h);
    ArenaAt(hs + [h]);
    ArenaAt(hs);
    var p := Parent(ls + [h.level], n);
    forall i | 0 <= i < n ensures Arena(hs + [h])[i]
        == Arena(hs)[i].(children := Arena(hs)[i].children + (if p == Some(i) then [n] else [])) {
      ArenaAppendAt(hs, h, i);
    }
  }

  /** A heading with a parent `p` adds one node and extends `p`'s children. */
  lemma {:induction false} ArenaAppendChild(hs: seq<Heading>, h: Heading, p: nat)
    requires h.contents.None? && p < |hs| && Parent(Levels(hs + [h]), |hs|) == Some(p)
    ensures Arena(hs + [h])
         == Arena(hs)[p := Arena(hs)[p].(children := Arena(hs)[p].children + [|hs|])] + [ArenaNode(h.level, h.title, None, [])]
  {
    ArenaAppend(hs, h);
    var a := Arena(hs)[p := Arena(hs)[p].(children := Arena(hs)[p].children + [|hs|])] + [ArenaNode(h.level, h.title, None, [])];
    forall i | 0 <= i < |a| ensures Arena(hs + [h])[i] == a[i] {
    }
  }

  /** A heading without a parent adds one node and changes no other. */
  lemma {:induction false} ArenaAppendRoot(hs: seq<Heading>, h: Heading)
    requires h.contents.None? && Parent(Levels(hs + [h]), |hs|) == None
    ensures Arena(hs + [h]) == Arena(hs) + [ArenaNode(h.level, h.title, None, [])]
  {
    ArenaAppend(hs, h);
    var a := Arena(hs) + [ArenaNode(h.level, h.title, None, [])];
    forall i | 0 <= i < |a| ensures Arena(hs + [h])[i] == a[i] {
    }
  }

  lemma {:induction false} ArenaAppendAt(hs: seq<Heading>, h: Heading, i: nat)
    requires i < |hs|
    ensures var n := |hs|; var p := Parent(Levels(hs + [h]), n);
      Arena(hs + [h])[i] == Arena(hs)[i].(children := Arena(hs)[i].children + (if p == Some(i) then [n] else []))
  {
    LevelsAppend(hs, h);
    ArenaAt(hs + [h]);
    ArenaAt(hs);
    ChildrenAppend(Levels(hs), h.level, Some(i), i + 1);
  }

  /** The roots gain the new heading when it has no parent. */
  lemma {:induction false} RootsAppend(hs: seq<Heading>, h: Heading)
    ensures Roots(hs + [h]) == Roots(hs) + (if Parent(Levels(hs + [h]), |hs|) == None then [|hs|] else [])
  {
    LevelsAppend(hs, h);
    ChildrenAppend(Levels(hs), h.level, None, 0);
  }

  /** The path stack becomes the chain down to the new heading. */
  lemma {:induction false} StackAppend(ls: seq<nat>, l: nat)
    ensures var p := Parent(ls + [l], |ls|);
      StackOf(ls + [l]) == (if p.None? then [] else Path(ls, p.value)) + [|ls|]
  {
    var p := Parent(ls + [l], |ls|);
    if p.Some? {
      PathAppend(ls, l, p.value);
    }
  }

  /** The top of the path stack is the newest heading. */
  lemma {:induction false} StackTop(ls: seq<nat>)
    requires ls != []
    ensures StackOf(ls) != [] && StackOf(ls)[|StackOf(ls)| - 1] == |ls| - 1
  {
  }

  /** `stack` is empty or the path down to its top entry. */
  predicate OnPath(ls: seq<nat>, stack: seq<nat>) {
    stack != [] ==> stack[|stack| - 1] < |ls| && stack == Path(ls, stack[|stack| - 1])
  }

  /** Where the search for a parent resumes below a path stack: after its top entry. */
  function Bound(stack: seq<nat>): nat {
    if stack == [] then 0 else stack[|stack| - 1] + 1
  }

  /**
   * Popping the path stack while its top is not below `level` leaves on top exactly
   * the parent a heading of that level gets.
   */
  lemma {:induction false} PopStep(ls: seq<nat>, stack: seq<nat>, level: nat)
    requires stack != [] && OnPath(ls, stack)
    requires ls[stack[|stack| - 1]] >= level
    ensures OnPath(ls, stack[..|stack| - 1])
    ensures LastBelow(ls, Bound(stack[..|stack| - 1]), level) == LastBelow(ls, Bound(stack), level)
  {
    var top := stack[|stack| - 1];
    var lo := if Parent(ls, top).None? then 0 else Parent(ls, top).value + 1;
    LastBelowSkip(ls, lo, top, level);
    match Parent(ls, top)
    case None =>
    case Some(q) =>
      assert stack == Path(ls, q) + [top];
      assert stack[..|stack| - 1] == Path(ls, q);
  }

  /** The entry nearest the top of `stack` whose level is below `level`, if any. */
  function TopBelow(ls: seq<nat>, stack: seq<nat>, level: nat): (r: Option<nat>)
    requires forall x :: 0 <= x < |stack| ==> stack[x] < |ls|
    ensures r.Some? ==> r.value in stack && ls[r.value] < level
    decreases |stack|
  {
    if stack == [] then None
    else if ls[stack[|stack| - 1]] < level then Some(stack[|stack| - 1])
    else TopBelow(ls, stack[..|stack| - 1], level)
  }

  /** Searching below a path stack for a smaller level finds the entry nearest its top. */
  lemma {:induction false} SearchStack(ls: seq<nat>, stack: seq<nat>, level: nat)
    requires OnPath(ls, stack)
    ensures forall x :: 0 <= x < |stack| ==> stack[x] < |ls|
    ensures LastBelow(ls, Bound(stack), level) == TopBelow(ls, stack, level)
    decreases |stack|
  {
    StackBounded(ls, stack);
    if stack != [] {
      var top := stack[|stack| - 1];
      if ls[top] >= level {
        PopStep(ls, stack, level);
        SearchStack(ls, stack[..|stack| - 1], level);
        assert TopBelow(ls, stack, level) == TopBelow(ls, stack[..|stack| - 1], level);
      } else {
        assert LastBelow(ls, top + 1, level) == Some(top);
      }
    }
  }

  /** Every entry of a path stack indexes a heading. */
  lemma {:induction false} StackBounded(ls: seq<nat>, stack: seq<nat>)
    requires OnPath(ls, stack)
    ensures forall x :: 0 <= x < |stack| ==> stack[x] < |ls|
  {
    if stack != [] {
      var top := stack[|stack| - 1];
      assert forall x :: 0 <= x < |stack| ==> stack[x] <= top;
    }
  }

  /**
   * A new heading of level `level` hangs under the entry nearest the top of the path
   * stack whose level is smaller; with none it is a root.
   */
  lemma {:induction false} ParentOnStack(ls: seq<nat>, level: nat)
    ensures forall x :: 0 <= x < |StackOf(ls)| ==> StackOf(ls)[x] < |ls|
    ensures Parent(ls + [level], |ls|) == TopBelow(ls, StackOf(ls), level)
  {
    var stack := StackOf(ls);
    if ls != [] {
      StackTop(ls);
      assert stack == Path(ls, |ls| - 1);
      assert OnPath(ls, stack);
      assert Bound(stack) == |ls|;
    } else {
      assert stack == [];
    }
    SearchStack(ls, stack, level);
    LastBelowAppend(ls, level, |ls|, level);
    assert (ls + [level])[|ls|] == level;
    assert Parent(ls + [level], |ls|) == LastBelow(ls + [level], |ls|, level);
  }
}
