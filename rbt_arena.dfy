/**
 * The node arena of the red-black tree and the invariants it keeps.
 *
 * Every node lives at an index of a sequence; index 0 is the shared nil
 * sentinel, and the links `left`, `right` and `parent` are indices. Nodes are
 * only ever added by insertion and never removed, so every index 1..N-1 is a
 * node of the tree.
 *
 * The tree shape is described by a ghost `Shape` that is checked node by node:
 * each node knows its in-order position `pos` and the half-open interval
 * `[lo, hi)` of in-order positions its subtree covers, `order` lists the nodes
 * in in-order, and `gap` names, for each of the n+1 places between consecutive
 * in-order positions, the nil link that sits there.
 */
module RbArena {

  datatype Color = Red | Black

  /** One node: its value, colour and three links (indices into the arena). */
  datatype Node = Node(value: int, color: Color, left: nat, right: nat, parent: nat)

  /** The index of the shared sentinel. */
  const Nil: nat := 0

  /** The sentinel as the tree's constructor leaves it; its value stands for JS `null`. */
  const NilNode: Node := Node(0, Black, Nil, Nil, Nil)

  datatype Side = Left | Right

  /** Who owns an empty place (a nil link) of the tree. */
  datatype Slot = RootSlot | ChildSlot(owner: nat, side: Side)

  datatype Shape = Shape(pos: seq<nat>, lo: seq<nat>, hi: seq<nat>, order: seq<nat>, gap: seq<Slot>)

  // ---------------------------------------------------------------------------
  // Links in range, sentinel intact

  predicate Inside(ns: seq<Node>, n: Node) {
    n.left < |ns| && n.right < |ns| && n.parent < |ns|
  }

  /** Every link is an index of the arena and the sentinel is Black with self links. */
  predicate Closed(ns: seq<Node>, root: nat) {
    && |ns| >= 1
    && ns[Nil].color == Black
    && ns[Nil].left == Nil && ns[Nil].right == Nil && ns[Nil].parent == Nil
    && root < |ns|
    && forall i :: 0 <= i < |ns| ==> Inside(ns, ns[i])
  }

  predicate IsRed(ns: seq<Node>, i: nat)
    requires i < |ns|
  {
    ns[i].color == Red
  }

  predicate IsBlack(ns: seq<Node>, i: nat)
    requires i < |ns|
  {
    ns[i].color == Black
  }

  /** Overwriting one node with in-range links keeps the arena closed. */
  lemma ReplaceClosed(ns: seq<Node>, root: nat, i: nat, n: Node)
    requires Closed(ns, root) && 1 <= i < |ns| && Inside(ns, n)
    ensures Closed(ns[i := n], root)
  {
  }

  // ---------------------------------------------------------------------------
  // Parent back-links

  /** The children of `i` point back to `i`. */
  predicate ChildLinked(ns: seq<Node>, i: nat)
    requires Closed(ns, 0) && i < |ns|
  {
    && (ns[i].left != Nil ==> ns[ns[i].left].parent == i)
    && (ns[i].right != Nil ==> ns[ns[i].right].parent == i)
  }

  /** The parent of `i` is a node that has `i` as a child. */
  predicate ParentLinked(ns: seq<Node>, i: nat)
    requires Closed(ns, 0) && i < |ns|
  {
    var p := ns[i].parent;
    p != Nil && (ns[p].left == i || ns[p].right == i)
  }

  predicate Linked(ns: seq<Node>, root: nat)
    requires Closed(ns, root)
  {
    && ns[root].parent == Nil
    && (root == Nil <==> |ns| == 1)
    && (forall i :: 1 <= i < |ns| ==> ChildLinked(ns, i))
    && (forall i :: 1 <= i < |ns| && i != root ==> ParentLinked(ns, i))
  }

  // ---------------------------------------------------------------------------
  // In-order shape

  predicate ShapeSized(ns: seq<Node>, sh: Shape) {
    && |sh.pos| == |ns| && |sh.lo| == |ns| && |sh.hi| == |ns|
    && |sh.order| + 1 == |ns| && |sh.gap| == |ns|
  }

  /** The left subtree of `i` covers `[lo, pos)`; a nil left link owns the gap at `pos`. */
  predicate LeftPlaced(ns: seq<Node>, sh: Shape, i: nat)
    requires Closed(ns, 0) && ShapeSized(ns, sh) && i < |ns|
    requires sh.pos[i] < |ns|
  {
    var c := ns[i].left;
    if c == Nil then sh.lo[i] == sh.pos[i] && sh.gap[sh.pos[i]] == ChildSlot(i, Left)
    else sh.lo[c] == sh.lo[i] && sh.hi[c] == sh.pos[i]
  }

  /** The right subtree of `i` covers `[pos + 1, hi)`; a nil right link owns the gap at `hi`. */
  predicate RightPlaced(ns: seq<Node>, sh: Shape, i: nat)
    requires Closed(ns, 0) && ShapeSized(ns, sh) && i < |ns|
    requires sh.hi[i] < |ns|
  {
    var c := ns[i].right;
    if c == Nil then sh.hi[i] == sh.pos[i] + 1 && sh.gap[sh.hi[i]] == ChildSlot(i, Right)
    else sh.lo[c] == sh.pos[i] + 1 && sh.hi[c] == sh.hi[i]
  }

  predicate Placed(ns: seq<Node>, sh: Shape, i: nat)
    requires Closed(ns, 0) && ShapeSized(ns, sh) && i < |ns|
  {
    && sh.lo[i] <= sh.pos[i] < sh.hi[i] < |ns|
    && sh.order[sh.pos[i]] == i
    && LeftPlaced(ns, sh, i)
    && RightPlaced(ns, sh, i)
  }

  predicate Ranked(ns: seq<Node>, sh: Shape, p: nat)
    requires ShapeSized(ns, sh) && p < |sh.order|
  {
    1 <= sh.order[p] < |ns| && sh.pos[sh.order[p]] == p
  }

  predicate Shaped(ns: seq<Node>, root: nat, sh: Shape)
    requires Closed(ns, root)
  {
    && ShapeSized(ns, sh)
    && (forall i :: 1 <= i < |ns| ==> Placed(ns, sh, i))
    && (forall p :: 0 <= p < |sh.order| ==> Ranked(ns, sh, p))
    && (root == Nil ==> sh.gap[0] == RootSlot)
    && (root != Nil ==> sh.lo[root] == 0 && sh.hi[root] == |sh.order|)
  }

  // ---------------------------------------------------------------------------
  // Ordering of values

  predicate AllInside(ns: seq<Node>, ids: seq<nat>) {
    forall k :: 0 <= k < |ids| ==> ids[k] < |ns|
  }

  /** The values of the nodes `ids`, in that order. */
  function ValuesAt(ns: seq<Node>, ids: seq<nat>): (vs: seq<int>)
    requires AllInside(ns, ids)
    ensures |vs| == |ids|
    ensures forall k :: 0 <= k < |ids| ==> vs[k] == ns[ids[k]].value
  {
    seq(|ids|, k requires 0 <= k < |ids| => ns[ids[k]].value)
  }

  predicate Sorted(s: seq<int>) {
    forall p, q :: 0 <= p < q < |s| ==> s[p] <= s[q]
  }

  lemma OrderInside(ns: seq<Node>, root: nat, sh: Shape)
    requires Closed(ns, root) && Shaped(ns, root, sh)
    ensures AllInside(ns, sh.order)
  {
    forall k | 0 <= k < |sh.order| ensures sh.order[k] < |ns| {
      assert Ranked(ns, sh, k);
    }
  }

  /** The arena is a well-formed binary search tree (without colour conditions). */
  predicate Wf(ns: seq<Node>, root: nat, sh: Shape) {
    && Closed(ns, root)
    && Linked(ns, root)
    && Shaped(ns, root, sh)
    && AllInside(ns, sh.order)
    && Sorted(ValuesAt(ns, sh.order))
  }

  /** The number of nodes in the subtree at `i`: the length of its interval. */
  function Size(ns: seq<Node>, root: nat, sh: Shape, i: nat): (n: nat)
    requires Wf(ns, root, sh) && i < |ns|
    ensures n < |ns|
    ensures i != Nil ==> n == sh.hi[i] - sh.lo[i] && n >= 1
  {
    if i == Nil then 0
    else
      assert Placed(ns, sh, i);
      sh.hi[i] - sh.lo[i]
  }

  /** The stored values in in-order. */
  function Contents(ns: seq<Node>, root: nat, sh: Shape): (vs: seq<int>)
    requires Wf(ns, root, sh)
  {
    ValuesAt(ns, sh.order)
  }

  // ---------------------------------------------------------------------------
  // Colour conditions

  /** 1 for a Black node (the sentinel included), 0 for a Red one. */
  function Weight(ns: seq<Node>, i: nat): (w: nat)
    requires i < |ns|
  {
    if ns[i].color == Black then 1 else 0
  }

  /** Both children of `i` lead to the same number of Black nodes, `bh[i]`. */
  predicate BlackBalanced(ns: seq<Node>, bh: seq<nat>, i: nat)
    requires Closed(ns, 0) && |bh| == |ns| && i < |ns|
  {
    && bh[i] == bh[ns[i].left] + Weight(ns, ns[i].left)
    && bh[i] == bh[ns[i].right] + Weight(ns, ns[i].right)
  }

  predicate Balanced(ns: seq<Node>, bh: seq<nat>)
    requires Closed(ns, 0)
  {
    && |bh| == |ns| && bh[Nil] == 0
    && forall i :: 1 <= i < |ns| ==> BlackBalanced(ns, bh, i)
  }

  /** A Red node `i` has no Red child other than `z` (with `z == Nil`: no Red child). */
  predicate NoRedRedExcept(ns: seq<Node>, i: nat, z: nat)
    requires Closed(ns, 0) && i < |ns|
  {
    IsRed(ns, i) ==>
      && (ns[i].left == z || IsBlack(ns, ns[i].left))
      && (ns[i].right == z || IsBlack(ns, ns[i].right))
  }

  /** The red-black colour invariants, black heights witnessed by `bh`. */
  predicate RedBlack(ns: seq<Node>, root: nat, bh: seq<nat>)
    requires Closed(ns, root)
  {
    && Balanced(ns, bh)
    && (forall i :: 1 <= i < |ns| ==> NoRedRedExcept(ns, i, Nil))
    && IsBlack(ns, root)
  }

  /**
   * The state inside the fixup loop: everything holds except that `z` is Red
   * and may have a Red parent, or may be a Red root.
   */
  predicate FixupInv(ns: seq<Node>, root: nat, sh: Shape, bh: seq<nat>, z: nat) {
    && Wf(ns, root, sh)
    && Balanced(ns, bh)
    && 1 <= z < |ns|
    && IsRed(ns, z)
    && (forall i :: 1 <= i < |ns| ==> NoRedRedExcept(ns, i, z))
    && (IsRed(ns, root) ==> root == z)
  }

  // ---------------------------------------------------------------------------
  // Basic facts about the shape

  /** A non-nil child covers a strictly smaller interval inside its parent's. */
  lemma ChildInterval(ns: seq<Node>, root: nat, sh: Shape, i: nat, c: nat)
    requires Wf(ns, root, sh) && 1 <= i < |ns|
    requires c != Nil && (c == ns[i].left || c == ns[i].right)
    ensures 1 <= c < |ns|
    ensures sh.lo[i] <= sh.lo[c] <= sh.pos[c] < sh.hi[c] <= sh.hi[i]
    ensures sh.hi[c] - sh.lo[c] < sh.hi[i] - sh.lo[i]
    ensures c == ns[i].left ==> sh.hi[c] == sh.pos[i]
    ensures c == ns[i].right ==> sh.lo[c] == sh.pos[i] + 1
    ensures c != i && ns[c].parent == i
  {
    assert Inside(ns, ns[i]);
    assert Placed(ns, sh, i) && Placed(ns, sh, c);
    assert ChildLinked(ns, i);
  }

  /** Two nodes with different in-order positions are different nodes. */
  lemma PositionsDistinguish(ns: seq<Node>, root: nat, sh: Shape, a: nat, b: nat)
    requires Wf(ns, root, sh) && 1 <= a < |ns| && 1 <= b < |ns|
    ensures a == b <==> sh.pos[a] == sh.pos[b]
  {
    assert Placed(ns, sh, a) && Placed(ns, sh, b);
  }

  /** The parent of a non-root node covers a strictly larger interval. */
  lemma ParentInterval(ns: seq<Node>, root: nat, sh: Shape, c: nat)
    requires Wf(ns, root, sh) && 1 <= c < |ns| && c != root
    ensures 1 <= ns[c].parent < |ns|
    ensures c == ns[ns[c].parent].left || c == ns[ns[c].parent].right
    ensures sh.lo[ns[c].parent] <= sh.lo[c] < sh.hi[c] <= sh.hi[ns[c].parent]
    ensures sh.hi[c] - sh.lo[c] < sh.hi[ns[c].parent] - sh.lo[ns[c].parent]
  {
    assert Inside(ns, ns[c]);
    assert ParentLinked(ns, c);
    ChildInterval(ns, root, sh, ns[c].parent, c);
  }

  /** The root is a node of a non-empty tree and its parent is the sentinel. */
  lemma RootFacts(ns: seq<Node>, root: nat, sh: Shape)
    requires Wf(ns, root, sh)
    ensures root == Nil <==> |sh.order| == 0
    ensures root != Nil ==> sh.lo[root] == 0 && sh.hi[root] == |sh.order|
  {
  }
}
