/**
 * Left and right rotation as relations between the arena before and after,
 * and the proof that a rotation keeps the arena a well-formed search tree with
 * the same in-order sequence.
 */
module RbRotation {
  import opened RbArena

  /**
   * What `leftRotate(x)` does to the links when `x.right` is a node:
   * `y = x.right` takes the place of `x` under `x.parent` (or becomes the root),
   * `x` becomes `y.left`, and the old `y.left` becomes `x.right`.
   * No other node changes.
   */
  predicate LeftRotated(ns: seq<Node>, root: nat, x: nat, ns': seq<Node>, root': nat)
    requires Closed(ns, root) && x < |ns|
  {
    var y := ns[x].right;
    var b := ns[y].left;
    var p := ns[x].parent;
    && |ns'| == |ns|
    && ns'[x] == ns[x].(right := b, parent := y)
    && ns'[y] == ns[y].(left := x, parent := p)
    && (b != Nil ==> ns'[b] == ns[b].(parent := x))
    && (p != Nil ==> ns'[p] == if ns[p].left == x then ns[p].(left := y) else ns[p].(right := y))
    && root' == (if p == Nil then y else root)
    && forall i :: 0 <= i < |ns| && i != x && i != y && (i == Nil || (i != b && i != p)) ==> ns'[i] == ns[i]
  }

  /** The mirror image: `y = x.left` takes the place of `x`, `x` becomes `y.right`. */
  predicate RightRotated(ns: seq<Node>, root: nat, x: nat, ns': seq<Node>, root': nat)
    requires Closed(ns, root) && x < |ns|
  {
    var y := ns[x].left;
    var b := ns[y].right;
    var p := ns[x].parent;
    && |ns'| == |ns|
    && ns'[x] == ns[x].(left := b, parent := y)
    && ns'[y] == ns[y].(right := x, parent := p)
    && (b != Nil ==> ns'[b] == ns[b].(parent := x))
    && (p != Nil ==> ns'[p] == if ns[p].left == x then ns[p].(left := y) else ns[p].(right := y))
    && root' == (if p == Nil then y else root)
    && forall i :: 0 <= i < |ns| && i != x && i != y && (i == Nil || (i != b && i != p)) ==> ns'[i] == ns[i]
  }

  /** Values and colours agree node by node. */
  predicate SamePaint(ns: seq<Node>, ns': seq<Node>) {
    |ns'| == |ns| && forall i :: 0 <= i < |ns| ==> ns'[i].value == ns[i].value && ns'[i].color == ns[i].color
  }

  /**
   * The shape after a left rotation: `y` now covers what `x` covered, `x` covers
   * its old left part up to `y`'s position; when `y.left` was nil, the gap it
   * owned now belongs to `x.right`.
   */
  function LeftShape(ns: seq<Node>, root: nat, sh: Shape, x: nat): (sh': Shape)
    requires Wf(ns, root, sh) && x < |ns| && ns[x].right != Nil
  {
    var y := ns[x].right;
    assert Inside(ns, ns[x]) && Placed(ns, sh, y);
    Shape(sh.pos, sh.lo[y := sh.lo[x]], sh.hi[x := sh.pos[y]], sh.order,
          if ns[y].left == Nil then sh.gap[sh.pos[y] := ChildSlot(x, Right)] else sh.gap)
  }

  /** The mirror image of `LeftShape`. */
  function RightShape(ns: seq<Node>, root: nat, sh: Shape, x: nat): (sh': Shape)
    requires Wf(ns, root, sh) && x < |ns| && ns[x].left != Nil
  {
    var y := ns[x].left;
    assert Inside(ns, ns[x]) && Placed(ns, sh, y) && Placed(ns, sh, x);
    Shape(sh.pos, sh.lo[x := sh.pos[y] + 1], sh.hi[y := sh.hi[x]], sh.order,
          if ns[y].right == Nil then sh.gap[sh.pos[y] + 1 := ChildSlot(x, Left)] else sh.gap)
  }

  /** The nodes a left rotation touches are pairwise different where it matters. */
  lemma LeftRotationDistinct(ns: seq<Node>, root: nat, sh: Shape, x: nat)
    requires Wf(ns, root, sh) && x < |ns| && ns[x].right != Nil
    ensures var y, b, p := ns[x].right, ns[ns[x].right].left, ns[x].parent;
      && 1 <= x < |ns| && 1 <= y < |ns| && b < |ns| && p < |ns|
      && x != y && b != x && b != y && p != x && p != y && (b != Nil ==> b != p)
      && (p == Nil <==> x == root)
      && (p != Nil ==> ns[p].left == x || ns[p].right == x)
      && ns[y].parent == x && (b != Nil ==> ns[b].parent == y)
      && sh.lo[y] == sh.pos[x] + 1 && sh.hi[y] == sh.hi[x]
      && (b == Nil ==> sh.pos[y] == sh.pos[x] + 1)
  {
    var y, b, p := ns[x].right, ns[ns[x].right].left, ns[x].parent;
    assert Inside(ns, ns[x]) && Inside(ns, ns[y]);
    ChildInterval(ns, root, sh, x, y);
    assert Placed(ns, sh, x);
    if b != Nil {
      ChildInterval(ns, root, sh, y, b);
    } else {
      assert Placed(ns, sh, y);
    }
    if x != root {
      ParentInterval(ns, root, sh, x);
      ChildInterval(ns, root, sh, p, x);
      PositionsDistinguish(ns, root, sh, p, y);
      if b != Nil {
        PositionsDistinguish(ns, root, sh, p, b);
      }
    }
  }

  /** The nodes a right rotation touches are pairwise different where it matters. */
  lemma RightRotationDistinct(ns: seq<Node>, root: nat, sh: Shape, x: nat)
    requires Wf(ns, root, sh) && x < |ns| && ns[x].left != Nil
    ensures var y, b, p := ns[x].left, ns[ns[x].left].right, ns[x].parent;
      && 1 <= x < |ns| && 1 <= y < |ns| && b < |ns| && p < |ns|
      && x != y && b != x && b != y && p != x && p != y && (b != Nil ==> b != p)
      && (p == Nil <==> x == root)
      && (p != Nil ==> ns[p].left == x || ns[p].right == x)
      && ns[y].parent == x && (b != Nil ==> ns[b].parent == y)
      && sh.lo[y] == sh.lo[x] && sh.hi[y] == sh.pos[x]
      && (b == Nil ==> sh.pos[y] + 1 == sh.pos[x])
  {
    var y, b, p := ns[x].left, ns[ns[x].left].right, ns[x].parent;
    assert Inside(ns, ns[x]) && Inside(ns, ns[y]);
    ChildInterval(ns, root, sh, x, y);
    assert Placed(ns, sh, x);
    if b != Nil {
      ChildInterval(ns, root, sh, y, b);
    } else {
      assert Placed(ns, sh, y);
    }
    if x != root {
      ParentInterval(ns, root, sh, x);
      ChildInterval(ns, root, sh, p, x);
      PositionsDistinguish(ns, root, sh, p, y);
      if b != Nil {
        PositionsDistinguish(ns, root, sh, p, b);
      }
    }
  }

  /** A rotation changes links only: values and colours stay where they were. */
  lemma LeftRotatedPaint(ns: seq<Node>, root: nat, x: nat, ns': seq<Node>, root': nat)
    requires Closed(ns, root) && x < |ns| && LeftRotated(ns, root, x, ns', root')
    ensures SamePaint(ns, ns')
  {
    assert Inside(ns, ns[x]) && Inside(ns, ns[ns[x].right]);
  }

  lemma RightRotatedPaint(ns: seq<Node>, root: nat, x: nat, ns': seq<Node>, root': nat)
    requires Closed(ns, root) && x < |ns| && RightRotated(ns, root, x, ns', root')
    ensures SamePaint(ns, ns')
  {
    assert Inside(ns, ns[x]) && Inside(ns, ns[ns[x].left]);
  }

  /** Same values at the same indices give the same in-order contents. */
  lemma PaintKeepsValues(ns: seq<Node>, ns': seq<Node>, ids: seq<nat>)
    requires SamePaint(ns, ns') && AllInside(ns, ids)
    ensures AllInside(ns', ids) && ValuesAt(ns', ids) == ValuesAt(ns, ids)
  {
  }


  // ---------------------------------------------------------------------------
  // Left rotation keeps the arena well formed, node by node

  /** The assumptions shared by the node-by-node lemmas about a left rotation. */
  predicate LeftStep(ns: seq<Node>, root: nat, sh: Shape, x: nat, ns': seq<Node>, root': nat) {
    && Wf(ns, root, sh) && x < |ns| && ns[x].right != Nil
    && LeftRotated(ns, root, x, ns', root')
  }

  lemma LeftStepClosed(ns: seq<Node>, root: nat, sh: Shape, x: nat, ns': seq<Node>, root': nat)
    requires LeftStep(ns, root, sh, x, ns', root')
    ensures Closed(ns', root')
  {
    LeftRotationDistinct(ns, root, sh, x);
    forall i | 0 <= i < |ns'| ensures Inside(ns', ns'[i]) {
      assert Inside(ns, ns[i]);
    }
  }

  lemma LeftStepChildLinked(ns: seq<Node>, root: nat, sh: Shape, x: nat, ns': seq<Node>, root': nat, i: nat)
    requires LeftStep(ns, root, sh, x, ns', root') && Closed(ns', root') && 1 <= i < |ns'|
    ensures ChildLinked(ns', i)
  {
    var y, b, p := ns[x].right, ns[ns[x].right].left, ns[x].parent;
    LeftRotationDistinct(ns, root, sh, x);
    assert Inside(ns, ns[i]);
    assert ChildLinked(ns, i) && ChildLinked(ns, x) && ChildLinked(ns, y);
    if i == x {
      var a := ns[x].left;
      if a != Nil { ChildInterval(ns, root, sh, x, a); }
    } else if i == y {
      LeftStepChildLinkedPivot(ns, root, sh, x, ns', root');
    } else if i == p {
      ChildInterval(ns, root, sh, p, x);
    } else if i == b {
      LeftStepChildLinkedInner(ns, root, sh, x, ns', root');
    }
  }

  lemma LeftStepChildLinkedPivot(ns: seq<Node>, root: nat, sh: Shape, x: nat, ns': seq<Node>, root': nat)
    requires LeftStep(ns, root, sh, x, ns', root') && Closed(ns', root')
    ensures ChildLinked(ns', ns[x].right)
  {
    var y, b, p := ns[x].right, ns[ns[x].right].left, ns[x].parent;
    LeftRotationDistinct(ns, root, sh, x);
    assert Inside(ns, ns[x]) && ChildLinked(ns, x) && ChildLinked(ns, y);
    var c := ns[y].right;
    if c != Nil {
      ChildInterval(ns, root, sh, y, c);
      PositionsDistinguish(ns, root, sh, x, c);
      if b != Nil {
        ChildInterval(ns, root, sh, y, b);
        PositionsDistinguish(ns, root, sh, b, c);
      }
      if p != Nil {
        ChildInterval(ns, root, sh, p, x);
        PositionsDistinguish(ns, root, sh, p, c);
      }
      assert ns'[c] == ns[c];
    }
  }

  lemma LeftStepChildLinkedInner(ns: seq<Node>, root: nat, sh: Shape, x: nat, ns': seq<Node>, root': nat)
    requires LeftStep(ns, root, sh, x, ns', root') && Closed(ns', root')
    requires ns[ns[x].right].left != Nil
    ensures ChildLinked(ns', ns[ns[x].right].left)
  {
    var y, b, p := ns[x].right, ns[ns[x].right].left, ns[x].parent;
    LeftRotationDistinct(ns, root, sh, x);
    assert Inside(ns, ns[x]) && ChildLinked(ns, x) && ChildLinked(ns, y);
    ChildInterval(ns, root, sh, y, b);
    if p != Nil {
      ChildInterval(ns, root, sh, p, x);
    }
    var l, r := ns[b].left, ns[b].right;
    if l != Nil {
      ChildInterval(ns, root, sh, b, l);
      if p != Nil { PositionsDistinguish(ns, root, sh, p, l); }
    }
    if r != Nil {
      ChildInterval(ns, root, sh, b, r);
      if p != Nil { PositionsDistinguish(ns, root, sh, p, r); }
    }
  }

  lemma LeftStepParentLinked(ns: seq<Node>, root: nat, sh: Shape, x: nat, ns': seq<Node>, root': nat, i: nat)
    requires LeftStep(ns, root, sh, x, ns', root') && Closed(ns', root') && 1 <= i < |ns'| && i != root'
    ensures ParentLinked(ns', i)
  {
    var y, b, p := ns[x].right, ns[ns[x].right].left, ns[x].parent;
    LeftRotationDistinct(ns, root, sh, x);
    assert Inside(ns, ns[i]);
    if i != x && i != y && i != b {
      assert ParentLinked(ns, i);
    }
  }

  lemma LeftShapeSized(ns: seq<Node>, root: nat, sh: Shape, x: nat, ns': seq<Node>, root': nat)
    requires LeftStep(ns, root, sh, x, ns', root')
    ensures ShapeSized(ns', LeftShape(ns, root, sh, x))
  {
    assert |ns'| == |ns|;
    var y := ns[x].right;
    assert Inside(ns, ns[x]) && Placed(ns, sh, y);
  }

  /** The pivot `x` after the rotation: left part unchanged, right part is `y`'s old left part. */
  lemma LeftStepPlacedPivot(ns: seq<Node>, root: nat, sh: Shape, x: nat, ns': seq<Node>, root': nat)
    requires LeftStep(ns, root, sh, x, ns', root') && Closed(ns', root') && ShapeSized(ns', LeftShape(ns, root, sh, x))
    ensures Placed(ns', LeftShape(ns, root, sh, x), x)
  {
    var y, b := ns[x].right, ns[ns[x].right].left;
    LeftRotationDistinct(ns, root, sh, x);
    assert Placed(ns, sh, x) && Placed(ns, sh, y);
    var a := ns[x].left;
    if a != Nil {
      ChildInterval(ns, root, sh, x, a);
    }
    if b != Nil {
      ChildInterval(ns, root, sh, y, b);
    }
  }

  /** The promoted child `y` after the rotation covers what `x` covered. */
  lemma LeftStepPlacedPromoted(ns: seq<Node>, root: nat, sh: Shape, x: nat, ns': seq<Node>, root': nat)
    requires LeftStep(ns, root, sh, x, ns', root') && Closed(ns', root') && ShapeSized(ns', LeftShape(ns, root, sh, x))
    ensures Placed(ns', LeftShape(ns, root, sh, x), ns[x].right)
  {
    var y, b := ns[x].right, ns[ns[x].right].left;
    LeftRotationDistinct(ns, root, sh, x);
    assert Placed(ns, sh, x) && Placed(ns, sh, y);
    var c := ns[y].right;
    if c != Nil {
      ChildInterval(ns, root, sh, y, c);
    }
  }

  /** The old parent of `x` now has `y` where it had `x`, with the same interval. */
  lemma LeftStepPlacedAbove(ns: seq<Node>, root: nat, sh: Shape, x: nat, ns': seq<Node>, root': nat)
    requires LeftStep(ns, root, sh, x, ns', root') && Closed(ns', root') && ShapeSized(ns', LeftShape(ns, root, sh, x))
    requires ns[x].parent != Nil
    ensures Placed(ns', LeftShape(ns, root, sh, x), ns[x].parent)
  {
    var y, b, p := ns[x].right, ns[ns[x].right].left, ns[x].parent;
    LeftRotationDistinct(ns, root, sh, x);
    assert Placed(ns, sh, x) && Placed(ns, sh, y) && Placed(ns, sh, p);
    ChildInterval(ns, root, sh, p, x);
    if b == Nil {
      assert sh.gap[sh.pos[y]] == ChildSlot(y, Left);
    }
  }

  /** Every other node keeps its links and its interval. */
  lemma LeftStepPlacedOther(ns: seq<Node>, root: nat, sh: Shape, x: nat, ns': seq<Node>, root': nat, i: nat)
    requires LeftStep(ns, root, sh, x, ns', root') && Closed(ns', root') && ShapeSized(ns', LeftShape(ns, root, sh, x))
    requires 1 <= i < |ns| && i != x && i != ns[x].right && i != ns[x].parent
    ensures Placed(ns', LeftShape(ns, root, sh, x), i)
  {
    var y, b, p := ns[x].right, ns[ns[x].right].left, ns[x].parent;
    LeftRotationDistinct(ns, root, sh, x);
    assert Inside(ns, ns[i]);
    assert Placed(ns, sh, i) && Placed(ns, sh, y);
    assert ChildLinked(ns, i);
    if b == Nil {
      assert sh.gap[sh.pos[y]] == ChildSlot(y, Left);
    }
  }

  lemma LeftStepPlaced(ns: seq<Node>, root: nat, sh: Shape, x: nat, ns': seq<Node>, root': nat, i: nat)
    requires LeftStep(ns, root, sh, x, ns', root') && Closed(ns', root') && 1 <= i < |ns'|
    ensures ShapeSized(ns', LeftShape(ns, root, sh, x))
    ensures Placed(ns', LeftShape(ns, root, sh, x), i)
  {
    LeftShapeSized(ns, root, sh, x, ns', root');
    if i == x {
      LeftStepPlacedPivot(ns, root, sh, x, ns', root');
    } else if i == ns[x].right {
      LeftStepPlacedPromoted(ns, root, sh, x, ns', root');
    } else if i == ns[x].parent {
      LeftStepPlacedAbove(ns, root, sh, x, ns', root');
    } else {
      LeftStepPlacedOther(ns, root, sh, x, ns', root', i);
    }
  }

  /**
   * A left rotation at a node with a right child keeps the arena a well-formed
   * search tree, with the shape `LeftShape`, and leaves the in-order sequence
   * of nodes and of values unchanged.
   */
  lemma LeftRotationWf(ns: seq<Node>, root: nat, sh: Shape, x: nat, ns': seq<Node>, root': nat)
    requires Wf(ns, root, sh) && x < |ns| && ns[x].right != Nil
    requires LeftRotated(ns, root, x, ns', root')
    ensures Wf(ns', root', LeftShape(ns, root, sh, x))
    ensures LeftShape(ns, root, sh, x).order == sh.order
    ensures Contents(ns', root', LeftShape(ns, root, sh, x)) == Contents(ns, root, sh)
  {
    var sh' := LeftShape(ns, root, sh, x);
    LeftRotationDistinct(ns, root, sh, x);
    LeftStepClosed(ns, root, sh, x, ns', root');
    forall i | 1 <= i < |ns'| ensures ChildLinked(ns', i) {
      LeftStepChildLinked(ns, root, sh, x, ns', root', i);
    }
    forall i | 1 <= i < |ns'| && i != root' ensures ParentLinked(ns', i) {
      LeftStepParentLinked(ns, root, sh, x, ns', root', i);
    }
    LeftShapeSized(ns, root, sh, x, ns', root');
    forall i | 1 <= i < |ns'| ensures Placed(ns', sh', i) {
      LeftStepPlaced(ns, root, sh, x, ns', root', i);
    }
    assert ShapeSized(ns', sh');
    forall k | 0 <= k < |sh'.order| ensures Ranked(ns', sh', k) {
      assert Ranked(ns, sh, k);
    }
    assert Placed(ns, sh, x);
    LeftRotatedPaint(ns, root, x, ns', root');
    PaintKeepsValues(ns, ns', sh.order);
  }
  // ---------------------------------------------------------------------------
  // Right rotation keeps the arena well formed, node by node

  /** The assumptions shared by the node-by-node lemmas about a right rotation. */
  predicate RightStep(ns: seq<Node>, root: nat, sh: Shape, x: nat, ns': seq<Node>, root': nat) {
    && Wf(ns, root, sh) && x < |ns| && ns[x].left != Nil
    && RightRotated(ns, root, x, ns', root')
  }

  lemma RightStepClosed(ns: seq<Node>, root: nat, sh: Shape, x: nat, ns': seq<Node>, root': nat)
    requires RightStep(ns, root, sh, x, ns', root')
    ensures Closed(ns', root')
  {
    RightRotationDistinct(ns, root, sh, x);
    forall i | 0 <= i < |ns'| ensures Inside(ns', ns'[i]) {
      assert Inside(ns, ns[i]);
    }
  }

  lemma RightStepChildLinked(ns: seq<Node>, root: nat, sh: Shape, x: nat, ns': seq<Node>, root': nat, i: nat)
    requires RightStep(ns, root, sh, x, ns', root') && Closed(ns', root') && 1 <= i < |ns'|
    ensures ChildLinked(ns', i)
  {
    var y, b, p := ns[x].left, ns[ns[x].left].right, ns[x].parent;
    RightRotationDistinct(ns, root, sh, x);
    assert Inside(ns, ns[i]);
    assert ChildLinked(ns, i) && ChildLinked(ns, x) && ChildLinked(ns, y);
    if i == x {
      var a := ns[x].right;
      if a != Nil { ChildInterval(ns, root, sh, x, a); }
    } else if i == y {
      RightStepChildLinkedPivot(ns, root, sh, x, ns', root');
    } else if i == p {
      ChildInterval(ns, root, sh, p, x);
    } else if i == b {
      RightStepChildLinkedInner(ns, root, sh, x, ns', root');
    }
  }

  lemma RightStepChildLinkedPivot(ns: seq<Node>, root: nat, sh: Shape, x: nat, ns': seq<Node>, root': nat)
    requires RightStep(ns, root, sh, x, ns', root') && Closed(ns', root')
    ensures ChildLinked(ns', ns[x].left)
  {
    var y, b, p := ns[x].left, ns[ns[x].left].right, ns[x].parent;
    RightRotationDistinct(ns, root, sh, x);
    assert Inside(ns, ns[x]) && ChildLinked(ns, x) && ChildLinked(ns, y);
    var c := ns[y].left;
    if c != Nil {
      ChildInterval(ns, root, sh, y, c);
      PositionsDistinguish(ns, root, sh, x, c);
      if b != Nil {
        ChildInterval(ns, root, sh, y, b);
        PositionsDistinguish(ns, root, sh, b, c);
      }
      if p != Nil {
        ChildInterval(ns, root, sh, p, x);
        PositionsDistinguish(ns, root, sh, p, c);
      }
      assert ns'[c] == ns[c];
    }
  }

  lemma RightStepChildLinkedInner(ns: seq<Node>, root: nat, sh: Shape, x: nat, ns': seq<Node>, root': nat)
    requires RightStep(ns, root, sh, x, ns', root') && Closed(ns', root')
    requires ns[ns[x].left].right != Nil
    ensures ChildLinked(ns', ns[ns[x].left].right)
  {
    var y, b, p := ns[x].left, ns[ns[x].left].right, ns[x].parent;
    RightRotationDistinct(ns, root, sh, x);
    assert Inside(ns, ns[x]) && ChildLinked(ns, x) && ChildLinked(ns, y);
    ChildInterval(ns, root, sh, y, b);
    if p != Nil {
      ChildInterval(ns, root, sh, p, x);
    }
    var l, r := ns[b].right, ns[b].left;
    if l != Nil {
      ChildInterval(ns, root, sh, b, l);
      if p != Nil { PositionsDistinguish(ns, root, sh, p, l); }
    }
    if r != Nil {
      ChildInterval(ns, root, sh, b, r);
      if p != Nil { PositionsDistinguish(ns, root, sh, p, r); }
    }
  }

  lemma RightStepParentLinked(ns: seq<Node>, root: nat, sh: Shape, x: nat, ns': seq<Node>, root': nat, i: nat)
    requires RightStep(ns, root, sh, x, ns', root') && Closed(ns', root') && 1 <= i < |ns'| && i != root'
    ensures ParentLinked(ns', i)
  {
    var y, b, p := ns[x].left, ns[ns[x].left].right, ns[x].parent;
    RightRotationDistinct(ns, root, sh, x);
    assert Inside(ns, ns[i]);
    if i != x && i != y && i != b {
      assert ParentLinked(ns, i);
    }
  }

  lemma RightShapeSized(ns: seq<Node>, root: nat, sh: Shape, x: nat, ns': seq<Node>, root': nat)
    requires RightStep(ns, root, sh, x, ns', root')
    ensures ShapeSized(ns', RightShape(ns, root, sh, x))
  {
    assert |ns'| == |ns|;
    var y := ns[x].left;
    assert Inside(ns, ns[x]) && Placed(ns, sh, y);
  }

  /** The pivot `x` after the rotation: right part unchanged, left part is `y`'s old right part. */
  lemma RightStepPlacedPivot(ns: seq<Node>, root: nat, sh: Shape, x: nat, ns': seq<Node>, root': nat)
    requires RightStep(ns, root, sh, x, ns', root') && Closed(ns', root') && ShapeSized(ns', RightShape(ns, root, sh, x))
    ensures Placed(ns', RightShape(ns, root, sh, x), x)
  {
    var y, b := ns[x].left, ns[ns[x].left].right;
    RightRotationDistinct(ns, root, sh, x);
    assert Placed(ns, sh, x) && Placed(ns, sh, y);
    var a := ns[x].right;
    if a != Nil {
      ChildInterval(ns, root, sh, x, a);
    }
    if b != Nil {
      ChildInterval(ns, root, sh, y, b);
    }
  }

  /** The promoted child `y` after the rotation covers what `x` covered. */
  lemma RightStepPlacedPromoted(ns: seq<Node>, root: nat, sh: Shape, x: nat, ns': seq<Node>, root': nat)
    requires RightStep(ns, root, sh, x, ns', root') && Closed(ns', root') && ShapeSized(ns', RightShape(ns, root, sh, x))
    ensures Placed(ns', RightShape(ns, root, sh, x), ns[x].left)
  {
    var y, b := ns[x].left, ns[ns[x].left].right;
    RightRotationDistinct(ns, root, sh, x);
    assert Placed(ns, sh, x) && Placed(ns, sh, y);
    var c := ns[y].left;
    if c != Nil {
      ChildInterval(ns, root, sh, y, c);
    }
  }

  /** The old parent of `x` now has `y` where it had `x`, with the same interval. */
  lemma RightStepPlacedAbove(ns: seq<Node>, root: nat, sh: Shape, x: nat, ns': seq<Node>, root': nat)
    requires RightStep(ns, root, sh, x, ns', root') && Closed(ns', root') && ShapeSized(ns', RightShape(ns, root, sh, x))
    requires ns[x].parent != Nil
    ensures Placed(ns', RightShape(ns, root, sh, x), ns[x].parent)
  {
    var y, b, p := ns[x].left, ns[ns[x].left].right, ns[x].parent;
    RightRotationDistinct(ns, root, sh, x);
    assert Placed(ns, sh, x) && Placed(ns, sh, y) && Placed(ns, sh, p);
    ChildInterval(ns, root, sh, p, x);
    if b == Nil {
      assert sh.gap[sh.pos[y] + 1] == ChildSlot(y, Right);
    }
  }

  /** Every other node keeps its links and its interval. */
  lemma RightStepPlacedOther(ns: seq<Node>, root: nat, sh: Shape, x: nat, ns': seq<Node>, root': nat, i: nat)
    requires RightStep(ns, root, sh, x, ns', root') && Closed(ns', root') && ShapeSized(ns', RightShape(ns, root, sh, x))
    requires 1 <= i < |ns| && i != x && i != ns[x].left && i != ns[x].parent
    ensures Placed(ns', RightShape(ns, root, sh, x), i)
  {
    var y, b, p := ns[x].left, ns[ns[x].left].right, ns[x].parent;
    RightRotationDistinct(ns, root, sh, x);
    assert Inside(ns, ns[i]);
    assert Placed(ns, sh, i) && Placed(ns, sh, y);
    assert ChildLinked(ns, i);
    if b == Nil {
      assert sh.gap[sh.pos[y] + 1] == ChildSlot(y, Right);
    }
  }

  lemma RightStepPlaced(ns: seq<Node>, root: nat, sh: Shape, x: nat, ns': seq<Node>, root': nat, i: nat)
    requires RightStep(ns, root, sh, x, ns', root') && Closed(ns', root') && 1 <= i < |ns'|
    ensures ShapeSized(ns', RightShape(ns, root, sh, x))
    ensures Placed(ns', RightShape(ns, root, sh, x), i)
  {
    RightShapeSized(ns, root, sh, x, ns', root');
    if i == x {
      RightStepPlacedPivot(ns, root, sh, x, ns', root');
    } else if i == ns[x].left {
      RightStepPlacedPromoted(ns, root, sh, x, ns', root');
    } else if i == ns[x].parent {
      RightStepPlacedAbove(ns, root, sh, x, ns', root');
    } else {
      RightStepPlacedOther(ns, root, sh, x, ns', root', i);
    }
  }

  /**
   * A right rotation at a node with a left child keeps the arena a well-formed
   * search tree, with the shape `RightShape`, and leaves the in-order sequence
   * of nodes and of values unchanged.
   */
  lemma RightRotationWf(ns: seq<Node>, root: nat, sh: Shape, x: nat, ns': seq<Node>, root': nat)
    requires Wf(ns, root, sh) && x < |ns| && ns[x].left != Nil
    requires RightRotated(ns, root, x, ns', root')
    ensures Wf(ns', root', RightShape(ns, root, sh, x))
    ensures RightShape(ns, root, sh, x).order == sh.order
    ensures Contents(ns', root', RightShape(ns, root, sh, x)) == Contents(ns, root, sh)
  {
    var sh' := RightShape(ns, root, sh, x);
    RightRotationDistinct(ns, root, sh, x);
    RightStepClosed(ns, root, sh, x, ns', root');
    forall i | 1 <= i < |ns'| ensures ChildLinked(ns', i) {
      RightStepChildLinked(ns, root, sh, x, ns', root', i);
    }
    forall i | 1 <= i < |ns'| && i != root' ensures ParentLinked(ns', i) {
      RightStepParentLinked(ns, root, sh, x, ns', root', i);
    }
    RightShapeSized(ns, root, sh, x, ns', root');
    forall i | 1 <= i < |ns'| ensures Placed(ns', sh', i) {
      RightStepPlaced(ns, root, sh, x, ns', root', i);
    }
    assert ShapeSized(ns', sh');
    forall k | 0 <= k < |sh'.order| ensures Ranked(ns', sh', k) {
      assert Ranked(ns, sh, k);
    }
    assert Placed(ns, sh, x);
    RightRotatedPaint(ns, root, x, ns', root');
    PaintKeepsValues(ns, ns', sh.order);
  }

  // ---------------------------------------------------------------------------
  // The link writes of the two rotations

  /**
   * The nodes a rotation at `x` with pivot child `y` and inner grandchild `b`
   * touches are distinct where the surgery needs it (always so in a tree).
   */
  predicate Untangled(ns: seq<Node>, x: nat, y: nat, b: nat)
    requires x < |ns|
  {
    var p := ns[x].parent;
    x != Nil && y != Nil && x != y && b != x && b != y && p != x && p != y && (b != Nil ==> b != p)
  }

  /** `x`'s child on side `s` becomes `b`, and `b.parent := x` when `b` is a node. */
  method HandOver(ns0: seq<Node>, root: nat, x: nat, b: nat, s: Side) returns (ns: seq<Node>)
    requires Closed(ns0, root) && 1 <= x < |ns0| && b < |ns0|
    ensures Closed(ns, root) && |ns| == |ns0|
    ensures b != x ==> ns[x] == (if s == Left then ns0[x].(left := b) else ns0[x].(right := b))
    ensures b != x && b != Nil ==> ns[b] == ns0[b].(parent := x)
    ensures b != x ==> forall i :: 0 <= i < |ns| && i != x && (i == Nil || i != b) ==> ns[i] == ns0[i]
  {
    assert Inside(ns0, ns0[x]);
    var n := if s == Left then ns0[x].(left := b) else ns0[x].(right := b);
    ReplaceClosed(ns0, root, x, n);
    ns := ns0[x := n];
    if b != Nil {
      ReplaceClosed(ns, root, b, ns[b].(parent := x));
      ns := ns[b := ns[b].(parent := x)];
    }
  }

  /** `y` takes `x`'s place under `x`'s parent, or as the root when `x` has none. */
  method Replace(ns0: seq<Node>, root0: nat, x: nat, y: nat) returns (ns: seq<Node>, r: nat)
    requires Closed(ns0, root0) && 1 <= x < |ns0| && 1 <= y < |ns0|
    ensures Closed(ns, r) && |ns| == |ns0|
    ensures var p := ns0[x].parent; x != y && p != y ==>
      && ns[y] == ns0[y].(parent := p)
      && (p != Nil ==> ns[p] == if ns0[p].left == x then ns0[p].(left := y) else ns0[p].(right := y))
      && r == (if p == Nil then y else root0)
      && forall i :: 0 <= i < |ns| && i != y && (i == Nil || i != p) ==> ns[i] == ns0[i]
  {
    ns, r := ns0, root0;
    assert Inside(ns, ns[x]);
    ReplaceClosed(ns, r, y, ns[y].(parent := ns[x].parent));
    ns := ns[y := ns[y].(parent := ns[x].parent)];
    var p := ns[x].parent;
    if p == Nil {
      r := y;
    } else if x == ns[p].left {
      ReplaceClosed(ns, r, p, ns[p].(left := y));
      ns := ns[p := ns[p].(left := y)];
    } else {
      ReplaceClosed(ns, r, p, ns[p].(right := y));
      ns := ns[p := ns[p].(right := y)];
    }
  }

  /** The link writes of `leftRotate(x)`, in the order the tree performs them. */
  method LeftRotationLinks(ns0: seq<Node>, root0: nat, x: nat) returns (ns: seq<Node>, r: nat)
    requires Closed(ns0, root0) && x < |ns0| && ns0[x].right != Nil
    ensures Closed(ns, r) && |ns| == |ns0|
    ensures Untangled(ns0, x, ns0[x].right, ns0[ns0[x].right].left) ==> LeftRotated(ns0, root0, x, ns, r)
  {
    assert Inside(ns0, ns0[x]);
    var y := ns0[x].right;
    assert Inside(ns0, ns0[y]);
    var ns1 := HandOver(ns0, root0, x, ns0[y].left, Right);
    var ns2;
    ns2, r := Replace(ns1, root0, x, y);
    ns := HandOver(ns2, r, y, x, Left);
  }

  /** The link writes of `rightRotate(x)`, in the order the tree performs them. */
  method RightRotationLinks(ns0: seq<Node>, root0: nat, x: nat) returns (ns: seq<Node>, r: nat)
    requires Closed(ns0, root0) && x < |ns0| && ns0[x].left != Nil
    ensures Closed(ns, r) && |ns| == |ns0|
    ensures Untangled(ns0, x, ns0[x].left, ns0[ns0[x].left].right) ==> RightRotated(ns0, root0, x, ns, r)
  {
    assert Inside(ns0, ns0[x]);
    var y := ns0[x].left;
    assert Inside(ns0, ns0[y]);
    var ns1 := HandOver(ns0, root0, x, ns0[y].right, Left);
    var ns2;
    ns2, r := Replace(ns1, root0, x, y);
    ns := HandOver(ns2, r, y, x, Right);
  }
}
