/**
 * The red-black tree object: a node arena with the shared nil sentinel at
 * index 0, the root index, and a log of the states a change listener is
 * notified of. Insertion descends, attaches a Red leaf and runs the fixup
 * loop; the rotations are pointer surgery on the arena.
 */
module RedBlackTrees {
  import opened RbArena
  import opened RbRotation
  import opened RbAttach
  import opened RbFixup
  import opened RbTraversal

  /** The tree as a change listener sees it at one notification. */
  datatype Snapshot = Snapshot(nodes: seq<Node>, root: nat)

  class RedBlackTree {
    var nodes: seq<Node>
    var root: nat
    /** One entry per `notifyChange` call, in order. */
    var notifications: seq<Snapshot>
    /** In-order positions and subtree intervals, see `RbArena`. */
    ghost var shape: Shape
    /** Black height of every node. */
    ghost var bh: seq<nat>

    /** The arena is a well-formed binary search tree. */
    ghost predicate Valid()
      reads this`nodes, this`root, this`shape
    {
      Wf(nodes, root, shape)
    }

    /** A well-formed search tree that also keeps the red-black colour rules. */
    ghost predicate IsRedBlack()
      reads this`nodes, this`root, this`shape, this`bh
    {
      Valid() && RedBlack(nodes, root, bh)
    }

    /** The stored values in in-order. */
    ghost function Elements(): (vs: seq<int>)
      reads this`nodes, this`root, this`shape
      requires Valid()
    {
      Contents(nodes, root, shape)
    }

    /** An empty tree: only the Black sentinel, whose links point to itself. */
    constructor ()
      ensures nodes == [NilNode] && root == Nil && notifications == []
      ensures IsRedBlack() && Elements() == []
    {
      nodes := [NilNode];
      root := Nil;
      notifications := [];
      shape := Shape([0], [0], [0], [], [RootSlot]);
      bh := [0];
    }

    /** Tells the change listener about the current state. */
    method NotifyChange()
      modifies this
      ensures notifications == old(notifications) + [Snapshot(nodes, root)]
      ensures nodes == old(nodes) && root == old(root)
      ensures shape == old(shape) && bh == old(bh)
    {
      notifications := notifications + [Snapshot(nodes, root)];
    }

    // -------------------------------------------------------------------------
    // Insertion

    /**
     * The descent of `insert`: from the root, left on a smaller value and
     * right otherwise, until the sentinel; returns the last node visited (the
     * sentinel for an empty tree). The ghost `k` is the in-order position the
     * new value takes: every value before it is at most `v`, every value from
     * it on is greater.
     */
    method FindParent(v: int) returns (y: nat, ghost k: nat)
      requires Valid()
      ensures y < |nodes| && (y == Nil <==> root == Nil)
      ensures y != Nil ==> if v < nodes[y].value then nodes[y].left == Nil else nodes[y].right == Nil
      ensures AttachPoint(nodes, root, shape, y, v, k)
      ensures Separates(Elements(), v, k)
    {
      y := Nil;
      var x: nat := root;
      ghost var lo: nat, hi: nat := 0, |shape.order|;
      RootFacts(nodes, root, shape);
      while x != Nil
        invariant x < |nodes| && y < |nodes|
        invariant lo <= hi <= |shape.order|
        invariant forall i :: 0 <= i < lo ==> Elements()[i] <= v
        invariant forall i :: hi <= i < |shape.order| ==> v < Elements()[i]
        invariant x != Nil ==> shape.lo[x] == lo && shape.hi[x] == hi
        invariant y == Nil ==> x == root && lo == 0 && hi == |shape.order|
        invariant y != Nil ==> x == if v < nodes[y].value then nodes[y].left else nodes[y].right
        invariant y != Nil && x == Nil ==> lo == hi && hi == (if v < nodes[y].value then shape.pos[y] else shape.pos[y] + 1)
        decreases Size(nodes, root, shape, x)
      {
        assert Inside(nodes, nodes[x]) && Placed(nodes, shape, x);
        StepDown(nodes, root, shape, x, v);
        y := x;
        if v < nodes[x].value {
          x := nodes[x].left;
          hi := shape.pos[y];
        } else {
          x := nodes[x].right;
          lo := shape.pos[y] + 1;
        }
      }
      k := lo;
    }

    /**
     * Inserts `v`: descends left on a smaller value and right otherwise,
     * attaches a Red leaf under the last node visited, notifies, rebalances and
     * notifies again. The values in in-order become `InsertSorted` of the old
     * ones, so an equal value goes after the values already stored.
     */
    method Insert(v: int)
      requires IsRedBlack()
      modifies this
      ensures IsRedBlack()
      ensures Elements() == InsertSorted(old(Elements()), v)
      ensures |nodes| == old(|nodes|) + 1 && nodes[old(|nodes|)].value == v
      ensures Separates(old(Elements()), v, shape.pos[old(|nodes|)])
      ensures |notifications| >= old(|notifications|) + 2
      ensures old(notifications) <= notifications
      ensures exists y: nat, k: nat ::
        && y < old(|nodes|) && old(AttachPoint(nodes, root, shape, y, v, k)) && Separates(old(Elements()), v, k)
        && notifications[old(|notifications|)] == Snapshot(Attach(old(nodes), y, v), if y == Nil then old(|nodes|) else old(root))
        && (IsBlack(old(nodes), y) ==> |notifications| == old(|notifications|) + 2)
      ensures old(root) == Nil ==> |notifications| == old(|notifications|) + 2
      ensures notifications[|notifications| - 1] == Snapshot(nodes, root)
    {
      var y: nat;
      ghost var k: nat;
      ghost var vs0, ns0, n0 := Elements(), nodes, |notifications|;
      y, k := FindParent(v);
      var z := AttachLeaf(v, y, k);
      ghost var vs1 := Contents(nodes, root, shape);
      assert vs1 == InsertSorted(vs0, v);
      assert nodes[z].parent == y && nodes[y].color == ns0[y].color;
      NotifyChange();
      ghost var attached := notifications[n0];
      InsertFixup(z);
      assert Elements() == vs1;
      assert notifications[n0] == attached;
      NotifyChange();
    }

    /**
     * Links a new Red leaf holding `v` under the descent's last node `y` (or
     * makes it the root): the arena is `Attach` of the old one, the leaf takes
     * in-order position `k`, its black height is 1, and the only possible
     * colour violation is at the leaf.
     */
    method AttachLeaf(v: int, y: nat, ghost k: nat) returns (z: nat)
      requires IsRedBlack() && AttachPoint(nodes, root, shape, y, v, k)
      requires Separates(Elements(), v, k)
      modifies this
      ensures z == old(|nodes|) && nodes == Attach(old(nodes), y, v)
      ensures root == (if y == Nil then z else old(root))
      ensures shape == AttachShape(old(nodes), old(shape), k) && bh == old(bh) + [1]
      ensures FixupInv(nodes, root, shape, bh, z)
      ensures nodes[z] == Node(v, Red, Nil, Nil, y) && shape.pos[z] == k
      ensures Contents(nodes, root, shape) == InsertSorted(old(Elements()), v)
      ensures notifications == old(notifications)
    {
      ghost var vs := Elements();
      AttachWf(nodes, root, shape, y, v, k);
      AttachFixupReady(nodes, root, shape, bh, y, v, k);
      SpliceIsInsertSorted(vs, v, k);
      var ns := nodes;
      z := |ns|;
      ns := ns + [Node(v, Red, Nil, Nil, y)];
      if y == Nil {
        root := z;
      } else if v < ns[y].value {
        ns := ns[y := ns[y].(left := z)];
      } else {
        ns := ns[y := ns[y].(right := z)];
      }
      assert ns == Attach(nodes, y, v);
      shape := AttachShape(nodes, shape, k);
      nodes := ns;
      bh := bh + [1];
    }

    /**
     * Restores the colour rules after a Red node `z` was attached: while the
     * parent of `z` is Red, either recolours a Red uncle and moves up two
     * levels, or rotates once or twice and stops; finally paints the root
     * Black. Links change only by rotations, so the in-order sequence of nodes
     * and their values stay as they were.
     */
    method InsertFixup(z0: nat)
      requires FixupInv(nodes, root, shape, bh, z0)
      modifies this
      ensures IsRedBlack()
      ensures |nodes| == old(|nodes|)
      ensures forall i :: 0 <= i < |nodes| ==> nodes[i].value == old(nodes[i].value)
      ensures shape.order == old(shape.order) && shape.pos == old(shape.pos)
      ensures Elements() == old(Contents(nodes, root, shape))
      ensures |notifications| >= old(|notifications|)
      ensures old(notifications) <= notifications
      ensures old(IsBlack(nodes, nodes[z0].parent)) ==> notifications == old(notifications)
      ensures old(IsRed(nodes, nodes[z0].parent)) ==> |notifications| > old(|notifications|)
    {
      var z: nat := z0;
      ghost var started := false;
      while IsRed(nodes, nodes[z].parent)
        invariant FixupInv(nodes, root, shape, bh, z)
        invariant !started ==> z == z0 && notifications == old(notifications)
        invariant !started ==> (IsRed(nodes, nodes[z].parent) <==> old(IsRed(nodes, nodes[z0].parent)))
        invariant started ==> old(IsRed(nodes, nodes[z0].parent)) && |notifications| > old(|notifications|)
        invariant |nodes| == old(|nodes|)
        invariant forall i :: 0 <= i < |nodes| ==> nodes[i].value == old(nodes[i].value)
        invariant shape.order == old(shape.order) && shape.pos == old(shape.pos)
        invariant Contents(nodes, root, shape) == old(Contents(nodes, root, shape))
        invariant |notifications| >= old(|notifications|)
        invariant old(notifications) <= notifications
        decreases (if IsRed(nodes, nodes[z].parent) then 1 else 0), |nodes| - Size(nodes, root, shape, z)
      {
        RedParentFacts(nodes, root, shape, bh, z);
        var p := nodes[z].parent;
        if p == nodes[nodes[p].parent].left {
          z := FixLeftParent(z);
        } else {
          z := FixRightParent(z);
        }
        started := true;
      }
      FixupDone(nodes, root, shape, bh, z);
      nodes := nodes[root := nodes[root].(color := Black)];
    }

    /**
     * One pass of the fixup loop when the Red parent of `z` is a left child:
     * a Red uncle is recoloured together with the parent and grandparent;
     * otherwise an inner `z` is first rotated outward and the outer case
     * finishes the pass.
     */
    method FixLeftParent(z0: nat) returns (z: nat)
      requires FixupInv(nodes, root, shape, bh, z0) && IsRed(nodes, nodes[z0].parent)
      requires var p := nodes[z0].parent; p < |nodes| && nodes[p].parent < |nodes|
      requires var p := nodes[z0].parent; p == nodes[nodes[p].parent].left
      modifies this
      ensures FixupInv(nodes, root, shape, bh, z)
      ensures IsRed(nodes, nodes[z].parent) ==> old(Size(nodes, root, shape, z0)) < Size(nodes, root, shape, z)
      ensures |nodes| == old(|nodes|)
      ensures forall i :: 0 <= i < |nodes| ==> nodes[i].value == old(nodes[i].value)
      ensures shape.order == old(shape.order) && shape.pos == old(shape.pos)
      ensures Contents(nodes, root, shape) == old(Contents(nodes, root, shape))
      ensures var p := old(nodes[z0].parent); var u := old(nodes[nodes[p].parent].right);
        |notifications| == old(|notifications|) +
          if old(IsRed(nodes, u)) then 1 else if z0 == old(nodes[p].right) then 5 else 3
      ensures var p := old(nodes[z0].parent); var g := old(nodes[p].parent); var u := old(nodes[g].right);
        z == if old(IsRed(nodes, u)) then g else if z0 == old(nodes[p].right) then p else z0
      ensures old(notifications) <= notifications
    {
      RedParentFacts(nodes, root, shape, bh, z0);
      var p := nodes[z0].parent;
      var g := nodes[p].parent;
      assert Inside(nodes, nodes[g]);
      var y := nodes[g].right;
      ghost var n0, red, inner := |notifications|, IsRed(nodes, y), z0 == nodes[p].right;
      if IsRed(nodes, y) {
        z := RecolourUncle(z0, y);
        assert z == g && |notifications| == n0 + 1;
      } else {
        z := z0;
        if z == nodes[p].right {
          z := RotateInnerLeft(z0);
        }
        FixOuterLeft(z);
        assert z == (if inner then p else z0) && |notifications| == n0 + (if inner then 5 else 3);
      }
    }

    /**
     * The inner case under a left parent: `z` is the right child of its Red
     * parent `p`, whose sibling is Black. `z` moves up to `p` and `p` is
     * rotated left, so the old `z` becomes the parent of `p` and the outer case
     * applies to `p`.
     */
    method RotateInnerLeft(z0: nat) returns (z: nat)
      requires FixupInv(nodes, root, shape, bh, z0) && IsRed(nodes, nodes[z0].parent)
      requires var p := nodes[z0].parent; p < |nodes| && nodes[p].parent < |nodes|
      requires var p := nodes[z0].parent; var g := nodes[p].parent;
        nodes[g].left == p && nodes[g].right < |nodes| && IsBlack(nodes, nodes[g].right) && nodes[p].right == z0
      modifies this
      ensures z == old(nodes[z0].parent) && z < |nodes|
      ensures LeftRotated(old(nodes), old(root), z, nodes, root)
      ensures notifications == old(notifications) + [Snapshot(old(nodes), old(root)), Snapshot(nodes, root)]
      ensures FixupInv(nodes, root, shape, bh, z) && IsRed(nodes, nodes[z].parent)
      ensures var q := nodes[z].parent; q < |nodes| && nodes[q].parent < |nodes|
      ensures var q := nodes[z].parent; var g := nodes[q].parent;
        nodes[g].left == q && nodes[g].right < |nodes| && IsBlack(nodes, nodes[g].right) && nodes[q].left == z
      ensures |nodes| == old(|nodes|)
      ensures forall i :: 0 <= i < |nodes| ==> nodes[i].value == old(nodes[i].value)
      ensures shape.order == old(shape.order) && shape.pos == old(shape.pos)
      ensures Contents(nodes, root, shape) == old(Contents(nodes, root, shape))
    {
      RedParentFacts(nodes, root, shape, bh, z0);
      ghost var ns0, root0, sh0 := nodes, root, shape;
      z := nodes[z0].parent;
      assert Linked(nodes, root);
      LeftRotate(z);
      InnerLeftStep(ns0, root0, sh0, bh, z0, nodes, root, shape);
    }

    /**
     * The outer case under a left parent: `z` is the left child of its Red
     * parent, whose sibling is Black. Parent and grandparent swap colours, the
     * listener is notified and the grandparent is rotated right, which notifies
     * twice more; the parent of `z` is then Black.
     */
    method FixOuterLeft(z: nat)
      requires FixupInv(nodes, root, shape, bh, z) && IsRed(nodes, nodes[z].parent)
      requires var q := nodes[z].parent; q < |nodes| && nodes[q].parent < |nodes|
      requires var q := nodes[z].parent; var g := nodes[q].parent;
        nodes[g].left == q && nodes[g].right < |nodes| && IsBlack(nodes, nodes[g].right) && nodes[q].left == z
      modifies this
      ensures FixupInv(nodes, root, shape, bh, z) && IsBlack(nodes, nodes[z].parent)
      ensures |nodes| == old(|nodes|)
      ensures forall i :: 0 <= i < |nodes| ==> nodes[i].value == old(nodes[i].value)
      ensures shape.order == old(shape.order) && shape.pos == old(shape.pos)
      ensures Contents(nodes, root, shape) == old(Contents(nodes, root, shape))
      ensures var q := old(nodes[z].parent); var g := old(nodes[q].parent);
        var recoloured := Snapshot(OuterRecoloured(old(nodes), q, g), old(root));
        notifications == old(notifications) + [recoloured, recoloured, Snapshot(nodes, root)]
      ensures var q := old(nodes[z].parent); var g := old(nodes[q].parent);
        Closed(OuterRecoloured(old(nodes), q, g), old(root)) && g < |nodes|
        && RightRotated(OuterRecoloured(old(nodes), q, g), old(root), g, nodes, root)
    {
      var q := nodes[z].parent;
      var g := nodes[q].parent;
      ghost var ns1, root1, sh1 := nodes, root, shape;
      RedParentFacts(nodes, root, shape, bh, z);
      nodes := nodes[q := nodes[q].(color := Black)];
      nodes := nodes[g := nodes[g].(color := Red)];
      assert nodes == OuterRecoloured(ns1, q, g);
      SameLinksWf(ns1, root1, sh1, nodes);
      NotifyChange();
      assert Linked(nodes, root);
      RightRotate(g);
      OuterLeftStep(ns1, root1, sh1, bh, z, nodes, root, shape);
    }

    /**
     * One pass of the fixup loop when the Red parent of `z` is a right child:
     * a Red uncle is recoloured together with the parent and grandparent;
     * otherwise an inner `z` is first rotated outward and the outer case
     * finishes the pass.
     */
    method FixRightParent(z0: nat) returns (z: nat)
      requires FixupInv(nodes, root, shape, bh, z0) && IsRed(nodes, nodes[z0].parent)
      requires var p := nodes[z0].parent; p < |nodes| && nodes[p].parent < |nodes|
      requires var p := nodes[z0].parent; p != nodes[nodes[p].parent].left
      modifies this
      ensures FixupInv(nodes, root, shape, bh, z)
      ensures IsRed(nodes, nodes[z].parent) ==> old(Size(nodes, root, shape, z0)) < Size(nodes, root, shape, z)
      ensures |nodes| == old(|nodes|)
      ensures forall i :: 0 <= i < |nodes| ==> nodes[i].value == old(nodes[i].value)
      ensures shape.order == old(shape.order) && shape.pos == old(shape.pos)
      ensures Contents(nodes, root, shape) == old(Contents(nodes, root, shape))
      ensures var p := old(nodes[z0].parent); var u := old(nodes[nodes[p].parent].left);
        |notifications| == old(|notifications|) +
          if old(IsRed(nodes, u)) then 1 else if z0 == old(nodes[p].left) then 5 else 3
      ensures var p := old(nodes[z0].parent); var g := old(nodes[p].parent); var u := old(nodes[g].left);
        z == if old(IsRed(nodes, u)) then g else if z0 == old(nodes[p].left) then p else z0
      ensures old(notifications) <= notifications
    {
      RedParentFacts(nodes, root, shape, bh, z0);
      var p := nodes[z0].parent;
      var g := nodes[p].parent;
      assert Inside(nodes, nodes[g]);
      var y := nodes[g].left;
      ghost var n0, red, inner := |notifications|, IsRed(nodes, y), z0 == nodes[p].left;
      if IsRed(nodes, y) {
        z := RecolourUncle(z0, y);
        assert z == g && |notifications| == n0 + 1;
      } else {
        z := z0;
        if z == nodes[p].left {
          z := RotateInnerRight(z0);
        }
        FixOuterRight(z);
        assert z == (if inner then p else z0) && |notifications| == n0 + (if inner then 5 else 3);
      }
    }

    /**
     * The inner case under a right parent: `z` is the left child of its Red
     * parent `p`, whose sibling is Black. `z` moves up to `p` and `p` is
     * rotated right, so the old `z` becomes the parent of `p` and the outer case
     * applies to `p`.
     */
    method RotateInnerRight(z0: nat) returns (z: nat)
      requires FixupInv(nodes, root, shape, bh, z0) && IsRed(nodes, nodes[z0].parent)
      requires var p := nodes[z0].parent; p < |nodes| && nodes[p].parent < |nodes|
      requires var p := nodes[z0].parent; var g := nodes[p].parent;
        nodes[g].right == p && nodes[g].left < |nodes| && IsBlack(nodes, nodes[g].left) && nodes[p].left == z0
      modifies this
      ensures z == old(nodes[z0].parent) && z < |nodes|
      ensures RightRotated(old(nodes), old(root), z, nodes, root)
      ensures notifications == old(notifications) + [Snapshot(old(nodes), old(root)), Snapshot(nodes, root)]
      ensures FixupInv(nodes, root, shape, bh, z) && IsRed(nodes, nodes[z].parent)
      ensures var q := nodes[z].parent; q < |nodes| && nodes[q].parent < |nodes|
      ensures var q := nodes[z].parent; var g := nodes[q].parent;
        nodes[g].right == q && nodes[g].left < |nodes| && IsBlack(nodes, nodes[g].left) && nodes[q].right == z
      ensures |nodes| == old(|nodes|)
      ensures forall i :: 0 <= i < |nodes| ==> nodes[i].value == old(nodes[i].value)
      ensures shape.order == old(shape.order) && shape.pos == old(shape.pos)
      ensures Contents(nodes, root, shape) == old(Contents(nodes, root, shape))
    {
      RedParentFacts(nodes, root, shape, bh, z0);
      ghost var ns0, root0, sh0 := nodes, root, shape;
      z := nodes[z0].parent;
      assert Linked(nodes, root);
      RightRotate(z);
      InnerRightStep(ns0, root0, sh0, bh, z0, nodes, root, shape);
    }

    /**
     * The outer case under a right parent: `z` is the right child of its Red
     * parent, whose sibling is Black. Parent and grandparent swap colours, the
     * listener is notified and the grandparent is rotated left, which notifies
     * twice more; the parent of `z` is then Black.
     */
    method FixOuterRight(z: nat)
      requires FixupInv(nodes, root, shape, bh, z) && IsRed(nodes, nodes[z].parent)
      requires var q := nodes[z].parent; q < |nodes| && nodes[q].parent < |nodes|
      requires var q := nodes[z].parent; var g := nodes[q].parent;
        nodes[g].right == q && nodes[g].left < |nodes| && IsBlack(nodes, nodes[g].left) && nodes[q].right == z
      modifies this
      ensures FixupInv(nodes, root, shape, bh, z) && IsBlack(nodes, nodes[z].parent)
      ensures |nodes| == old(|nodes|)
      ensures forall i :: 0 <= i < |nodes| ==> nodes[i].value == old(nodes[i].value)
      ensures shape.order == old(shape.order) && shape.pos == old(shape.pos)
      ensures Contents(nodes, root, shape) == old(Contents(nodes, root, shape))
      ensures var q := old(nodes[z].parent); var g := old(nodes[q].parent);
        var recoloured := Snapshot(OuterRecoloured(old(nodes), q, g), old(root));
        notifications == old(notifications) + [recoloured, recoloured, Snapshot(nodes, root)]
      ensures var q := old(nodes[z].parent); var g := old(nodes[q].parent);
        Closed(OuterRecoloured(old(nodes), q, g), old(root)) && g < |nodes|
        && LeftRotated(OuterRecoloured(old(nodes), q, g), old(root), g, nodes, root)
    {
      var q := nodes[z].parent;
      var g := nodes[q].parent;
      ghost var ns1, root1, sh1 := nodes, root, shape;
      RedParentFacts(nodes, root, shape, bh, z);
      nodes := nodes[q := nodes[q].(color := Black)];
      nodes := nodes[g := nodes[g].(color := Red)];
      assert nodes == OuterRecoloured(ns1, q, g);
      SameLinksWf(ns1, root1, sh1, nodes);
      NotifyChange();
      assert Linked(nodes, root);
      LeftRotate(g);
      OuterRightStep(ns1, root1, sh1, bh, z, nodes, root, shape);
    }

    /**
     * The Red-uncle case: parent and uncle `y` become Black, the grandparent
     * Red, and `z` moves up to the grandparent; the listener is notified.
     */
    method RecolourUncle(z0: nat, y: nat) returns (z: nat)
      requires FixupInv(nodes, root, shape, bh, z0) && IsRed(nodes, nodes[z0].parent)
      requires var p := nodes[z0].parent; p < |nodes| && nodes[p].parent < |nodes|
      requires var p := nodes[z0].parent; var g := nodes[p].parent;
        y == (if p == nodes[g].left then nodes[g].right else nodes[g].left)
      requires y < |nodes| && IsRed(nodes, y)
      modifies this
      ensures var p := old(nodes[z0].parent); z == old(nodes[p].parent)
      ensures nodes == UncleRecoloured(old(nodes), old(nodes[z0].parent), y, z)
      ensures FixupInv(nodes, root, shape, bh, z)
      ensures old(Size(nodes, root, shape, z0)) < Size(nodes, root, shape, z)
      ensures root == old(root) && shape == old(shape) && bh == old(bh[z := bh[z] + 1])
      ensures |nodes| == old(|nodes|)
      ensures forall i :: 0 <= i < |nodes| ==> nodes[i].value == old(nodes[i].value)
      ensures Contents(nodes, root, shape) == old(Contents(nodes, root, shape))
      ensures notifications == old(notifications) + [Snapshot(nodes, root)]
    {
      var ns := nodes;
      RedParentFacts(ns, root, shape, bh, z0);
      RedUncleStep(ns, root, shape, bh, z0, y);
      var p := ns[z0].parent;
      var g := ns[p].parent;
      ns := ns[p := ns[p].(color := Black)];
      ns := ns[y := ns[y].(color := Black)];
      ns := ns[g := ns[g].(color := Red)];
      assert ns == UncleRecoloured(nodes, p, y, g);
      RecolouredContents(nodes, root, shape, ns);
      nodes := ns;
      bh := bh[g := bh[g] + 1];
      z := g;
      NotifyChange();
    }

    // -------------------------------------------------------------------------
    // Rotations

    /**
     * Left rotation at `x`. It does nothing when `x` has no right child or the
     * root has a parent; otherwise it notifies before and after the surgery.
     * On a well-formed tree the result is `LeftRotated`, keeps the search
     * tree well formed and leaves the in-order values unchanged.
     */
    method LeftRotate(x: nat)
      requires Closed(nodes, root) && x < |nodes|
      modifies this
      ensures Closed(nodes, root) && |nodes| == old(|nodes|) && bh == old(bh)
      ensures old(nodes[x].right == Nil || nodes[root].parent != Nil) ==>
        nodes == old(nodes) && root == old(root) && notifications == old(notifications) && shape == old(shape)
      ensures old(nodes[x].right != Nil && nodes[root].parent == Nil) ==>
        notifications == old(notifications) + [Snapshot(old(nodes), old(root)), Snapshot(nodes, root)]
      ensures old(Valid() && nodes[x].right != Nil) ==>
        && LeftRotated(old(nodes), old(root), x, nodes, root)
        && shape == LeftShape(old(nodes), old(root), old(shape), x)
        && Valid() && Elements() == old(Elements())
    {
      if nodes[x].right == Nil {
        return;
      }
      if nodes[root].parent != Nil {
        return;
      }
      ghost var ns0, root0, sh0 := nodes, root, shape;
      NotifyChange();
      nodes, root := LeftRotationLinks(nodes, root, x);
      if Wf(ns0, root0, sh0) {
        LeftRotationDistinct(ns0, root0, sh0, x);
        LeftRotationWf(ns0, root0, sh0, x, nodes, root);
        shape := LeftShape(ns0, root0, sh0, x);
      }
      NotifyChange();
    }

    /** Right rotation at `x`, the mirror image of `LeftRotate`. */
    method RightRotate(x: nat)
      requires Closed(nodes, root) && x < |nodes|
      modifies this
      ensures Closed(nodes, root) && |nodes| == old(|nodes|) && bh == old(bh)
      ensures old(nodes[x].left == Nil || nodes[root].parent != Nil) ==>
        nodes == old(nodes) && root == old(root) && notifications == old(notifications) && shape == old(shape)
      ensures old(nodes[x].left != Nil && nodes[root].parent == Nil) ==>
        notifications == old(notifications) + [Snapshot(old(nodes), old(root)), Snapshot(nodes, root)]
      ensures old(Valid() && nodes[x].left != Nil) ==>
        && RightRotated(old(nodes), old(root), x, nodes, root)
        && shape == RightShape(old(nodes), old(root), old(shape), x)
        && Valid() && Elements() == old(Elements())
    {
      if nodes[x].left == Nil {
        return;
      }
      if nodes[root].parent != Nil {
        return;
      }
      ghost var ns0, root0, sh0 := nodes, root, shape;
      NotifyChange();
      nodes, root := RightRotationLinks(nodes, root, x);
      if Wf(ns0, root0, sh0) {
        RightRotationDistinct(ns0, root0, sh0, x);
        RightRotationWf(ns0, root0, sh0, x, nodes, root);
        shape := RightShape(ns0, root0, sh0, x);
      }
      NotifyChange();
    }

    // -------------------------------------------------------------------------
    // Traversals

    /**
     * The nodes of the subtree at `t` in the order an in-order walk visits
     * them: exactly the subtree's slice of the in-order sequence. From the
     * root it visits every node once, in non-decreasing order of value.
     */
    method InOrderTraversal(t: nat) returns (visited: seq<nat>)
      requires Valid() && t < |nodes|
      ensures visited == SubtreeOrder(shape, t)
      ensures t == root ==> visited == shape.order
      ensures t == root ==> forall i :: 1 <= i < |nodes| ==> multiset(visited)[i] == 1
      ensures t == root ==> |visited| == |nodes| - 1 && Sorted(ValuesAt(nodes, visited))
      decreases Size(nodes, root, shape, t)
    {
      visited := [];
      if t != Nil {
        InOrderSplit(nodes, root, shape, t);
        var left := InOrderTraversal(nodes[t].left);
        var right := InOrderTraversal(nodes[t].right);
        visited := left + [t] + right;
      }
      if t == root {
        RootFacts(nodes, root, shape);
        OrderVisitsEachOnce(nodes, root, shape);
      }
    }

    /**
     * The nodes of the subtree at `t` in breadth-first order, draining a
     * queue: every node of the subtree exactly as often as it occurs there,
     * and each node after its parent.
     */
    method LevelOrderTraversal(t: nat) returns (visited: seq<nat>)
      requires Valid() && t < |nodes|
      ensures multiset(visited) == Subtree(shape, t)
      ensures forall j :: 0 <= j < |visited| ==> 1 <= visited[j] < |nodes|
      ensures forall j :: 0 <= j < |visited| && visited[j] != t ==> nodes[visited[j]].parent in visited[..j]
      ensures t == root ==> forall i :: 1 <= i < |nodes| ==> multiset(visited)[i] == 1
    {
      var queue: seq<nat> := [];
      if t != Nil {
        queue := queue + [t];
      }
      visited := [];
      LevelStart(nodes, shape, t);
      while |queue| > 0
        invariant LevelState(nodes, shape, t, queue, visited)
        decreases |Pending(shape, queue)|
      {
        assert Waiting(nodes, t, queue, visited, 0);
        LevelStep(nodes, root, shape, t, queue, visited);
        var node := queue[0];
        ghost var rest := queue[1..];
        queue := queue[1..];
        visited := visited + [node];
        queue := Push(queue, nodes[node].left);
        queue := Push(queue, nodes[node].right);
        EnqueueKids(nodes, node, rest);
      }
      VisitedAfterParents(nodes, t, queue, visited);
      if t == root {
        WholeTreeOnce(nodes, root, shape, visited);
      }
    }
  }
}
