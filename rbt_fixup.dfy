/**
 * The cases of the insertion fixup loop, each stated as a step from one state
 * of the loop to the next: a Red uncle is recoloured away and the violation
 * moves to the grandparent; an inner grandchild is rotated outwards; an outer
 * grandchild is recoloured and rotated at the grandparent, which ends the loop.
 *
 * Each case has a predicate collecting the facts about the few nodes it
 * touches, and a node-by-node lemma for the colour conditions.
 */
module RbFixup {
  import opened RbArena
  import opened RbRotation

  /** The arena with node `i` painted `c`. */
  function Paint(ns: seq<Node>, i: nat, c: Color): (ns': seq<Node>)
    requires i < |ns|
  {
    ns[i := ns[i].(color := c)]
  }

  /** Two arenas with the same links and values everywhere. */
  predicate SameLinks(ns: seq<Node>, ns': seq<Node>) {
    && |ns'| == |ns|
    && forall i :: 0 <= i < |ns| ==>
         ns'[i].left == ns[i].left && ns'[i].right == ns[i].right &&
         ns'[i].parent == ns[i].parent && ns'[i].value == ns[i].value
  }

  /** Recolouring nodes does not change the search-tree structure. */
  lemma SameLinksWf(ns: seq<Node>, root: nat, sh: Shape, ns': seq<Node>)
    requires Wf(ns, root, sh) && SameLinks(ns, ns') && ns'[Nil].color == Black
    ensures Wf(ns', root, sh) && Contents(ns', root, sh) == Contents(ns, root, sh)
  {
    forall i | 0 <= i < |ns'| ensures Inside(ns', ns'[i]) {
      assert Inside(ns, ns[i]);
    }
    forall i | 1 <= i < |ns'| ensures ChildLinked(ns', i) && Placed(ns', sh, i) {
      assert ChildLinked(ns, i) && Placed(ns, sh, i);
    }
    forall i | 1 <= i < |ns'| && i != root ensures ParentLinked(ns', i) {
      assert ParentLinked(ns, i);
    }
    forall p | 0 <= p < |sh.order| ensures Ranked(ns', sh, p) {
      assert Ranked(ns, sh, p);
    }
    assert ValuesAt(ns', sh.order) == ValuesAt(ns, sh.order);
  }

  /** The two children of a node are different nodes (or both nil). */
  lemma ChildrenDiffer(ns: seq<Node>, root: nat, sh: Shape, i: nat)
    requires Wf(ns, root, sh) && 1 <= i < |ns|
    ensures ns[i].left != Nil ==> ns[i].left != ns[i].right
  {
    if ns[i].left != Nil {
      ChildInterval(ns, root, sh, i, ns[i].left);
      if ns[i].right != Nil {
        ChildInterval(ns, root, sh, i, ns[i].right);
      }
    }
  }

  /**
   * When the parent `p` of `z` is Red, `p` is not the root, so the grandparent
   * `g` is a node, and `g` is Black.
   */
  lemma RedParentFacts(ns: seq<Node>, root: nat, sh: Shape, bh: seq<nat>, z: nat)
    requires FixupInv(ns, root, sh, bh, z) && IsRed(ns, ns[z].parent)
    ensures var p := ns[z].parent; var g := ns[p].parent;
      && z != root && 1 <= p < |ns| && p != root && p != z
      && 1 <= g < |ns| && g != z && g != p && IsBlack(ns, g)
      && (ns[p].left == z || ns[p].right == z) && ns[z].parent == p
      && (ns[g].left == p || ns[g].right == p) && ns[p].parent == g
      && ns[g].left != ns[g].right && ns[p].left != ns[p].right
      && sh.lo[g] <= sh.lo[p] <= sh.lo[z] < sh.hi[z] <= sh.hi[p] <= sh.hi[g]
      && sh.hi[z] - sh.lo[z] < sh.hi[p] - sh.lo[p] < sh.hi[g] - sh.lo[g]
  {
    var p := ns[z].parent;
    assert Inside(ns, ns[z]);
    ParentInterval(ns, root, sh, z);
    ParentInterval(ns, root, sh, p);
    var g := ns[p].parent;
    assert NoRedRedExcept(ns, g, z);
    ChildrenDiffer(ns, root, sh, g);
    ChildrenDiffer(ns, root, sh, p);
  }

  /** The grandparent's parent is none of the three nodes below it. */
  lemma AboveGrandparent(ns: seq<Node>, root: nat, sh: Shape, bh: seq<nat>, z: nat)
    requires FixupInv(ns, root, sh, bh, z) && IsRed(ns, ns[z].parent)
    ensures var p := ns[z].parent; var g := ns[p].parent; var gp := ns[g].parent;
      && gp < |ns| && gp != z && gp != p && gp != g
      && (gp == Nil <==> g == root)
      && (gp != Nil ==> (ns[gp].left == g || ns[gp].right == g) && ns[gp].left != ns[gp].right)
      && (ns[g].left != Nil ==> gp != ns[g].left) && (ns[g].right != Nil ==> gp != ns[g].right)
  {
    RedParentFacts(ns, root, sh, bh, z);
    var p := ns[z].parent;
    var g := ns[p].parent;
    assert Inside(ns, ns[g]);
    if g != root {
      ParentInterval(ns, root, sh, g);
      ChildrenDiffer(ns, root, sh, ns[g].parent);
      if ns[g].left != Nil { ChildInterval(ns, root, sh, g, ns[g].left); }
      if ns[g].right != Nil { ChildInterval(ns, root, sh, g, ns[g].right); }
    }
  }

  // ---------------------------------------------------------------------------
  // Red uncle: recolour and move up two levels

  /** The arena after the Red-uncle recolouring: `p` and `u` Black, `g` Red, the links kept. */
  function UncleRecoloured(ns: seq<Node>, p: nat, u: nat, g: nat): (ns': seq<Node>)
    requires p < |ns| && u < |ns| && g < |ns|
    ensures Recoloured(ns, ns', p, u, g)
  {
    Paint(Paint(Paint(ns, p, Black), u, Black), g, Red)
  }

  /** `ns'` has the links of `ns`, with `p` and `u` Black and `g` Red. */
  predicate Recoloured(ns: seq<Node>, ns': seq<Node>, p: nat, u: nat, g: nat) {
    && SameLinks(ns, ns')
    && forall j :: 0 <= j < |ns| ==>
         ns'[j].color == (if j == g then Red else if j == p || j == u then Black else ns[j].color)
  }

  /** The nodes the Red-uncle case touches: `z` under `p`, `p` and `u` under `g`. */
  predicate UncleCase(ns: seq<Node>, root: nat, sh: Shape, bh: seq<nat>, z: nat, p: nat, u: nat, g: nat) {
    && FixupInv(ns, root, sh, bh, z)
    && 1 <= p < |ns| && 1 <= u < |ns| && 1 <= g < |ns|
    && ns[z].parent == p && ns[p].parent == g && ns[u].parent == g
    && (ns[g].left == p || ns[g].right == p) && (ns[g].left == u || ns[g].right == u)
    && IsRed(ns, p) && IsRed(ns, u) && IsBlack(ns, g)
    && z != p && z != u && z != g && p != u && p != g && u != g
    && ns[g].parent != p && ns[g].parent != u && ns[g].parent != z
  }

  lemma UncleNode(ns: seq<Node>, root: nat, sh: Shape, bh: seq<nat>, z: nat, p: nat, u: nat, g: nat,
                  ns': seq<Node>, i: nat)
    requires UncleCase(ns, root, sh, bh, z, p, u, g) && Recoloured(ns, ns', p, u, g)
    requires Closed(ns', root) && 1 <= i < |ns|
    ensures BlackBalanced(ns', bh[g := bh[g] + 1], i)
    ensures NoRedRedExcept(ns', i, g)
  {
    assert Inside(ns, ns[i]) && ChildLinked(ns, i);
    assert BlackBalanced(ns, bh, i) && NoRedRedExcept(ns, i, z);
    var l, r := ns[i].left, ns[i].right;
    assert ns'[i].left == l && ns'[i].right == r;
    if i == g {
      assert BlackBalanced(ns, bh, p);
    } else if i == ns[g].parent {
      assert g != root && ParentLinked(ns, g);
    } else {
      assert l != p && l != u && l != g;
      assert r != p && r != u && r != g;
    }
  }

  /** Recolouring leaves the in-order values as they were. */
  lemma RecolouredContents(ns: seq<Node>, root: nat, sh: Shape, ns': seq<Node>)
    requires Wf(ns, root, sh) && SameLinks(ns, ns') && ns'[Nil].color == Black
    ensures AllInside(ns', sh.order) && ValuesAt(ns', sh.order) == Contents(ns, root, sh)
  {
    SameLinksWf(ns, root, sh, ns');
  }

  /** The facts the Red-uncle case needs about the nodes around `z`. */
  lemma UncleCaseHolds(ns: seq<Node>, root: nat, sh: Shape, bh: seq<nat>, z: nat, u: nat)
    requires FixupInv(ns, root, sh, bh, z) && IsRed(ns, ns[z].parent)
    requires var p := ns[z].parent; var g := ns[p].parent;
      u == (if p == ns[g].left then ns[g].right else ns[g].left)
    requires u < |ns| && IsRed(ns, u)
    ensures var p := ns[z].parent; var g := ns[p].parent;
      && UncleCase(ns, root, sh, bh, z, p, u, g)
      && sh.lo[g] <= sh.lo[z] < sh.hi[z] <= sh.hi[g]
      && sh.hi[z] - sh.lo[z] < sh.hi[g] - sh.lo[g]
  {
    var p := ns[z].parent;
    RedParentFacts(ns, root, sh, bh, z);
    AboveGrandparent(ns, root, sh, bh, z);
    var g := ns[p].parent;
    ChildInterval(ns, root, sh, g, u);
  }

  /** After the recolouring the only possible violation is at the grandparent. */
  lemma UncleInv(ns: seq<Node>, root: nat, sh: Shape, bh: seq<nat>, z: nat, p: nat, u: nat, g: nat,
                 ns': seq<Node>)
    requires UncleCase(ns, root, sh, bh, z, p, u, g) && Recoloured(ns, ns', p, u, g)
    requires Wf(ns', root, sh)
    ensures FixupInv(ns', root, sh, bh[g := bh[g] + 1], g)
  {
    var bh' := bh[g := bh[g] + 1];
    forall i | 1 <= i < |ns'| ensures BlackBalanced(ns', bh', i) && NoRedRedExcept(ns', i, g) {
      UncleNode(ns, root, sh, bh, z, p, u, g, ns', i);
    }
    if root != g {
      assert ns'[root].color == ns[root].color;
    }
    assert Balanced(ns', bh');
  }

  /**
   * With a Red uncle `u`, painting parent and uncle Black and the grandparent
   * Red leaves the only possible violation at the grandparent, one black level
   * higher, and the grandparent's subtree is larger than `z`'s.
   */
  lemma RedUncleStep(ns: seq<Node>, root: nat, sh: Shape, bh: seq<nat>, z: nat, u: nat)
    requires FixupInv(ns, root, sh, bh, z) && IsRed(ns, ns[z].parent)
    requires var p := ns[z].parent; var g := ns[p].parent;
      u == (if p == ns[g].left then ns[g].right else ns[g].left)
    requires u < |ns| && IsRed(ns, u)
    ensures var p := ns[z].parent; var g := ns[p].parent;
      && FixupInv(UncleRecoloured(ns, p, u, g), root, sh, bh[g := bh[g] + 1], g)
      && SameLinks(ns, UncleRecoloured(ns, p, u, g))
      && sh.lo[g] <= sh.lo[z] < sh.hi[z] <= sh.hi[g]
      && sh.hi[z] - sh.lo[z] < sh.hi[g] - sh.lo[g]
  {
    UncleCaseHolds(ns, root, sh, bh, z, u);
    var p := ns[z].parent;
    var g := ns[p].parent;
    var ns' := UncleRecoloured(ns, p, u, g);
    SameLinksWf(ns, root, sh, ns');
    UncleInv(ns, root, sh, bh, z, p, u, g, ns');
  }

  // ---------------------------------------------------------------------------
  // Black uncle, parent is a left child

  /** `z` is the right child of `p`, which is the left child of `g`; left rotation at `p`. */
  predicate InnerLeftCase(ns: seq<Node>, root: nat, sh: Shape, bh: seq<nat>, z: nat, p: nat, g: nat,
                          ns': seq<Node>, root': nat) {
    && FixupInv(ns, root, sh, bh, z)
    && 1 <= p < |ns| && 1 <= g < |ns|
    && ns[z].parent == p && ns[p].parent == g
    && ns[g].left == p && ns[p].right == z
    && IsRed(ns, p) && IsBlack(ns, g)
    && z != p && z != g && p != g
    && ns[p].left != z && ns[z].left != z && ns[z].right != z
    && (ns[z].left != Nil ==> ns[z].left != g)
    && LeftRotated(ns, root, p, ns', root') && SamePaint(ns, ns') && Closed(ns', root')
  }

  lemma InnerLeftNode(ns: seq<Node>, root: nat, sh: Shape, bh: seq<nat>, z: nat, p: nat, g: nat,
                      ns': seq<Node>, root': nat, i: nat)
    requires InnerLeftCase(ns, root, sh, bh, z, p, g, ns', root') && 1 <= i < |ns|
    ensures BlackBalanced(ns', bh, i) && NoRedRedExcept(ns', i, p)
  {
    assert Inside(ns, ns[i]) && ChildLinked(ns, i);
    assert BlackBalanced(ns, bh, i) && NoRedRedExcept(ns, i, z);
    assert Inside(ns, ns[z]) && Inside(ns', ns'[i]);
    if i == p || i == z || i == g {
      assert BlackBalanced(ns, bh, p) && BlackBalanced(ns, bh, z);
      assert NoRedRedExcept(ns, p, z) && NoRedRedExcept(ns, z, z);
    }
  }

  /**
   * `z` is the right child of a left child `p`: rotating left at `p` makes `p`
   * the left child of `z`, and the violation is now at `p` under `z`.
   */
  lemma InnerLeftStep(ns: seq<Node>, root: nat, sh: Shape, bh: seq<nat>, z: nat,
                      ns': seq<Node>, root': nat, sh': Shape)
    requires FixupInv(ns, root, sh, bh, z) && IsRed(ns, ns[z].parent)
    requires var p := ns[z].parent; var g := ns[p].parent;
      ns[g].left == p && IsBlack(ns, ns[g].right) && ns[p].right == z
    requires LeftRotated(ns, root, ns[z].parent, ns', root') && Wf(ns', root', sh')
    ensures var p := ns[z].parent; var g := ns[p].parent;
      && FixupInv(ns', root', sh', bh, p)
      && ns'[p].parent == z && ns'[z].left == p && ns'[z].parent == g && ns'[g].left == z
      && IsRed(ns', z) && ns'[g].right == ns[g].right && IsBlack(ns', ns'[g].right)
  {
    var p := ns[z].parent;
    RedParentFacts(ns, root, sh, bh, z);
    var g := ns[p].parent;
    LeftRotationDistinct(ns, root, sh, p);
    LeftRotatedPaint(ns, root, p, ns', root');
    ChildInterval(ns, root, sh, p, z);
    assert Inside(ns, ns[z]);
    if ns[z].left != Nil { ChildInterval(ns, root, sh, z, ns[z].left); }
    if ns[z].right != Nil { ChildInterval(ns, root, sh, z, ns[z].right); }
    assert InnerLeftCase(ns, root, sh, bh, z, p, g, ns', root');
    forall i | 1 <= i < |ns'| ensures BlackBalanced(ns', bh, i) && NoRedRedExcept(ns', i, p) {
      InnerLeftNode(ns, root, sh, bh, z, p, g, ns', root', i);
    }
  }

  /** The arena after the outer-case recolouring, before the rotation at `g`. */
  function OuterRecoloured(ns: seq<Node>, q: nat, g: nat): (ns': seq<Node>)
    requires q < |ns| && g < |ns|
  {
    Paint(Paint(ns, q, Black), g, Red)
  }

  /**
   * `z` is the left child of `q`, which is the left child of `g`; after the
   * recolouring, right rotation at `g`.
   */
  predicate OuterLeftCase(ns: seq<Node>, root: nat, sh: Shape, bh: seq<nat>, z: nat, q: nat, g: nat,
                          ns2: seq<Node>, root2: nat) {
    && FixupInv(ns, root, sh, bh, z)
    && 1 <= q < |ns| && 1 <= g < |ns|
    && ns[z].parent == q && ns[q].parent == g
    && ns[g].left == q && ns[q].left == z && IsBlack(ns, ns[g].right)
    && IsRed(ns, q) && IsBlack(ns, g)
    && z != q && z != g && q != g && z != root
    && ns[q].right != z && ns[q].right != g && ns[g].right != q && ns[g].right != g
    && var gp := ns[g].parent;
    && gp < |ns| && gp != z && gp != q && gp != g
    && (gp == Nil <==> g == root)
    && (gp != Nil ==> (ns[gp].left == g || ns[gp].right == g) && ns[gp].left != ns[gp].right)
    && (ns[q].right != Nil ==> ns[q].right != gp)
    && Closed(OuterRecoloured(ns, q, g), root)
    && RightRotated(OuterRecoloured(ns, q, g), root, g, ns2, root2)
    && SamePaint(OuterRecoloured(ns, q, g), ns2) && Closed(ns2, root2)
  }

  lemma OuterLeftNode(ns: seq<Node>, root: nat, sh: Shape, bh: seq<nat>, z: nat, q: nat, g: nat,
                      ns2: seq<Node>, root2: nat, i: nat)
    requires OuterLeftCase(ns, root, sh, bh, z, q, g, ns2, root2) && 1 <= i < |ns|
    ensures BlackBalanced(ns2, bh, i) && NoRedRedExcept(ns2, i, z)
  {
    if i == q || i == g || i == ns[g].parent {
      OuterLeftTop(ns, root, sh, bh, z, q, g, ns2, root2, i);
    } else {
      OuterLeftOther(ns, root, sh, bh, z, q, g, ns2, root2, i);
    }
  }

  lemma OuterLeftTop(ns: seq<Node>, root: nat, sh: Shape, bh: seq<nat>, z: nat, q: nat, g: nat,
                     ns2: seq<Node>, root2: nat, i: nat)
    requires OuterLeftCase(ns, root, sh, bh, z, q, g, ns2, root2) && 1 <= i < |ns|
    requires i == q || i == g || i == ns[g].parent
    ensures BlackBalanced(ns2, bh, i) && NoRedRedExcept(ns2, i, z)
  {
    if i == q {
      OuterLeftAtQ(ns, root, sh, bh, z, q, g, ns2, root2);
    } else if i == g {
      OuterLeftAtG(ns, root, sh, bh, z, q, g, ns2, root2);
    } else {
      OuterLeftAbove(ns, root, sh, bh, z, q, g, ns2, root2);
    }
  }

  lemma OuterLeftAtQ(ns: seq<Node>, root: nat, sh: Shape, bh: seq<nat>, z: nat, q: nat, g: nat,
                     ns2: seq<Node>, root2: nat)
    requires OuterLeftCase(ns, root, sh, bh, z, q, g, ns2, root2)
    ensures BlackBalanced(ns2, bh, q) && NoRedRedExcept(ns2, q, z)
  {
    assert BlackBalanced(ns, bh, q) && BlackBalanced(ns, bh, g);
    assert ns2[z].color == ns[z].color;
  }

  lemma OuterLeftAtG(ns: seq<Node>, root: nat, sh: Shape, bh: seq<nat>, z: nat, q: nat, g: nat,
                     ns2: seq<Node>, root2: nat)
    requires OuterLeftCase(ns, root, sh, bh, z, q, g, ns2, root2)
    ensures BlackBalanced(ns2, bh, g) && NoRedRedExcept(ns2, g, z)
  {
    assert BlackBalanced(ns, bh, q) && BlackBalanced(ns, bh, g);
    assert Inside(ns, ns[q]) && Inside(ns, ns[g]);
    assert NoRedRedExcept(ns, q, z);
    var b, r := ns[q].right, ns[g].right;
    assert ns2[b].color == ns[b].color && ns2[r].color == ns[r].color;
  }

  lemma OuterLeftAbove(ns: seq<Node>, root: nat, sh: Shape, bh: seq<nat>, z: nat, q: nat, g: nat,
                       ns2: seq<Node>, root2: nat)
    requires OuterLeftCase(ns, root, sh, bh, z, q, g, ns2, root2) && 1 <= ns[g].parent
    ensures BlackBalanced(ns2, bh, ns[g].parent) && NoRedRedExcept(ns2, ns[g].parent, z)
  {
    var i := ns[g].parent;
    assert BlackBalanced(ns, bh, g);
    assert Inside(ns, ns[i]) && ChildLinked(ns, i);
    assert BlackBalanced(ns, bh, i) && NoRedRedExcept(ns, i, z);
    var c := if ns[i].left == g then ns[i].right else ns[i].left;
    assert c != q;
    assert ns2[c].color == ns[c].color;
  }

  lemma OuterLeftOther(ns: seq<Node>, root: nat, sh: Shape, bh: seq<nat>, z: nat, q: nat, g: nat,
                       ns2: seq<Node>, root2: nat, i: nat)
    requires OuterLeftCase(ns, root, sh, bh, z, q, g, ns2, root2) && 1 <= i < |ns|
    requires i != q && i != g && i != ns[g].parent
    ensures BlackBalanced(ns2, bh, i) && NoRedRedExcept(ns2, i, z)
  {
    assert Inside(ns, ns[i]) && ChildLinked(ns, i);
    assert BlackBalanced(ns, bh, i) && NoRedRedExcept(ns, i, z);
    assert Inside(ns, ns[q]) && Inside(ns, ns[g]) && Inside(ns2, ns2[i]);
  }

  /** The facts the outer case needs about `z`, its parent and grandparent. */
  lemma OuterLeftCaseHolds(ns: seq<Node>, root: nat, sh: Shape, bh: seq<nat>, z: nat,
                           ns2: seq<Node>, root2: nat)
    requires FixupInv(ns, root, sh, bh, z) && IsRed(ns, ns[z].parent)
    requires var q := ns[z].parent; var g := ns[q].parent;
      ns[g].left == q && IsBlack(ns, ns[g].right) && ns[q].left == z
    requires var q := ns[z].parent; var g := ns[q].parent;
      && Closed(OuterRecoloured(ns, q, g), root)
      && RightRotated(OuterRecoloured(ns, q, g), root, g, ns2, root2)
    requires Closed(ns2, root2)
    ensures var q := ns[z].parent; OuterLeftCase(ns, root, sh, bh, z, q, ns[q].parent, ns2, root2)
  {
    var q := ns[z].parent;
    RedParentFacts(ns, root, sh, bh, z);
    AboveGrandparent(ns, root, sh, bh, z);
    var g := ns[q].parent;
    var ns1 := OuterRecoloured(ns, q, g);
    SameLinksWf(ns, root, sh, ns1);
    RightRotationDistinct(ns1, root, sh, g);
    RightRotatedPaint(ns1, root, g, ns2, root2);
    ChildInterval(ns, root, sh, q, z);
    assert Inside(ns, ns[g]) && Inside(ns, ns[q]);
    if ns[q].right != Nil { ChildInterval(ns, root, sh, q, ns[q].right); }
    if ns[g].right != Nil { ChildInterval(ns, root, sh, g, ns[g].right); }
    assert OuterLeftCase(ns, root, sh, bh, z, q, g, ns2, root2);
  }

  /**
   * `z` is the left child of a left child `q`: painting `q` Black and the
   * grandparent `g` Red and rotating right at `g` puts `q` on top with a
   * Black colour and the old black height, so no violation is left.
   */
  lemma OuterLeftStep(ns: seq<Node>, root: nat, sh: Shape, bh: seq<nat>, z: nat,
                      ns2: seq<Node>, root2: nat, sh2: Shape)
    requires FixupInv(ns, root, sh, bh, z) && IsRed(ns, ns[z].parent)
    requires var q := ns[z].parent; var g := ns[q].parent;
      ns[g].left == q && IsBlack(ns, ns[g].right) && ns[q].left == z
    requires var q := ns[z].parent; var g := ns[q].parent;
      && Closed(OuterRecoloured(ns, q, g), root)
      && RightRotated(OuterRecoloured(ns, q, g), root, g, ns2, root2)
    requires Wf(ns2, root2, sh2)
    ensures FixupInv(ns2, root2, sh2, bh, z) && IsBlack(ns2, ns2[z].parent)
  {
    OuterLeftCaseHolds(ns, root, sh, bh, z, ns2, root2);
    var q := ns[z].parent;
    var g := ns[q].parent;
    forall i | 1 <= i < |ns2| ensures BlackBalanced(ns2, bh, i) && NoRedRedExcept(ns2, i, z) {
      OuterLeftNode(ns, root, sh, bh, z, q, g, ns2, root2, i);
    }
  }

  // ---------------------------------------------------------------------------
  // Black uncle, parent is a right child (the mirror images)

  /** `z` is the left child of `p`, which is the right child of `g`; right rotation at `p`. */
  predicate InnerRightCase(ns: seq<Node>, root: nat, sh: Shape, bh: seq<nat>, z: nat, p: nat, g: nat,
                          ns': seq<Node>, root': nat) {
    && FixupInv(ns, root, sh, bh, z)
    && 1 <= p < |ns| && 1 <= g < |ns|
    && ns[z].parent == p && ns[p].parent == g
    && ns[g].right == p && ns[p].left == z
    && IsRed(ns, p) && IsBlack(ns, g)
    && z != p && z != g && p != g
    && ns[p].right != z && ns[z].right != z && ns[z].left != z
    && (ns[z].right != Nil ==> ns[z].right != g)
    && RightRotated(ns, root, p, ns', root') && SamePaint(ns, ns') && Closed(ns', root')
  }

  lemma InnerRightNode(ns: seq<Node>, root: nat, sh: Shape, bh: seq<nat>, z: nat, p: nat, g: nat,
                      ns': seq<Node>, root': nat, i: nat)
    requires InnerRightCase(ns, root, sh, bh, z, p, g, ns', root') && 1 <= i < |ns|
    ensures BlackBalanced(ns', bh, i) && NoRedRedExcept(ns', i, p)
  {
    assert Inside(ns, ns[i]) && ChildLinked(ns, i);
    assert BlackBalanced(ns, bh, i) && NoRedRedExcept(ns, i, z);
    assert Inside(ns, ns[z]) && Inside(ns', ns'[i]);
    if i == p || i == z || i == g {
      assert BlackBalanced(ns, bh, p) && BlackBalanced(ns, bh, z);
      assert NoRedRedExcept(ns, p, z) && NoRedRedExcept(ns, z, z);
    }
  }

  /**
   * `z` is the left child of a right child `p`: rotating right at `p` makes `p`
   * the right child of `z`, and the violation is now at `p` under `z`.
   */
  lemma InnerRightStep(ns: seq<Node>, root: nat, sh: Shape, bh: seq<nat>, z: nat,
                      ns': seq<Node>, root': nat, sh': Shape)
    requires FixupInv(ns, root, sh, bh, z) && IsRed(ns, ns[z].parent)
    requires var p := ns[z].parent; var g := ns[p].parent;
      ns[g].right == p && IsBlack(ns, ns[g].left) && ns[p].left == z
    requires RightRotated(ns, root, ns[z].parent, ns', root') && Wf(ns', root', sh')
    ensures var p := ns[z].parent; var g := ns[p].parent;
      && FixupInv(ns', root', sh', bh, p)
      && ns'[p].parent == z && ns'[z].right == p && ns'[z].parent == g && ns'[g].right == z
      && IsRed(ns', z) && ns'[g].left == ns[g].left && IsBlack(ns', ns'[g].left)
  {
    var p := ns[z].parent;
    RedParentFacts(ns, root, sh, bh, z);
    var g := ns[p].parent;
    RightRotationDistinct(ns, root, sh, p);
    RightRotatedPaint(ns, root, p, ns', root');
    ChildInterval(ns, root, sh, p, z);
    assert Inside(ns, ns[z]);
    if ns[z].right != Nil { ChildInterval(ns, root, sh, z, ns[z].right); }
    if ns[z].left != Nil { ChildInterval(ns, root, sh, z, ns[z].left); }
    assert InnerRightCase(ns, root, sh, bh, z, p, g, ns', root');
    forall i | 1 <= i < |ns'| ensures BlackBalanced(ns', bh, i) && NoRedRedExcept(ns', i, p) {
      InnerRightNode(ns, root, sh, bh, z, p, g, ns', root', i);
    }
  }

  /**
   * `z` is the right child of `q`, which is the right child of `g`; after the
   * recolouring, left rotation at `g`.
   */
  predicate OuterRightCase(ns: seq<Node>, root: nat, sh: Shape, bh: seq<nat>, z: nat, q: nat, g: nat,
                          ns2: seq<Node>, root2: nat) {
    && FixupInv(ns, root, sh, bh, z)
    && 1 <= q < |ns| && 1 <= g < |ns|
    && ns[z].parent == q && ns[q].parent == g
    && ns[g].right == q && ns[q].right == z && IsBlack(ns, ns[g].left)
    && IsRed(ns, q) && IsBlack(ns, g)
    && z != q && z != g && q != g && z != root
    && ns[q].left != z && ns[q].left != g && ns[g].left != q && ns[g].left != g
    && var gp := ns[g].parent;
    && gp < |ns| && gp != z && gp != q && gp != g
    && (gp == Nil <==> g == root)
    && (gp != Nil ==> (ns[gp].right == g || ns[gp].left == g) && ns[gp].right != ns[gp].left)
    && (ns[q].left != Nil ==> ns[q].left != gp)
    && Closed(OuterRecoloured(ns, q, g), root)
    && LeftRotated(OuterRecoloured(ns, q, g), root, g, ns2, root2)
    && SamePaint(OuterRecoloured(ns, q, g), ns2) && Closed(ns2, root2)
  }

  lemma OuterRightNode(ns: seq<Node>, root: nat, sh: Shape, bh: seq<nat>, z: nat, q: nat, g: nat,
                      ns2: seq<Node>, root2: nat, i: nat)
    requires OuterRightCase(ns, root, sh, bh, z, q, g, ns2, root2) && 1 <= i < |ns|
    ensures BlackBalanced(ns2, bh, i) && NoRedRedExcept(ns2, i, z)
  {
    if i == q || i == g || i == ns[g].parent {
      OuterRightTop(ns, root, sh, bh, z, q, g, ns2, root2, i);
    } else {
      OuterRightOther(ns, root, sh, bh, z, q, g, ns2, root2, i);
    }
  }

  lemma OuterRightTop(ns: seq<Node>, root: nat, sh: Shape, bh: seq<nat>, z: nat, q: nat, g: nat,
                     ns2: seq<Node>, root2: nat, i: nat)
    requires OuterRightCase(ns, root, sh, bh, z, q, g, ns2, root2) && 1 <= i < |ns|
    requires i == q || i == g || i == ns[g].parent
    ensures BlackBalanced(ns2, bh, i) && NoRedRedExcept(ns2, i, z)
  {
    if i == q {
      OuterRightAtQ(ns, root, sh, bh, z, q, g, ns2, root2);
    } else if i == g {
      OuterRightAtG(ns, root, sh, bh, z, q, g, ns2, root2);
    } else {
      OuterRightAbove(ns, root, sh, bh, z, q, g, ns2, root2);
    }
  }

  lemma OuterRightAtQ(ns: seq<Node>, root: nat, sh: Shape, bh: seq<nat>, z: nat, q: nat, g: nat,
                     ns2: seq<Node>, root2: nat)
    requires OuterRightCase(ns, root, sh, bh, z, q, g, ns2, root2)
    ensures BlackBalanced(ns2, bh, q) && NoRedRedExcept(ns2, q, z)
  {
    assert BlackBalanced(ns, bh, q) && BlackBalanced(ns, bh, g);
    assert ns2[z].color == ns[z].color;
  }

  lemma OuterRightAtG(ns: seq<Node>, root: nat, sh: Shape, bh: seq<nat>, z: nat, q: nat, g: nat,
                     ns2: seq<Node>, root2: nat)
    requires OuterRightCase(ns, root, sh, bh, z, q, g, ns2, root2)
    ensures BlackBalanced(ns2, bh, g) && NoRedRedExcept(ns2, g, z)
  {
    assert BlackBalanced(ns, bh, q) && BlackBalanced(ns, bh, g);
    assert Inside(ns, ns[q]) && Inside(ns, ns[g]);
    assert NoRedRedExcept(ns, q, z);
    var b, r := ns[q].left, ns[g].left;
    assert ns2[b].color == ns[b].color && ns2[r].color == ns[r].color;
  }

  lemma OuterRightAbove(ns: seq<Node>, root: nat, sh: Shape, bh: seq<nat>, z: nat, q: nat, g: nat,
                       ns2: seq<Node>, root2: nat)
    requires OuterRightCase(ns, root, sh, bh, z, q, g, ns2, root2) && 1 <= ns[g].parent
    ensures BlackBalanced(ns2, bh, ns[g].parent) && NoRedRedExcept(ns2, ns[g].parent, z)
  {
    var i := ns[g].parent;
    assert BlackBalanced(ns, bh, g);
    assert Inside(ns, ns[i]) && ChildLinked(ns, i);
    assert BlackBalanced(ns, bh, i) && NoRedRedExcept(ns, i, z);
    var c := if ns[i].left == g then ns[i].right else ns[i].left;
    assert c != q;
    assert ns2[c].color == ns[c].color;
  }

  lemma OuterRightOther(ns: seq<Node>, root: nat, sh: Shape, bh: seq<nat>, z: nat, q: nat, g: nat,
                       ns2: seq<Node>, root2: nat, i: nat)
    requires OuterRightCase(ns, root, sh, bh, z, q, g, ns2, root2) && 1 <= i < |ns|
    requires i != q && i != g && i != ns[g].parent
    ensures BlackBalanced(ns2, bh, i) && NoRedRedExcept(ns2, i, z)
  {
    assert Inside(ns, ns[i]) && ChildLinked(ns, i);
    assert BlackBalanced(ns, bh, i) && NoRedRedExcept(ns, i, z);
    assert Inside(ns, ns[q]) && Inside(ns, ns[g]) && Inside(ns2, ns2[i]);
  }

  /** The facts the outer case needs about `z`, its parent and grandparent. */
  lemma OuterRightCaseHolds(ns: seq<Node>, root: nat, sh: Shape, bh: seq<nat>, z: nat,
                           ns2: seq<Node>, root2: nat)
    requires FixupInv(ns, root, sh, bh, z) && IsRed(ns, ns[z].parent)
    requires var q := ns[z].parent; var g := ns[q].parent;
      ns[g].right == q && IsBlack(ns, ns[g].left) && ns[q].right == z
    requires var q := ns[z].parent; var g := ns[q].parent;
      && Closed(OuterRecoloured(ns, q, g), root)
      && LeftRotated(OuterRecoloured(ns, q, g), root, g, ns2, root2)
    requires Closed(ns2, root2)
    ensures var q := ns[z].parent; OuterRightCase(ns, root, sh, bh, z, q, ns[q].parent, ns2, root2)
  {
    var q := ns[z].parent;
    RedParentFacts(ns, root, sh, bh, z);
    AboveGrandparent(ns, root, sh, bh, z);
    var g := ns[q].parent;
    var ns1 := OuterRecoloured(ns, q, g);
    SameLinksWf(ns, root, sh, ns1);
    LeftRotationDistinct(ns1, root, sh, g);
    LeftRotatedPaint(ns1, root, g, ns2, root2);
    ChildInterval(ns, root, sh, q, z);
    assert Inside(ns, ns[g]) && Inside(ns, ns[q]);
    if ns[q].left != Nil { ChildInterval(ns, root, sh, q, ns[q].left); }
    if ns[g].left != Nil { ChildInterval(ns, root, sh, g, ns[g].left); }
    assert OuterRightCase(ns, root, sh, bh, z, q, g, ns2, root2);
  }

  /**
   * `z` is the right child of a right child `q`: painting `q` Black and the
   * grandparent `g` Red and rotating left at `g` puts `q` on top with a
   * Black colour and the old black height, so no violation is left.
   */
  lemma OuterRightStep(ns: seq<Node>, root: nat, sh: Shape, bh: seq<nat>, z: nat,
                      ns2: seq<Node>, root2: nat, sh2: Shape)
    requires FixupInv(ns, root, sh, bh, z) && IsRed(ns, ns[z].parent)
    requires var q := ns[z].parent; var g := ns[q].parent;
      ns[g].right == q && IsBlack(ns, ns[g].left) && ns[q].right == z
    requires var q := ns[z].parent; var g := ns[q].parent;
      && Closed(OuterRecoloured(ns, q, g), root)
      && LeftRotated(OuterRecoloured(ns, q, g), root, g, ns2, root2)
    requires Wf(ns2, root2, sh2)
    ensures FixupInv(ns2, root2, sh2, bh, z) && IsBlack(ns2, ns2[z].parent)
  {
    OuterRightCaseHolds(ns, root, sh, bh, z, ns2, root2);
    var q := ns[z].parent;
    var g := ns[q].parent;
    forall i | 1 <= i < |ns2| ensures BlackBalanced(ns2, bh, i) && NoRedRedExcept(ns2, i, z) {
      OuterRightNode(ns, root, sh, bh, z, q, g, ns2, root2, i);
    }
  }



  // ---------------------------------------------------------------------------
  // Leaving the loop

  /**
   * Once the parent of `z` is Black, painting the root Black restores every
   * red-black invariant.
   */
  lemma FixupDone(ns: seq<Node>, root: nat, sh: Shape, bh: seq<nat>, z: nat)
    requires FixupInv(ns, root, sh, bh, z) && IsBlack(ns, ns[z].parent)
    ensures root != Nil
    ensures Wf(Paint(ns, root, Black), root, sh)
    ensures Contents(Paint(ns, root, Black), root, sh) == Contents(ns, root, sh)
    ensures RedBlack(Paint(ns, root, Black), root, bh)
  {
    RootFacts(ns, root, sh);
    var ns' := Paint(ns, root, Black);
    SameLinksWf(ns, root, sh, ns');
    assert Inside(ns, ns[z]);
    forall i | 1 <= i < |ns'| ensures BlackBalanced(ns', bh, i) && NoRedRedExcept(ns', i, Nil) {
      assert Inside(ns, ns[i]);
      assert BlackBalanced(ns, bh, i) && NoRedRedExcept(ns, i, z) && ChildLinked(ns, i);
    }
  }
}
