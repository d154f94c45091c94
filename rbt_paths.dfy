/**
 * Paths down the tree, and the black-height rule stated on them: the ghost
 * black heights `bh` that the tree keeps balanced node by node mean that every
 * downward path from a node to the sentinel meets the same number of Black
 * nodes.
 *
 * A path is a sequence of directions, `true` for left and `false` for right;
 * it stops early at the sentinel.
 */
module RbPaths {
  import opened RbArena

  /** The node a path from `i` ends at. */
  function Reach(ns: seq<Node>, i: nat, dirs: seq<bool>): (e: nat)
    requires Closed(ns, Nil) && i < |ns|
    ensures e < |ns|
    ensures dirs == [] || i == Nil ==> e == i
    decreases |dirs|
  {
    if i == Nil || dirs == [] then i
    else
      assert Inside(ns, ns[i]);
      Reach(ns, if dirs[0] then ns[i].left else ns[i].right, dirs[1..])
  }

  /** The Black nodes a path from `i` meets below `i`, the sentinel included when it gets there. */
  function BlacksBelow(ns: seq<Node>, i: nat, dirs: seq<bool>): (n: nat)
    requires Closed(ns, Nil) && i < |ns|
    decreases |dirs|
  {
    if i == Nil || dirs == [] then 0
    else
      assert Inside(ns, ns[i]);
      var c := if dirs[0] then ns[i].left else ns[i].right;
      Weight(ns, c) + BlacksBelow(ns, c, dirs[1..])
  }

  /** Along any path, the black height drops by the Black nodes met. */
  lemma {:induction false} BlacksAlongPath(ns: seq<Node>, bh: seq<nat>, i: nat, dirs: seq<bool>)
    requires Closed(ns, Nil) && Balanced(ns, bh) && i < |ns|
    ensures BlacksBelow(ns, i, dirs) + bh[Reach(ns, i, dirs)] == bh[i]
    decreases |dirs|
  {
    if i != Nil && dirs != [] {
      assert Inside(ns, ns[i]) && BlackBalanced(ns, bh, i);
      var c := if dirs[0] then ns[i].left else ns[i].right;
      BlacksAlongPath(ns, bh, c, dirs[1..]);
    }
  }

  /** A path from `i` that ends at the sentinel meets exactly `bh[i]` Black nodes. */
  lemma PathToNil(ns: seq<Node>, bh: seq<nat>, i: nat, dirs: seq<bool>)
    requires Closed(ns, Nil) && Balanced(ns, bh) && i < |ns|
    requires Reach(ns, i, dirs) == Nil
    ensures BlacksBelow(ns, i, dirs) == bh[i]
  {
    BlacksAlongPath(ns, bh, i, dirs);
  }

  /** Any two paths from the same node down to the sentinel meet equally many Black nodes. */
  lemma EqualBlackPaths(ns: seq<Node>, bh: seq<nat>, i: nat, d1: seq<bool>, d2: seq<bool>)
    requires Closed(ns, Nil) && Balanced(ns, bh) && i < |ns|
    requires Reach(ns, i, d1) == Nil && Reach(ns, i, d2) == Nil
    ensures BlacksBelow(ns, i, d1) == BlacksBelow(ns, i, d2)
  {
    PathToNil(ns, bh, i, d1);
    PathToNil(ns, bh, i, d2);
  }
}
