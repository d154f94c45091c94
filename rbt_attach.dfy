/**
 * The first half of insertion: the new Red leaf is attached under the last node
 * the descent visited. The new node takes in-order position `k`, so every
 * position at or after `k` moves up by one.
 */
module RbAttach {
  import opened RbArena

  /** Where the descent ends: the attach parent `y` and the new node's position `k`. */
  predicate AttachPoint(ns: seq<Node>, root: nat, sh: Shape, y: nat, v: int, k: nat)
    requires Wf(ns, root, sh)
  {
    && y < |ns|
    && (y == Nil ==> root == Nil && k == 0)
    && (y != Nil ==>
          if v < ns[y].value then ns[y].left == Nil && k == sh.pos[y]
          else ns[y].right == Nil && k == sh.pos[y] + 1)
  }

  /** `k` separates the values at most `v` from the values greater than `v`. */
  predicate Separates(vs: seq<int>, v: int, k: nat) {
    && k <= |vs|
    && (forall p :: 0 <= p < k ==> vs[p] <= v)
    && (forall p :: k <= p < |vs| ==> v < vs[p])
  }

  /**
   * One step of the descent from node `x`: values before `pos[x]` are at most
   * `x`'s value and values after it at least that, and the child the descent
   * takes covers the left or right part of `x`'s interval.
   */
  lemma StepDown(ns: seq<Node>, root: nat, sh: Shape, x: nat, v: int)
    requires Wf(ns, root, sh) && 1 <= x < |ns|
    ensures Inside(ns, ns[x]) && sh.lo[x] <= sh.pos[x] < sh.hi[x] <= |sh.order|
    ensures forall i :: 0 <= i <= sh.pos[x] ==> Contents(ns, root, sh)[i] <= ns[x].value
    ensures forall i :: sh.pos[x] <= i < |sh.order| ==> ns[x].value <= Contents(ns, root, sh)[i]
    ensures var l := ns[x].left;
      if l == Nil then sh.lo[x] == sh.pos[x]
      else sh.lo[l] == sh.lo[x] && sh.hi[l] == sh.pos[x] && sh.lo[l] < sh.hi[l]
    ensures var r := ns[x].right;
      if r == Nil then sh.hi[x] == sh.pos[x] + 1
      else sh.lo[r] == sh.pos[x] + 1 && sh.hi[r] == sh.hi[x] && sh.lo[r] < sh.hi[r]
  {
    assert Inside(ns, ns[x]) && Placed(ns, sh, x);
    var vs := Contents(ns, root, sh);
    assert vs[sh.pos[x]] == ns[x].value;
    if ns[x].left != Nil { ChildInterval(ns, root, sh, x, ns[x].left); }
    if ns[x].right != Nil { ChildInterval(ns, root, sh, x, ns[x].right); }
  }

  /** The arena after attaching node `|ns|`, holding `v`, under `y`. */
  function Attach(ns: seq<Node>, y: nat, v: int): (ns': seq<Node>)
    requires y < |ns|
    ensures |ns'| == |ns| + 1
  {
    var z := |ns|;
    var ns1 := ns + [Node(v, Red, Nil, Nil, y)];
    if y == Nil then ns1
    else if v < ns[y].value then ns1[y := ns[y].(left := z)]
    else ns1[y := ns[y].(right := z)]
  }

  function Bump(p: nat, k: nat): (q: nat) {
    if p < k then p else p + 1
  }

  function BumpLo(p: nat, k: nat): (q: nat) {
    if p <= k then p else p + 1
  }

  /** The shape after the new node `z = |ns|` takes in-order position `k`. */
  function AttachShape(ns: seq<Node>, sh: Shape, k: nat): (sh': Shape)
    requires ShapeSized(ns, sh) && k < |sh.gap|
  {
    var z := |ns|;
    Shape(
      seq(|ns| + 1, i requires 0 <= i < |ns| + 1 => if i == z then k else Bump(sh.pos[i], k)),
      seq(|ns| + 1, i requires 0 <= i < |ns| + 1 => if i == z then k else BumpLo(sh.lo[i], k)),
      seq(|ns| + 1, i requires 0 <= i < |ns| + 1 => if i == z then k + 1 else Bump(sh.hi[i], k)),
      sh.order[..k] + [z] + sh.order[k..],
      sh.gap[..k] + [ChildSlot(z, Left), ChildSlot(z, Right)] + sh.gap[k + 1..])
  }

  /** The assumptions shared by the node-by-node lemmas about attaching. */
  predicate AttachStep(ns: seq<Node>, root: nat, sh: Shape, y: nat, v: int, k: nat) {
    && Wf(ns, root, sh)
    && AttachPoint(ns, root, sh, y, v, k)
    && Separates(Contents(ns, root, sh), v, k)
  }

  lemma AttachFacts(ns: seq<Node>, root: nat, sh: Shape, y: nat, v: int, k: nat)
    requires AttachStep(ns, root, sh, y, v, k)
    ensures k < |ns| && k < |sh.gap|
    ensures Closed(Attach(ns, y, v), if y == Nil then |ns| else root)
    ensures ShapeSized(Attach(ns, y, v), AttachShape(ns, sh, k))
    ensures y == Nil ==> sh.gap[k] == RootSlot
    ensures y != Nil && v < ns[y].value ==> sh.gap[k] == ChildSlot(y, Left)
    ensures y != Nil && !(v < ns[y].value) ==> sh.gap[k] == ChildSlot(y, Right)
  {
    var ns' := Attach(ns, y, v);
    if y != Nil {
      assert Placed(ns, sh, y);
    }
    forall i | 0 <= i < |ns'| ensures Inside(ns', ns'[i]) {
      if i < |ns| { assert Inside(ns, ns[i]); }
    }
  }

  /** The shifted shape, entry by entry. */
  lemma AttachShapeAt(ns: seq<Node>, sh: Shape, k: nat)
    requires ShapeSized(ns, sh) && k < |sh.gap|
    ensures var sh' := AttachShape(ns, sh, k);
      && ShapeSized(ns + [NilNode], sh')
      && (forall i :: 0 <= i < |ns| ==> sh'.pos[i] == Bump(sh.pos[i], k))
      && (forall i :: 0 <= i < |ns| ==> sh'.lo[i] == BumpLo(sh.lo[i], k))
      && (forall i :: 0 <= i < |ns| ==> sh'.hi[i] == Bump(sh.hi[i], k))
      && sh'.pos[|ns|] == k && sh'.lo[|ns|] == k && sh'.hi[|ns|] == k + 1
      && (forall p :: 0 <= p < k ==> sh'.order[p] == sh.order[p])
      && sh'.order[k] == |ns|
      && (forall p :: k <= p < |sh.order| ==> sh'.order[p + 1] == sh.order[p])
      && (forall g :: 0 <= g < k ==> sh'.gap[g] == sh.gap[g])
      && sh'.gap[k] == ChildSlot(|ns|, Left) && sh'.gap[k + 1] == ChildSlot(|ns|, Right)
      && (forall g :: k < g < |sh.gap| ==> sh'.gap[g + 1] == sh.gap[g])
  {
  }

  /** An old node's interval and position move with the shift. */
  lemma AttachPlacedOldRange(ns: seq<Node>, root: nat, sh: Shape, y: nat, v: int, k: nat, i: nat)
    requires AttachStep(ns, root, sh, y, v, k) && 1 <= i < |ns|
    requires Closed(Attach(ns, y, v), 0) && ShapeSized(Attach(ns, y, v), AttachShape(ns, sh, k))
    ensures var sh' := AttachShape(ns, sh, k);
      sh'.lo[i] <= sh'.pos[i] < sh'.hi[i] < |ns| + 1 && sh'.order[sh'.pos[i]] == i
  {
    AttachFacts(ns, root, sh, y, v, k);
    AttachShapeAt(ns, sh, k);
    assert Placed(ns, sh, i);
  }

  /** An old node's left link: unchanged, or its nil slot at `k` now holds the new node. */
  lemma AttachPlacedOldLeft(ns: seq<Node>, root: nat, sh: Shape, y: nat, v: int, k: nat, i: nat)
    requires AttachStep(ns, root, sh, y, v, k) && 1 <= i < |ns|
    requires Closed(Attach(ns, y, v), 0) && ShapeSized(Attach(ns, y, v), AttachShape(ns, sh, k))
    requires AttachShape(ns, sh, k).pos[i] < |ns| + 1
    ensures LeftPlaced(Attach(ns, y, v), AttachShape(ns, sh, k), i)
  {
    var ns', sh' := Attach(ns, y, v), AttachShape(ns, sh, k);
    AttachFacts(ns, root, sh, y, v, k);
    AttachShapeAt(ns, sh, k);
    assert Inside(ns, ns[i]);
    assert Placed(ns, sh, i);
    var l := ns[i].left;
    if l != Nil {
      assert Placed(ns, sh, l);
    } else if ns'[i].left == Nil {
      assert sh.gap[sh.pos[i]] == ChildSlot(i, Left);
      assert sh.pos[i] != k;
    }
  }

  /** An old node's right link: unchanged, or its nil slot at `k` now holds the new node. */
  lemma AttachPlacedOldRight(ns: seq<Node>, root: nat, sh: Shape, y: nat, v: int, k: nat, i: nat)
    requires AttachStep(ns, root, sh, y, v, k) && 1 <= i < |ns|
    requires Closed(Attach(ns, y, v), 0) && ShapeSized(Attach(ns, y, v), AttachShape(ns, sh, k))
    requires AttachShape(ns, sh, k).hi[i] < |ns| + 1
    ensures RightPlaced(Attach(ns, y, v), AttachShape(ns, sh, k), i)
  {
    var ns', sh' := Attach(ns, y, v), AttachShape(ns, sh, k);
    AttachFacts(ns, root, sh, y, v, k);
    AttachShapeAt(ns, sh, k);
    assert Inside(ns, ns[i]);
    assert Placed(ns, sh, i);
    var r := ns[i].right;
    if r != Nil {
      assert Placed(ns, sh, r);
    } else if ns'[i].right == Nil {
      assert sh.gap[sh.hi[i]] == ChildSlot(i, Right);
      assert sh.hi[i] != k;
    }
  }

  lemma AttachPlacedOld(ns: seq<Node>, root: nat, sh: Shape, y: nat, v: int, k: nat, i: nat)
    requires AttachStep(ns, root, sh, y, v, k) && 1 <= i < |ns|
    requires Closed(Attach(ns, y, v), 0) && ShapeSized(Attach(ns, y, v), AttachShape(ns, sh, k))
    ensures Placed(Attach(ns, y, v), AttachShape(ns, sh, k), i)
  {
    AttachPlacedOldRange(ns, root, sh, y, v, k, i);
    AttachPlacedOldLeft(ns, root, sh, y, v, k, i);
    AttachPlacedOldRight(ns, root, sh, y, v, k, i);
  }

  /** The new node is a leaf covering exactly its own position `k`. */
  lemma AttachPlacedNew(ns: seq<Node>, root: nat, sh: Shape, y: nat, v: int, k: nat)
    requires AttachStep(ns, root, sh, y, v, k)
    requires Closed(Attach(ns, y, v), 0) && ShapeSized(Attach(ns, y, v), AttachShape(ns, sh, k))
    ensures Placed(Attach(ns, y, v), AttachShape(ns, sh, k), |ns|)
  {
    AttachFacts(ns, root, sh, y, v, k);
    var sh' := AttachShape(ns, sh, k);
    assert sh'.order[k] == |ns|;
    assert sh'.gap[k] == ChildSlot(|ns|, Left);
    assert sh'.gap[k + 1] == ChildSlot(|ns|, Right);
  }

  lemma AttachLinked(ns: seq<Node>, root: nat, sh: Shape, y: nat, v: int, k: nat)
    requires AttachStep(ns, root, sh, y, v, k)
    requires Closed(Attach(ns, y, v), if y == Nil then |ns| else root)
    ensures Linked(Attach(ns, y, v), if y == Nil then |ns| else root)
  {
    var ns', root' := Attach(ns, y, v), if y == Nil then |ns| else root;
    var z := |ns|;
    if y != Nil {
      assert Placed(ns, sh, y);
    }
    forall i | 1 <= i < |ns'| ensures ChildLinked(ns', i) {
      if i < z {
        assert ChildLinked(ns, i);
        assert Inside(ns, ns[i]);
      }
    }
    forall i | 1 <= i < |ns'| && i != root' ensures ParentLinked(ns', i) {
      if i < z {
        assert ParentLinked(ns, i);
        assert Inside(ns, ns[i]);
      }
    }
  }

  /** Inserting `v` at a separating position keeps a sorted sequence sorted. */
  lemma SplicedSorted(vs: seq<int>, v: int, k: nat)
    requires Sorted(vs) && Separates(vs, v, k)
    ensures Sorted(vs[..k] + [v] + vs[k..])
  {
    var ws := vs[..k] + [v] + vs[k..];
    forall p, q | 0 <= p < q < |ws| ensures ws[p] <= ws[q] {
      if q < k {
        assert ws[p] == vs[p] && ws[q] == vs[q];
      } else if q == k {
        assert ws[p] == vs[p];
      } else if p < k {
        assert ws[p] == vs[p] && ws[q] == vs[q - 1];
      } else if p == k {
        assert ws[q] == vs[q - 1];
      } else {
        assert ws[p] == vs[p - 1] && ws[q] == vs[q - 1];
      }
    }
  }

  /** Attaching the new leaf keeps the links and the shape consistent. */
  lemma AttachShaped(ns: seq<Node>, root: nat, sh: Shape, y: nat, v: int, k: nat)
    requires Wf(ns, root, sh) && AttachPoint(ns, root, sh, y, v, k)
    requires Separates(Contents(ns, root, sh), v, k)
    ensures k <= |sh.order| && k < |sh.gap|
    ensures var ns', root', sh' := Attach(ns, y, v), (if y == Nil then |ns| else root), AttachShape(ns, sh, k);
      && Closed(ns', root') && Linked(ns', root') && Shaped(ns', root', sh') && AllInside(ns', sh'.order)
  {
    var ns', root', sh' := Attach(ns, y, v), if y == Nil then |ns| else root, AttachShape(ns, sh, k);
    var z := |ns|;
    AttachFacts(ns, root, sh, y, v, k);
    AttachLinked(ns, root, sh, y, v, k);
    forall i | 1 <= i < |ns'| ensures Placed(ns', sh', i) {
      if i < z {
        AttachPlacedOld(ns, root, sh, y, v, k, i);
      } else {
        AttachPlacedNew(ns, root, sh, y, v, k);
      }
    }
    forall p | 0 <= p < |sh'.order| ensures Ranked(ns', sh', p) {
      if p < k {
        assert sh'.order[p] == sh.order[p];
        assert Ranked(ns, sh, p);
      } else if p == k {
        assert sh'.order[p] == z;
      } else {
        assert sh'.order[p] == sh.order[p - 1];
        assert Ranked(ns, sh, p - 1);
      }
    }
    if root' != Nil && y != Nil {
      assert Placed(ns, sh, root);
    }
    assert Shaped(ns', root', sh');
    OrderInside(ns', root', sh');
  }

  /** The in-order values after attaching: `v` spliced in at position `k`. */
  lemma AttachValues(ns: seq<Node>, root: nat, sh: Shape, y: nat, v: int, k: nat)
    requires Wf(ns, root, sh) && AttachPoint(ns, root, sh, y, v, k)
    requires Separates(Contents(ns, root, sh), v, k)
    requires k <= |sh.order| && AllInside(Attach(ns, y, v), AttachShape(ns, sh, k).order)
    ensures ValuesAt(Attach(ns, y, v), AttachShape(ns, sh, k).order)
         == Contents(ns, root, sh)[..k] + [v] + Contents(ns, root, sh)[k..]
  {
    var ns', sh' := Attach(ns, y, v), AttachShape(ns, sh, k);
    AttachFacts(ns, root, sh, y, v, k);
    var vs := Contents(ns, root, sh);
    var ws := ValuesAt(ns', sh'.order);
    forall p | 0 <= p < |ws| ensures ws[p] == (vs[..k] + [v] + vs[k..])[p] {
      if p < k {
        assert sh'.order[p] == sh.order[p];
        assert Ranked(ns, sh, p);
      } else if p > k {
        assert sh'.order[p] == sh.order[p - 1];
        assert Ranked(ns, sh, p - 1);
      }
    }
  }

  /**
   * Attaching the new leaf at the place the descent found keeps the arena a
   * well-formed search tree; its in-order contents gain `v` at position `k`.
   */
  lemma AttachWf(ns: seq<Node>, root: nat, sh: Shape, y: nat, v: int, k: nat)
    requires Wf(ns, root, sh) && AttachPoint(ns, root, sh, y, v, k)
    requires Separates(Contents(ns, root, sh), v, k)
    ensures k <= |sh.order| && k < |sh.gap|
    ensures Wf(Attach(ns, y, v), if y == Nil then |ns| else root, AttachShape(ns, sh, k))
    ensures Contents(Attach(ns, y, v), if y == Nil then |ns| else root, AttachShape(ns, sh, k))
         == Contents(ns, root, sh)[..k] + [v] + Contents(ns, root, sh)[k..]
  {
    AttachShaped(ns, root, sh, y, v, k);
    AttachValues(ns, root, sh, y, v, k);
    SplicedSorted(Contents(ns, root, sh), v, k);
  }

  /**
   * Attaching a Red leaf to a red-black tree leaves at most one violation:
   * the leaf itself may have a Red parent, or be a Red root.
   */
  lemma AttachFixupReady(ns: seq<Node>, root: nat, sh: Shape, bh: seq<nat>, y: nat, v: int, k: nat)
    requires Wf(ns, root, sh) && RedBlack(ns, root, bh) && AttachPoint(ns, root, sh, y, v, k)
    requires Separates(Contents(ns, root, sh), v, k)
    ensures FixupInv(Attach(ns, y, v), if y == Nil then |ns| else root, AttachShape(ns, sh, k), bh + [1], |ns|)
  {
    var ns', root', sh', bh' := Attach(ns, y, v), if y == Nil then |ns| else root, AttachShape(ns, sh, k), bh + [1];
    var z := |ns|;
    AttachWf(ns, root, sh, y, v, k);
    forall i | 1 <= i < |ns'| ensures BlackBalanced(ns', bh', i) && NoRedRedExcept(ns', i, z) {
      if i < z {
        assert Inside(ns, ns[i]);
        assert BlackBalanced(ns, bh, i) && NoRedRedExcept(ns, i, Nil);
      }
    }
  }

  // ---------------------------------------------------------------------------
  // The reference insertion on value sequences

  /**
   * Insertion into a sorted sequence that places `v` after every element not
   * greater than it, which is where the tree's descent puts an equal value.
   */
  function InsertSorted(s: seq<int>, v: int): (r: seq<int>)
    ensures multiset(r) == multiset(s) + multiset{v}
    ensures |r| == |s| + 1
  {
    if s == [] then [v]
    else if v < s[0] then [v] + s
    else
      assert s == [s[0]] + s[1..];
      [s[0]] + InsertSorted(s[1..], v)
  }

  /** `InsertSorted` keeps a sorted sequence sorted. */
  lemma {:induction false} InsertSortedSorted(s: seq<int>, v: int)
    requires Sorted(s)
    ensures Sorted(InsertSorted(s, v))
  {
    if s != [] && s[0] <= v {
      var r' := InsertSorted(s[1..], v);
      InsertSortedSorted(s[1..], v);
      forall q | 0 <= q < |r'| ensures s[0] <= r'[q] {
        assert r'[q] in multiset(r');
        assert r'[q] in multiset(s[1..]) + multiset{v};
        if r'[q] != v {
          assert r'[q] in s[1..];
        }
      }
    }
  }

  /** Splicing `v` in at a position that separates the smaller-or-equal from the greater values is `InsertSorted`. */
  lemma {:induction false} SpliceIsInsertSorted(s: seq<int>, v: int, k: nat)
    requires Separates(s, v, k)
    ensures s[..k] + [v] + s[k..] == InsertSorted(s, v)
  {
    if s == [] {
    } else if k == 0 {
    } else {
      assert s[0] <= v;
      SpliceIsInsertSorted(s[1..], v, k - 1);
      assert s[1..][..k - 1] == s[1..k];
      assert s[1..][k - 1..] == s[k..];
      assert s[..k] == [s[0]] + s[1..k];
    }
  }
}
