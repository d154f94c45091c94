/**
 * What the two traversals visit, stated through the in-order shape: the
 * subtree at `t` is the slice `[lo[t], hi[t])` of the in-order sequence, and a
 * queue of pending subtrees stands for the multiset of nodes still to visit.
 */
module RbTraversal {
  import opened RbArena

  /**
   * The nodes of the subtree at `t`, in in-order: the slice of the in-order
   * sequence that `t`'s interval covers (empty for the sentinel).
   */
  function SubtreeOrder(sh: Shape, t: nat): (ts: seq<nat>) {
    if 1 <= t < |sh.lo| && t < |sh.hi| && sh.lo[t] <= sh.hi[t] <= |sh.order|
    then sh.order[sh.lo[t]..sh.hi[t]]
    else []
  }

  /** The nodes of the subtree at `t`, as a multiset. */
  ghost function Subtree(sh: Shape, t: nat): (m: multiset<nat>) {
    multiset(SubtreeOrder(sh, t))
  }

  /** The left subtree of node `t` is the part of `t`'s slice before `t`. */
  lemma LeftOrder(ns: seq<Node>, root: nat, sh: Shape, t: nat)
    requires Wf(ns, root, sh) && 1 <= t < |ns|
    ensures sh.lo[t] <= sh.pos[t] < sh.hi[t] <= |sh.order|
    ensures SubtreeOrder(sh, ns[t].left) == sh.order[sh.lo[t]..sh.pos[t]]
    ensures Size(ns, root, sh, ns[t].left) < Size(ns, root, sh, t)
  {
    assert Inside(ns, ns[t]) && Placed(ns, sh, t);
  }

  /** The right subtree of node `t` is the part of `t`'s slice after `t`. */
  lemma RightOrder(ns: seq<Node>, root: nat, sh: Shape, t: nat)
    requires Wf(ns, root, sh) && 1 <= t < |ns|
    ensures sh.lo[t] <= sh.pos[t] < sh.hi[t] <= |sh.order|
    ensures SubtreeOrder(sh, ns[t].right) == sh.order[sh.pos[t] + 1..sh.hi[t]]
    ensures Size(ns, root, sh, ns[t].right) < Size(ns, root, sh, t)
  {
    assert Inside(ns, ns[t]) && Placed(ns, sh, t);
  }

  /** The in-order sequence of a subtree is its left part, its top, its right part. */
  lemma InOrderSplit(ns: seq<Node>, root: nat, sh: Shape, t: nat)
    requires Wf(ns, root, sh) && 1 <= t < |ns|
    ensures Inside(ns, ns[t])
    ensures Size(ns, root, sh, ns[t].left) < Size(ns, root, sh, t)
    ensures Size(ns, root, sh, ns[t].right) < Size(ns, root, sh, t)
    ensures SubtreeOrder(sh, t) == SubtreeOrder(sh, ns[t].left) + [t] + SubtreeOrder(sh, ns[t].right)
  {
    assert Inside(ns, ns[t]) && Placed(ns, sh, t);
    LeftOrder(ns, root, sh, t);
    RightOrder(ns, root, sh, t);
    var o, lo, pos, hi := sh.order, sh.lo[t], sh.pos[t], sh.hi[t];
    assert o[lo..hi] == o[lo..pos] + [o[pos]] + o[pos + 1..hi];
  }

  lemma SubtreeSplit(ns: seq<Node>, root: nat, sh: Shape, t: nat)
    requires Wf(ns, root, sh) && 1 <= t < |ns|
    ensures Inside(ns, ns[t])
    ensures Subtree(sh, t) == Subtree(sh, ns[t].left) + multiset{t} + Subtree(sh, ns[t].right)
  {
    InOrderSplit(ns, root, sh, t);
  }

  /** The nodes of all subtrees whose tops wait in `queue`. */
  ghost function Pending(sh: Shape, queue: seq<nat>): (m: multiset<nat>)
    decreases |queue|
  {
    if queue == [] then multiset{}
    else Subtree(sh, queue[0]) + Pending(sh, queue[1..])
  }

  lemma {:induction false} PendingAppend(sh: Shape, queue: seq<nat>, a: nat)
    ensures Pending(sh, queue + [a]) == Pending(sh, queue) + Subtree(sh, a)
    decreases |queue|
  {
    if queue == [] {
      assert [a][1..] == [];
    } else {
      assert (queue + [a])[1..] == queue[1..] + [a];
      PendingAppend(sh, queue[1..], a);
    }
  }

  /** A sequence without repetitions holds each of its elements once. */
  lemma {:induction false} OnceInDistinct(s: seq<nat>, x: nat)
    requires forall p, q :: 0 <= p < q < |s| ==> s[p] != s[q]
    requires x in s
    ensures multiset(s)[x] == 1
  {
    if s[0] == x {
      assert x !in s[1..];
      assert s == [s[0]] + s[1..];
    } else {
      OnceInDistinct(s[1..], x);
      assert s == [s[0]] + s[1..];
    }
  }

  /**
   * The in-order sequence of the whole tree is the root's subtree and holds
   * every node exactly once.
   */
  lemma OrderVisitsEachOnce(ns: seq<Node>, root: nat, sh: Shape)
    requires Wf(ns, root, sh)
    ensures SubtreeOrder(sh, root) == sh.order
    ensures |sh.order| == |ns| - 1
    ensures forall i :: 1 <= i < |ns| ==> multiset(sh.order)[i] == 1
  {
    RootFacts(ns, root, sh);
    var o := sh.order;
    forall p, q | 0 <= p < q < |o| ensures o[p] != o[q] {
      assert Ranked(ns, sh, p) && Ranked(ns, sh, q);
    }
    forall i | 1 <= i < |ns| ensures multiset(o)[i] == 1 {
      assert Placed(ns, sh, i);
      assert o[sh.pos[i]] == i;
      OnceInDistinct(o, i);
    }
  }

  /** A walk that visits the root's subtree visits every node exactly once. */
  lemma WholeTreeOnce(ns: seq<Node>, root: nat, sh: Shape, visited: seq<nat>)
    requires Wf(ns, root, sh) && multiset(visited) == Subtree(sh, root)
    ensures forall i :: 1 <= i < |ns| ==> multiset(visited)[i] == 1
  {
    OrderVisitsEachOnce(ns, root, sh);
  }

  // ---------------------------------------------------------------------------
  // Breadth-first order

  /** The part a visit enqueues for one child: nothing for the sentinel. */
  function Enqueued(c: nat): (e: seq<nat>) {
    if c != Nil then [c] else []
  }

  /** The children of `i` that are nodes, left before right: what a visit enqueues. */
  function Kids(ns: seq<Node>, i: nat): (ks: seq<nat>)
    requires i < |ns|
    ensures |ks| <= 2
    ensures forall j :: 0 <= j < |ks| ==> ks[j] == ns[i].left || ks[j] == ns[i].right
    ensures forall j :: 0 <= j < |ks| ==> ks[j] != Nil
  {
    Enqueued(ns[i].left) + Enqueued(ns[i].right)
  }

  /**
   * The state of a breadth-first walk of the subtree at `t`: the visited
   * nodes and the subtrees waiting in `queue` together make up the subtree,
   * and every node visited or waiting, except `t` itself, has its parent
   * visited before it.
   */
  ghost predicate LevelState(ns: seq<Node>, sh: Shape, t: nat, queue: seq<nat>, visited: seq<nat>) {
    && ParentsFirst(ns, t, queue, visited)
    && multiset(visited) + Pending(sh, queue) == Subtree(sh, t)
  }

  /** Nodes are in the arena, and each one but `t` comes after its parent. */
  predicate ParentsFirst(ns: seq<Node>, t: nat, queue: seq<nat>, visited: seq<nat>) {
    && (forall j {:trigger Waiting(ns, t, queue, visited, j)} :: 0 <= j < |queue| ==> Waiting(ns, t, queue, visited, j))
    && (forall j {:trigger Visited(ns, t, visited, j)} :: 0 <= j < |visited| ==> Visited(ns, t, visited, j))
  }

  /** The node waiting at `queue[j]` is in the arena and, unless it is `t`, its parent was visited. */
  predicate Waiting(ns: seq<Node>, t: nat, queue: seq<nat>, visited: seq<nat>, j: nat)
    requires j < |queue|
  {
    1 <= queue[j] < |ns| && (queue[j] != t ==> ns[queue[j]].parent in visited)
  }

  /** The node visited at `visited[j]` is in the arena and, unless it is `t`, its parent was visited before. */
  predicate Visited(ns: seq<Node>, t: nat, visited: seq<nat>, j: nat)
    requires j < |visited|
  {
    1 <= visited[j] < |ns| && (visited[j] != t ==> ns[visited[j]].parent in visited[..j])
  }

  /** What `ParentsFirst` says about the visited nodes, written out. */
  lemma VisitedAfterParents(ns: seq<Node>, t: nat, queue: seq<nat>, visited: seq<nat>)
    requires ParentsFirst(ns, t, queue, visited)
    ensures forall j :: 0 <= j < |visited| ==> 1 <= visited[j] < |ns|
    ensures forall j :: 0 <= j < |visited| && visited[j] != t ==> ns[visited[j]].parent in visited[..j]
  {
    forall j | 0 <= j < |visited| ensures 1 <= visited[j] < |ns| && (visited[j] != t ==> ns[visited[j]].parent in visited[..j]) {
      assert Visited(ns, t, visited, j);
    }
  }

  /** The walk starts with `t` alone in the queue, or with nothing for the sentinel. */
  lemma LevelStart(ns: seq<Node>, sh: Shape, t: nat)
    requires t < |ns|
    ensures LevelState(ns, sh, t, if t != Nil then [t] else [], [])
  {
    var q: seq<nat> := if t != Nil then [t] else [];
    if t != Nil {
      assert q[1..] == [];
      assert Pending(sh, q) == Subtree(sh, t);
    }
  }

  /** Appends child `c` to the queue unless it is the sentinel. */
  method Push(queue: seq<nat>, c: nat) returns (q: seq<nat>)
    ensures q == queue + Enqueued(c)
    ensures c == Nil ==> q == queue
  {
    q := queue;
    if c != Nil {
      q := q + [c];
    }
  }

  /** Enqueueing the children one after the other appends `Kids`. */
  lemma EnqueueKids(ns: seq<Node>, i: nat, queue: seq<nat>)
    requires i < |ns|
    ensures queue + Enqueued(ns[i].left) + Enqueued(ns[i].right) == queue + Kids(ns, i)
  {
    assert Kids(ns, i) == Enqueued(ns[i].left) + Enqueued(ns[i].right);
  }

  /** The children a visit enqueues hang under the visited node. */
  lemma KidsBelow(ns: seq<Node>, root: nat, sh: Shape, i: nat)
    requires Wf(ns, root, sh) && 1 <= i < |ns|
    ensures forall j :: 0 <= j < |Kids(ns, i)| ==> 1 <= Kids(ns, i)[j] < |ns| && ns[Kids(ns, i)[j]].parent == i
  {
    assert Inside(ns, ns[i]) && ChildLinked(ns, i);
  }

  lemma PendingEnqueue(sh: Shape, queue: seq<nat>, c: nat)
    ensures Pending(sh, queue + Enqueued(c)) == Pending(sh, queue) + Subtree(sh, c)
  {
    if c != Nil {
      PendingAppend(sh, queue, c);
    } else {
      assert queue + Enqueued(c) == queue;
    }
  }

  /** Visiting the front of the queue replaces its subtree by its children's subtrees. */
  lemma PendingStep(ns: seq<Node>, root: nat, sh: Shape, queue: seq<nat>)
    requires Wf(ns, root, sh) && queue != [] && 1 <= queue[0] < |ns|
    ensures Pending(sh, queue[1..] + Kids(ns, queue[0])) + multiset{queue[0]} == Pending(sh, queue)
  {
    var node, rest := queue[0], queue[1..];
    SubtreeSplit(ns, root, sh, node);
    var l, r := ns[node].left, ns[node].right;
    assert Kids(ns, node) == Enqueued(l) + Enqueued(r);
    assert rest + Kids(ns, node) == (rest + Enqueued(l)) + Enqueued(r);
    PendingEnqueue(sh, rest, l);
    PendingEnqueue(sh, rest + Enqueued(l), r);
  }

  /** Moving the front of the queue to the visited nodes and enqueueing its children keeps parents first. */
  lemma ParentsStep(ns: seq<Node>, t: nat, queue: seq<nat>, visited: seq<nat>, ks: seq<nat>)
    requires ParentsFirst(ns, t, queue, visited) && queue != []
    requires forall j :: 0 <= j < |ks| ==> 1 <= ks[j] < |ns| && ns[ks[j]].parent == queue[0]
    ensures ParentsFirst(ns, t, queue[1..] + ks, visited + [queue[0]])
  {
    var node := queue[0];
    var q', v' := queue[1..] + ks, visited + [node];
    forall j | 0 <= j < |q'| ensures Waiting(ns, t, q', v', j) {
      if j < |queue| - 1 {
        assert q'[j] == queue[j + 1] && Waiting(ns, t, queue, visited, j + 1);
      } else {
        assert q'[j] == ks[j - |queue| + 1];
      }
    }
    forall j | 0 <= j < |v'| ensures Visited(ns, t, v', j) {
      if j < |visited| {
        assert v'[..j] == visited[..j] && Visited(ns, t, visited, j);
      } else {
        assert v'[..j] == visited && Waiting(ns, t, queue, visited, 0);
      }
    }
  }

  /**
   * One visit: the front of the queue moves to the visited nodes and its
   * children join the back; the state is kept and fewer nodes are pending.
   */
  lemma LevelStep(ns: seq<Node>, root: nat, sh: Shape, t: nat, queue: seq<nat>, visited: seq<nat>)
    requires Wf(ns, root, sh) && LevelState(ns, sh, t, queue, visited) && queue != [] && 1 <= queue[0] < |ns|
    ensures LevelState(ns, sh, t, queue[1..] + Kids(ns, queue[0]), visited + [queue[0]])
    ensures |Pending(sh, queue[1..] + Kids(ns, queue[0]))| < |Pending(sh, queue)|
  {
    var node := queue[0];
    PendingStep(ns, root, sh, queue);
    KidsBelow(ns, root, sh, node);
    ParentsStep(ns, t, queue, visited, Kids(ns, node));
    assert multiset(visited + [node]) == multiset(visited) + multiset{node};
  }
}
