# Red-black tree with a shared nil sentinel, in Dafny

This project models the red-black tree of `exam-rbt/src/redblacktree.js` and
proves what its operations do: insertion with the classic bottom-up fixup,
the two rotations, and the in-order and level-order traversals.

The JavaScript tree is a graph of mutable node objects. Each node has a
value, a colour and `left`, `right` and `parent` links. One shared, Black
`nil` node stands for every missing child and for the root's parent, and its
own links point to itself. The model keeps that graph in an *arena*:

- the class `RedBlackTree` holds a field `nodes: seq<Node>`;
- index 0 is the sentinel and every link is an index into the arena;
- `root` is an index, with 0 meaning an empty tree.

Pointer writes become updates of `nodes`. Nodes are never removed, so every
index from 1 up is a node of the tree.

Proofs need a description of the tree's shape that can be checked one node
at a time. It lives in two ghost fields:

- `shape`: each node's in-order position, the half-open interval of in-order
  positions its subtree covers, the list of nodes in in-order, and, for every
  empty place of the tree, the nil link that sits there;
- `bh`: each node's black height.

With these, "is a binary search tree whose in-order values are sorted" and
"every path down to the sentinel meets the same number of Black nodes" are
local conditions. Rotations change only a few entries of them.

The modules follow the JavaScript file:

- `rbt_arena.dfy` (`RbArena`): nodes, the sentinel, and the well-formedness
  and colour invariants.
- `rbt_rotation.dfy` (`RbRotation`): what `leftRotate`/`rightRotate` do to
  the links, the link writes themselves, and proofs that a rotation keeps the
  tree well formed with the same in-order sequence.
- `rbt_attach.dfy` (`RbAttach`): the descent of `insert` and how the new Red
  leaf is linked in. The in-order values become `InsertSorted` of the old
  ones.
- `rbt_fixup.dfy` (`RbFixup`): the cases of `insertFixup`, each proved as a
  step from one loop state to the next.
- `rbt_traversal.dfy` (`RbTraversal`): the visit orders of the two traversals.
- `rbt_paths.dfy` (`RbPaths`): the black-height rule stated on explicit
  root-to-sentinel paths.
- `red_black_tree.dfy` (`RedBlackTrees`): the class with the constructor,
  `Insert`, `InsertFixup`, the rotations and the traversals as methods.
- `rbt_scenario.dfy` (`RbScenario`): the insertion sequence of
  `exam-rbt/src/test_redblacktree.js`.

Search order: the descent goes left only when the new value is strictly
smaller, so an equal value goes right, after the values already stored. The
code therefore keeps the in-order sequence sorted *non-strictly*. After
rotations, a node can have an equal value in its left subtree: inserting 5,
5, 5 rotates the second 5 to the top with the first one on its left. "Every
left-subtree value is strictly smaller" is therefore not an invariant of this
code. The model proves the non-strict order, together with the exact
position at which an inserted value lands.

## Model

| member | source | states |
|---|---|---|
| RedBlackTrees.RedBlackTree.constructor | exam-rbt/src/redblacktree.js:20-27 | the new tree is only the sentinel, Black with all three links to itself; the root is the sentinel; the tree is a valid red-black tree with no values |
| RedBlackTrees.RedBlackTree.NotifyChange | exam-rbt/src/redblacktree.js:29-33 | appends the current tree to the notification log and changes nothing else |
| RedBlackTrees.RedBlackTree.FindParent | exam-rbt/src/redblacktree.js:37-48 | the descent ends at the node under whose empty left (value smaller) or right (otherwise) link the value belongs, or at the sentinel for an empty tree; every stored value before that in-order position is at most `v`, every one from it on is greater |
| RedBlackTrees.RedBlackTree.AttachLeaf | exam-rbt/src/redblacktree.js:50-62 | the new node is a Red leaf whose parent is the last node visited; it becomes the root of an empty tree, else the left or right child by the same comparison; the in-order values become `InsertSorted(old values, v)`, and only the new node can break the colour rules |
| RedBlackTrees.RedBlackTree.Insert | exam-rbt/src/redblacktree.js:35-67 | from a red-black tree: the result is a red-black tree (Black root, no Red node with a Red child, equal black heights, search order); the values are the old ones with `v` inserted after every value at most `v`; the arena grows by one node holding `v`; at least two notifications are appended, the first showing the tree just after the new leaf is linked in at the descent's end, the last showing the final tree; exactly two when the new leaf's parent is Black, in particular for an empty tree |
| RedBlackTrees.RedBlackTree.InsertFixup | exam-rbt/src/redblacktree.js:135-180 | from a tree whose only colour violation is the Red node `z`, the loop ends with a red-black tree; the nodes keep their values and in-order positions, so the in-order values are unchanged; notifications are only appended: none when the parent of `z` is Black, at least one otherwise |
| RedBlackTrees.RedBlackTree.FixLeftParent | exam-rbt/src/redblacktree.js:139-157 | one pass under a left parent restores the loop invariant for the new `z`; the new `z` is the grandparent for a Red uncle, the old parent in the inner case, and the old `z` in the outer case; when the loop goes on, the subtree of `z` has grown, which makes the loop terminate; it appends one notification for a Red uncle, three in the outer case and five in the inner case |
| RedBlackTrees.RedBlackTree.FixRightParent | exam-rbt/src/redblacktree.js:158-177 | the same for a right parent |
| RedBlackTrees.RedBlackTree.RotateInnerLeft | exam-rbt/src/redblacktree.js:148-151 | `z` is the inner (right) child of a left parent with a Black uncle: `z` becomes the parent and the links become `LeftRotated` at it, with the two rotation snapshots appended; the old `z` is now the parent of the new `z`, which is its outer left child, the uncle stays Black and the loop invariant holds |
| RedBlackTrees.RedBlackTree.RotateInnerRight | exam-rbt/src/redblacktree.js:167-170 | the mirror image, with the links `RightRotated` at the parent |
| RedBlackTrees.RedBlackTree.FixOuterLeft | exam-rbt/src/redblacktree.js:153-156 | the parent of `z` is painted Black and the grandparent Red; the links become `RightRotated` at the grandparent of that recoloured tree; the recoloured tree is notified, then notified again by the rotation, which notifies the rotated tree last: exactly three snapshots; afterwards the parent of `z` is Black and the loop invariant holds |
| RedBlackTrees.RedBlackTree.FixOuterRight | exam-rbt/src/redblacktree.js:172-175 | the mirror image, with the links `LeftRotated` at the grandparent |
| RedBlackTrees.RedBlackTree.RecolourUncle | exam-rbt/src/redblacktree.js:141-146 | parent and uncle become Black, the grandparent Red, nothing else changes; `z` becomes the grandparent, whose black height grows by one; one notification is appended |
| RedBlackTrees.RedBlackTree.LeftRotate | exam-rbt/src/redblacktree.js:69-100 | with no right child, or with a root whose parent is not the sentinel, nothing changes and nothing is notified; otherwise the tree is notified before and after, and on a well-formed tree the links are exactly `LeftRotated`, the tree stays well formed and the in-order values are unchanged |
| RedBlackTrees.RedBlackTree.RightRotate | exam-rbt/src/redblacktree.js:102-133 | the mirror image of `LeftRotate` |
| RedBlackTrees.RedBlackTree.InOrderTraversal | exam-rbt/src/redblacktree.js:182-191 | the nodes visited are the subtree's slice of the in-order sequence; from the root, every node exactly once, with values in non-decreasing order |
| RedBlackTrees.RedBlackTree.LevelOrderTraversal | exam-rbt/src/redblacktree.js:193-211 | visits each node of the subtree as often as it occurs in it and no other node, each after its parent; from the root, every node exactly once |
| RbRotation.LeftRotationLinks | exam-rbt/src/redblacktree.js:81-98 | the four link writes of a left rotation; when `x`, its right child, that child's left child and `x`'s parent are pairwise distinct, the result is `LeftRotated`: `y` takes `x`'s place under `x`'s parent (or becomes the root), `x` becomes `y`'s left child, `y`'s old left subtree becomes `x`'s right one, and no other node changes |
| RbRotation.RightRotationLinks | exam-rbt/src/redblacktree.js:114-131 | the mirror image |
| RbRotation.HandOver | exam-rbt/src/redblacktree.js:82-85 | `x`'s child link is set to `b`, and `b`, unless it is the sentinel, gets `x` as its parent; no other node changes |
| RbRotation.Replace | exam-rbt/src/redblacktree.js:87-95 | `y` gets `x`'s parent, that parent's link to `x` (or the root) now points to `y`; no other node changes |
| RbRotation.LeftRotationWf | exam-rbt/src/redblacktree.js:80-99 | a left rotation of a well-formed search tree is well formed, with the same in-order sequence of nodes and values |
| RbRotation.RightRotationWf | exam-rbt/src/redblacktree.js:113-132 | the same for a right rotation |
| RbRotation.LeftRotatedPaint | exam-rbt/src/redblacktree.js:81-98 | a rotation changes no node's value or colour |
| RbAttach.StepDown | exam-rbt/src/redblacktree.js:43-47 | at each node of the descent, the values before its in-order position are at most its value and those after are at least its value, so going left on smaller and right otherwise narrows down the place of the new value |
| RbAttach.AttachWf | exam-rbt/src/redblacktree.js:50-62 | linking the leaf where the descent ended keeps the search tree well formed; its in-order values gain `v` at the descent's position |
| RbAttach.AttachFixupReady | exam-rbt/src/redblacktree.js:50-62 | after attaching a Red leaf to a red-black tree, all rules hold except possibly Red-under-Red at the leaf |
| RbAttach.SplicedSorted | exam-rbt/src/redblacktree.js:40-58 | splicing `v` in at the descent's position keeps the values sorted |
| RbAttach.InsertSorted | exam-rbt/src/redblacktree.js:35-67 | the reference for the values after an insertion: the old values plus `v`, as multisets, one longer |
| RbAttach.InsertSortedSorted | exam-rbt/src/redblacktree.js:35-67 | inserting into a sorted sequence keeps it sorted |
| RbAttach.SpliceIsInsertSorted | exam-rbt/src/redblacktree.js:40-58 | splicing at the descent's position is exactly `InsertSorted`: an equal value goes after the values already stored |
| RbFixup.SameLinksWf | exam-rbt/src/redblacktree.js:142-144 | recolouring nodes keeps the search tree and its in-order values |
| RbFixup.RedUncleStep | exam-rbt/src/redblacktree.js:141-146 | with a Red uncle, the recolouring leaves the only possible violation at the grandparent, one black level higher; the links do not change and the grandparent's subtree is larger than `z`'s |
| RbFixup.InnerLeftStep | exam-rbt/src/redblacktree.js:148-151 | rotating left at the Red parent of an inner right child turns the old parent into the outer left child of `z`; the loop invariant holds with the old parent as the new `z` |
| RbFixup.OuterLeftStep | exam-rbt/src/redblacktree.js:153-156 | painting the parent Black and the grandparent Red and rotating right at the grandparent leaves no violation, and the parent of `z` is Black |
| RbFixup.InnerRightStep | exam-rbt/src/redblacktree.js:167-170 | the mirror image of `InnerLeftStep` |
| RbFixup.OuterRightStep | exam-rbt/src/redblacktree.js:172-175 | the mirror image of `OuterLeftStep` |
| RbFixup.FixupDone | exam-rbt/src/redblacktree.js:179 | once the parent of `z` is Black, painting the root Black gives a red-black tree with the same values |
| RbTraversal.InOrderSplit | exam-rbt/src/redblacktree.js:183-189 | the in-order list of a subtree is that of its left subtree, then the node, then that of its right subtree; both children's subtrees are smaller |
| RbTraversal.OrderVisitsEachOnce | exam-rbt/src/redblacktree.js:182-191 | the in-order list of the whole tree holds every node exactly once |
| RbTraversal.LevelStep | exam-rbt/src/redblacktree.js:200-210 | taking the queue head and enqueueing its non-nil children keeps "visited plus the subtrees still queued is the whole subtree", keeps every node after its parent, and shrinks the work still queued |
| RbTraversal.WholeTreeOnce | exam-rbt/src/redblacktree.js:193-211 | a visit list holding the whole tree's nodes as a multiset holds each node exactly once |
| RbTraversal.VisitedAfterParents | exam-rbt/src/redblacktree.js:193-211 | the loop invariant of the walk, unfolded once the queue is empty: every visited node other than the start node comes after its parent |
| RbTraversal.Push | exam-rbt/src/redblacktree.js:204-209 | a child is enqueued at the back exactly when it is not the sentinel |
| RbPaths.BlacksAlongPath | exam-rbt/src/redblacktree.js:135-180 | along any downward path the black height drops by the number of Black nodes met |
| RbPaths.PathToNil | exam-rbt/src/redblacktree.js:135-180 | every path from a node down to the sentinel meets exactly that node's black height of Black nodes |
| RbPaths.EqualBlackPaths | exam-rbt/src/redblacktree.js:135-180 | any two paths from the same node down to the sentinel meet equally many Black nodes |
| RbScenario.ScenarioValues | exam-rbt/src/test_redblacktree.js:5-9 | inserting 10, 20, 17, 89 and 1 one after another gives the values 1, 10, 17, 20, 89 |
| RbScenario.InsertScenario | exam-rbt/src/test_redblacktree.js:3-14 | the script’s steps on a fresh tree: the in-order walk from the root yields 1, 10, 17, 20, 89 and the level-order walk visits five nodes |

## Left out

- Console output: the traversals print each node, and the rotation guards
  print a message. The traversals return the visited node indices in order
  instead. The guards return without a change, as in the code.
- The `onChange` callback: `NotifyChange` appends a snapshot of the tree to a
  log, whether or not a listener is installed. What a listener does with it
  is not modelled.
- JavaScript values: node values are unbounded integers compared with `<`.
  NaN, mixed-type comparison and the sentinel's `null` value are not
  modelled; the sentinel's value is 0 and is never compared.
- The visualiser and the application shell (`RedBlackTreeVisualizer.jsx`,
  `App.jsx`) are not part of this model.
- RedBlackTrees.RedBlackTree.Insert: it requires a red-black tree. Every tree
  built by the constructor and `Insert` is one, but a tree whose nodes were
  changed by other means is not covered.
- RedBlackTrees.RedBlackTree.InsertFixup: over the whole loop, the number of
  notifications is stated only as "none" or "at least one"; the exact count
  of each pass is stated by `FixLeftParent` and `FixRightParent`.
- RedBlackTrees.RedBlackTree.LeftRotate: the exact links are stated only for
  a well-formed tree. On an arbitrary arena the method is still modelled
  write for write, but only "links stay in range" is proved. The same holds
  for `RightRotate`, `LeftRotationLinks` and `RightRotationLinks`, whose
  exact effect is stated when the nodes involved are pairwise distinct.
- RedBlackTrees.RedBlackTree.LevelOrderTraversal: the visit order is stated
  as "each node after its parent", not as level by level.
- RbScenario.InsertScenario: the concrete final shape (17 at the root, and
  so on) is not stated. The contracts of `Insert` fix the values and the
  colour rules, not the exact links.
- The logarithmic height bound that the colour rules imply is not stated.
- Aliasing: node objects become indices and the tree's arena is a `seq`
  field, so no other object can share or change the nodes.
