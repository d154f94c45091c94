/**
 * The insertion scenario of the repository's test script: 10, 20, 17, 89 and
 * 1 inserted into an empty tree, then both traversals from the root.
 */
module RbScenario {
  import opened RbArena
  import opened RbAttach
  import opened RedBlackTrees

  /** Insertion 1 of the scenario: 10 goes in at position 0. */
  lemma ScenarioStep1(s: seq<int>)
    requires s == []
    ensures InsertSorted(s, 10) == [10]
  {
    SpliceIsInsertSorted(s, 10, 0);
    assert s[..0] + [10] + s[0..] == [10];
  }

  /** Insertion 2 of the scenario: 20 goes in at position 1. */
  lemma ScenarioStep2(s: seq<int>)
    requires s == [10]
    ensures InsertSorted(s, 20) == [10, 20]
  {
    SpliceIsInsertSorted(s, 20, 1);
    assert s[..1] + [20] + s[1..] == [10, 20];
  }

  /** Insertion 3 of the scenario: 17 goes in at position 1. */
  lemma ScenarioStep3(s: seq<int>)
    requires s == [10, 20]
    ensures InsertSorted(s, 17) == [10, 17, 20]
  {
    SpliceIsInsertSorted(s, 17, 1);
    assert s[..1] + [17] + s[1..] == [10, 17, 20];
  }

  /** Insertion 4 of the scenario: 89 goes in at position 3. */
  lemma ScenarioStep4(s: seq<int>)
    requires s == [10, 17, 20]
    ensures InsertSorted(s, 89) == [10, 17, 20, 89]
  {
    SpliceIsInsertSorted(s, 89, 3);
    assert s[..3] + [89] + s[3..] == [10, 17, 20, 89];
  }

  /** Insertion 5 of the scenario: 1 goes in at position 0. */
  lemma ScenarioStep5(s: seq<int>)
    requires s == [10, 17, 20, 89]
    ensures InsertSorted(s, 1) == [1, 10, 17, 20, 89]
  {
    SpliceIsInsertSorted(s, 1, 0);
    assert s[..0] + [1] + s[0..] == [1, 10, 17, 20, 89];
  }

  /** The values of the scenario after each insertion, each in sorted position. */
  lemma ScenarioValues(s1: seq<int>, s2: seq<int>, s3: seq<int>, s4: seq<int>, s5: seq<int>)
    requires s1 == InsertSorted([], 10) && s2 == InsertSorted(s1, 20) && s3 == InsertSorted(s2, 17)
    requires s4 == InsertSorted(s3, 89) && s5 == InsertSorted(s4, 1)
    ensures s5 == [1, 10, 17, 20, 89]
  {
    ScenarioStep1([]);
    ScenarioStep2(s1);
    ScenarioStep3(s2);
    ScenarioStep4(s3);
    ScenarioStep5(s4);
  }

  /**
   * Runs the scenario and returns the values of the in-order walk and the
   * nodes of the level-order walk.
   */
  method InsertScenario() returns (inOrder: seq<int>, levelOrder: seq<nat>)
    ensures inOrder == [1, 10, 17, 20, 89]
    ensures |levelOrder| == 5
  {
    var tree := new RedBlackTree();
    tree.Insert(10);
    ghost var s1 := tree.Elements();
    tree.Insert(20);
    ghost var s2 := tree.Elements();
    tree.Insert(17);
    ghost var s3 := tree.Elements();
    tree.Insert(89);
    ghost var s4 := tree.Elements();
    tree.Insert(1);
    ScenarioValues(s1, s2, s3, s4, tree.Elements());
    var visited := tree.InOrderTraversal(tree.root);
    inOrder := ValuesAt(tree.nodes, visited);
    levelOrder := tree.LevelOrderTraversal(tree.root);
    assert |multiset(levelOrder)| == |multiset(visited)|;
  }
}
