/**
 * `_bfs_from_cluster_tree`: a level-by-level breadth-first search over a
 * condensed tree. Each level is the list of children, in row order, of the
 * rows whose parent lies in the previous level.
 */
module ClusterBfs {
  import opened CondensedTrees

  function Min(s: seq<int>): (m: int)
    requires s != []
    ensures m in s && forall x :: x in s ==> m <= x
  {
    if |s| == 1 then s[0]
    else
      var m := Min(s[1..]);
      assert forall x :: x in s ==> x == s[0] || x in s[1..];
      if s[0] <= m then s[0] else m
  }

  /**
   * Termination measure of the search: the smallest id of a non-empty level
   * grows from one level to the next and cannot pass the largest child id.
   */
  function LevelMeasure(tree: Tree, frontier: seq<int>): nat {
    if frontier == [] then 0
    else if Min(frontier) > ChildBound(tree) then 1
    else ChildBound(tree) - Min(frontier) + 2
  }

  lemma LevelMeasureDecreases(tree: Tree, frontier: seq<int>)
    requires WellFormed(tree) && frontier != []
    ensures LevelMeasure(tree, ChildrenIn(tree, frontier)) < LevelMeasure(tree, frontier)
  {
    var next := ChildrenIn(tree, frontier);
    if next != [] {
      var m := Min(next);
      var i :| 0 <= i < |tree| && tree[i].parent in frontier && tree[i].child == m;
      assert Min(frontier) <= tree[i].parent;
    }
  }

  /** The nodes listed by the search started from `frontier`, level after level. */
  function BfsOrder(tree: Tree, frontier: seq<int>): seq<int>
    requires WellFormed(tree)
    decreases LevelMeasure(tree, frontier)
  {
    if frontier == [] then []
    else
      LevelMeasureDecreases(tree, frontier);
      frontier + BfsOrder(tree, ChildrenIn(tree, frontier))
  }

  /** No member of the level lies strictly below another member. */
  ghost predicate Antichain(tree: Tree, s: seq<int>) {
    forall a, b :: a in s && b in s ==> !StrictlyBelow(tree, a, b)
  }

  /** Everything listed lies below (or is) some node of the starting level. */
  lemma {:induction false} BfsBelowFrontier(tree: Tree, frontier: seq<int>)
    requires WellFormed(tree)
    ensures forall x :: x in BfsOrder(tree, frontier) ==>
      exists y :: y in frontier && DescendsFrom(tree, y, x)
    decreases LevelMeasure(tree, frontier)
  {
    if frontier != [] {
      var next := ChildrenIn(tree, frontier);
      LevelMeasureDecreases(tree, frontier);
      BfsBelowFrontier(tree, next);
      assert BfsOrder(tree, frontier) == frontier + BfsOrder(tree, next);
      forall x | x in BfsOrder(tree, frontier)
        ensures exists y :: y in frontier && DescendsFrom(tree, y, x)
      {
        if x in frontier {
          assert DescendsFrom(tree, x, x);
        } else {
          var c :| c in next && DescendsFrom(tree, c, x);
          var i :| 0 <= i < |tree| && tree[i].parent in frontier && tree[i].child == c;
          EdgeDescends(tree, i);
          DescendsTransitive(tree, tree[i].parent, c, x);
        }
      }
    }
  }

  /** Once a parent is listed, so is the child of each of its rows. */
  lemma {:induction false} BfsReachesChild(tree: Tree, frontier: seq<int>, i: int)
    requires WellFormed(tree) && 0 <= i < |tree|
    requires tree[i].parent in BfsOrder(tree, frontier)
    ensures tree[i].child in BfsOrder(tree, frontier)
    decreases LevelMeasure(tree, frontier)
  {
    var next := ChildrenIn(tree, frontier);
    LevelMeasureDecreases(tree, frontier);
    assert BfsOrder(tree, frontier) == frontier + BfsOrder(tree, next);
    if tree[i].parent in frontier {
      assert tree[i].child in next;
      assert BfsOrder(tree, next) == next + BfsOrder(tree, ChildrenIn(tree, next));
    } else {
      BfsReachesChild(tree, next, i);
    }
  }

  /** Every descendant of the start node is listed. */
  lemma {:induction false} BfsComplete(tree: Tree, root: int, x: int)
    requires WellFormed(tree) && DescendsFrom(tree, root, x)
    ensures x in BfsOrder(tree, [root])
    decreases x - root
  {
    LevelMeasureDecreases(tree, [root]);
    assert BfsOrder(tree, [root]) == [root] + BfsOrder(tree, ChildrenIn(tree, [root]));
    if x != root {
      var i :| 0 <= i < |tree| && tree[i].child == x && root <= tree[i].parent < x &&
               DescendsFrom(tree, root, tree[i].parent);
      BfsComplete(tree, root, tree[i].parent);
      BfsReachesChild(tree, [root], i);
    }
  }

  /** Two members of an antichain level are not strictly below one another. */
  lemma AntichainAt(tree: Tree, s: seq<int>, x: int, y: int)
    requires Antichain(tree, s) && x in s && y in s
    ensures !StrictlyBelow(tree, x, y)
  {
  }

  /** In a forest the next level of an antichain is again an antichain. */
  lemma NextLevelAntichain(tree: Tree, frontier: seq<int>)
    requires WellFormed(tree) && UniqueChildren(tree) && Antichain(tree, frontier)
    ensures Antichain(tree, ChildrenIn(tree, frontier))
  {
    var next := ChildrenIn(tree, frontier);
    forall a, b | a in next && b in next ensures !StrictlyBelow(tree, a, b) {
      if StrictlyBelow(tree, a, b) {
        var i :| 0 <= i < |tree| && tree[i].parent in frontier && tree[i].child == a;
        var j :| 0 <= j < |tree| && tree[j].parent in frontier && tree[j].child == b;
        var p, q := tree[i].parent, tree[j].parent;
        AntichainAt(tree, frontier, p, q);
        LastStepUnique(tree, a, j);
        assert p < a <= q;
        EdgeDescends(tree, i);
        DescendsTransitive(tree, p, a, q);
        assert false;
      }
    }
  }

  /** Nothing found below an antichain level is a member of that level. */
  lemma LevelDisjointFromLater(tree: Tree, frontier: seq<int>)
    requires WellFormed(tree) && Antichain(tree, frontier)
    ensures forall x :: x in frontier ==> x !in BfsOrder(tree, ChildrenIn(tree, frontier))
  {
    var next := ChildrenIn(tree, frontier);
    BfsBelowFrontier(tree, next);
    forall x | x in frontier ensures x !in BfsOrder(tree, next) {
      if x in BfsOrder(tree, next) {
        var c :| c in next && DescendsFrom(tree, c, x);
        var i :| 0 <= i < |tree| && tree[i].parent in frontier && tree[i].child == c;
        AntichainAt(tree, frontier, tree[i].parent, x);
        EdgeDescends(tree, i);
        DescendsTransitive(tree, tree[i].parent, c, x);
        assert false;
      }
    }
  }

  /** In a forest the search never lists a node twice. */
  lemma {:induction false} BfsDistinctFrom(tree: Tree, frontier: seq<int>)
    requires WellFormed(tree) && UniqueChildren(tree)
    requires Distinct(frontier) && Antichain(tree, frontier)
    ensures Distinct(BfsOrder(tree, frontier))
    decreases LevelMeasure(tree, frontier)
  {
    if frontier != [] {
      var next := ChildrenIn(tree, frontier);
      LevelMeasureDecreases(tree, frontier);
      ChildrenInDistinct(tree, frontier);
      NextLevelAntichain(tree, frontier);
      BfsDistinctFrom(tree, next);
      LevelDisjointFromLater(tree, frontier);
      DistinctConcat(frontier, BfsOrder(tree, next));
    }
  }

  /**
   * `_bfs_from_cluster_tree(tree, bfs_root)`: `result` grows by whole levels;
   * the next level is computed from the current one until it is empty.
   */
  method BfsFromClusterTree(tree: Tree, bfsRoot: int) returns (result: seq<int>)
    requires WellFormed(tree)
    ensures result == BfsOrder(tree, [bfsRoot])
    ensures result != [] && result[0] == bfsRoot
    ensures forall x :: x in result <==> DescendsFrom(tree, bfsRoot, x)
    ensures UniqueChildren(tree) ==> Distinct(result)
  {
    result := [];
    var toProcess := [bfsRoot];
    while toProcess != []
      invariant result + BfsOrder(tree, toProcess) == BfsOrder(tree, [bfsRoot])
      decreases LevelMeasure(tree, toProcess)
    {
      LevelMeasureDecreases(tree, toProcess);
      result := result + toProcess;
      toProcess := ChildrenIn(tree, toProcess);
    }
    BfsBelowFrontier(tree, [bfsRoot]);
    forall x | DescendsFrom(tree, bfsRoot, x) ensures x in result {
      BfsComplete(tree, bfsRoot, x);
    }
    if UniqueChildren(tree) {
      BfsDistinctFrom(tree, [bfsRoot]);
    }
  }
}
