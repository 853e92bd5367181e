/**
 * `_recurse_leaf_dfs` and `_get_leaves`: the leaves of the cluster tree
 * (the rows with `child_size > 1`), found depth first with children visited
 * in row order.
 */
module Leaves {
  import opened Wrappers
  import opened CondensedTrees

  /** Termination measure: a child id exceeds its parent's and is at most `ChildBound`. */
  function NodeMeasure(ct: Tree, node: int): nat {
    if node > ChildBound(ct) then 0 else ChildBound(ct) - node + 1
  }

  ghost predicate IsChildOf(ct: Tree, parent: int, k: int) {
    exists i :: 0 <= i < |ct| && ct[i].parent == parent && ct[i].child == k
  }

  ghost predicate KidsOf(ct: Tree, parent: int, kids: seq<int>) {
    forall k :: k in kids ==> IsChildOf(ct, parent, k)
  }

  lemma KidsOfTail(ct: Tree, parent: int, kids: seq<int>)
    requires KidsOf(ct, parent, kids) && kids != []
    ensures IsChildOf(ct, parent, kids[0]) && KidsOf(ct, parent, kids[1..])
  {
    assert kids[0] in kids;
    forall k | k in kids[1..] ensures IsChildOf(ct, parent, k) {
      assert k in kids;
    }
  }

  lemma KidAbove(ct: Tree, parent: int, k: int)
    requires WellFormed(ct)
    requires IsChildOf(ct, parent, k)
    ensures parent < k <= ChildBound(ct)
    ensures StrictlyBelow(ct, parent, k)
    ensures NodeMeasure(ct, k) < NodeMeasure(ct, parent)
  {
    var i :| 0 <= i < |ct| && ct[i].parent == parent && ct[i].child == k;
    EdgeDescends(ct, i);
  }

  lemma BelowThroughKid(ct: Tree, parent: int, k: int, xs: seq<int>)
    requires StrictlyBelow(ct, parent, k)
    requires forall x :: x in xs ==> DescendsFrom(ct, k, x)
    ensures forall x :: x in xs ==> DescendsFrom(ct, parent, x)
  {
    forall x | x in xs ensures DescendsFrom(ct, parent, x) {
      DescendsTransitive(ct, parent, k, x);
    }
  }

  /**
   * `_recurse_leaf_dfs(cluster_tree, node)`: `[node]` when the node has no
   * child rows, otherwise the concatenation of its children's results.
   */
  function RecurseLeafDfs(ct: Tree, node: int): (leaves: seq<int>)
    requires WellFormed(ct)
    ensures leaves != []
    ensures forall x :: x in leaves ==> ChildrenOf(ct, x) == [] && DescendsFrom(ct, node, x)
    decreases NodeMeasure(ct, node), |ct| + 1
  {
    var kids := ChildrenOf(ct, node);
    if kids == [] then [node] else LeavesOfAll(ct, node, kids)
  }

  /** `sum([_recurse_leaf_dfs(cluster_tree, k) for k in kids], [])`. */
  function LeavesOfAll(ct: Tree, parent: int, kids: seq<int>): (leaves: seq<int>)
    requires WellFormed(ct) && KidsOf(ct, parent, kids)
    ensures kids != [] ==> leaves != []
    ensures forall x :: x in leaves ==> ChildrenOf(ct, x) == [] && DescendsFrom(ct, parent, x)
    decreases NodeMeasure(ct, parent), |kids|
  {
    if kids == [] then []
    else
      KidsOfTail(ct, parent, kids);
      KidAbove(ct, parent, kids[0]);
      var first := RecurseLeafDfs(ct, kids[0]);
      BelowThroughKid(ct, parent, kids[0], first);
      first + LeavesOfAll(ct, parent, kids[1..])
  }

  lemma {:induction false} LeavesOfAllBelowKids(ct: Tree, parent: int, kids: seq<int>)
    requires WellFormed(ct) && KidsOf(ct, parent, kids)
    ensures forall x :: x in LeavesOfAll(ct, parent, kids) ==>
      exists k :: k in kids && DescendsFrom(ct, k, x)
    decreases |kids|
  {
    if kids != [] {
      KidsOfTail(ct, parent, kids);
      LeavesOfAllBelowKids(ct, parent, kids[1..]);
      assert LeavesOfAll(ct, parent, kids) ==
        RecurseLeafDfs(ct, kids[0]) + LeavesOfAll(ct, parent, kids[1..]);
      forall x | x in LeavesOfAll(ct, parent, kids)
        ensures exists k :: k in kids && DescendsFrom(ct, k, x)
      {
        if x in RecurseLeafDfs(ct, kids[0]) {
          assert kids[0] in kids;
        } else {
          var k :| k in kids[1..] && DescendsFrom(ct, k, x);
          assert k in kids;
        }
      }
    }
  }

  lemma {:induction false} LeavesOfAllContains(ct: Tree, parent: int, kids: seq<int>, k: int, x: int)
    requires WellFormed(ct) && KidsOf(ct, parent, kids)
    requires k in kids && x in RecurseLeafDfs(ct, k)
    ensures x in LeavesOfAll(ct, parent, kids)
    decreases |kids|
  {
    KidsOfTail(ct, parent, kids);
    if kids[0] != k {
      LeavesOfAllContains(ct, parent, kids[1..], k, x);
    }
  }

  /** Every childless descendant of `node` is found. */
  lemma {:induction false} RecurseLeafDfsComplete(ct: Tree, node: int, x: int)
    requires WellFormed(ct)
    requires DescendsFrom(ct, node, x) && ChildrenOf(ct, x) == []
    ensures x in RecurseLeafDfs(ct, node)
    decreases x - node
  {
    if x != node {
      FirstStep(ct, node, x);
      var i :| 0 <= i < |ct| && ct[i].parent == node && DescendsFrom(ct, ct[i].child, x);
      var k := ct[i].child;
      assert k in ChildrenOf(ct, node);
      KidAbove(ct, node, k);
      RecurseLeafDfsComplete(ct, k, x);
      LeavesOfAllContains(ct, node, ChildrenOf(ct, node), k, x);
    }
  }

  /** In a forest, two different children of one parent share no descendant. */
  lemma SiblingsDisjoint(ct: Tree, parent: int, k1: int, k2: int, x: int)
    requires WellFormed(ct) && UniqueChildren(ct)
    requires k1 != k2
    requires IsChildOf(ct, parent, k1) && IsChildOf(ct, parent, k2)
    ensures !(DescendsFrom(ct, k1, x) && DescendsFrom(ct, k2, x))
  {
    KidAbove(ct, parent, k1);
    KidAbove(ct, parent, k2);
    var i1 :| 0 <= i1 < |ct| && ct[i1].parent == parent && ct[i1].child == k1;
    var i2 :| 0 <= i2 < |ct| && ct[i2].parent == parent && ct[i2].child == k2;
    if DescendsFrom(ct, k1, x) && DescendsFrom(ct, k2, x) {
      AncestorsComparable(ct, k1, k2, x);
      if DescendsFrom(ct, k1, k2) {
        LastStepUnique(ct, k1, i2);
      } else {
        LastStepUnique(ct, k2, i1);
      }
      assert false;
    }
  }

  lemma {:induction false} RecurseLeafDfsDistinct(ct: Tree, node: int)
    requires WellFormed(ct) && UniqueChildren(ct)
    ensures Distinct(RecurseLeafDfs(ct, node))
    decreases NodeMeasure(ct, node), |ct| + 1
  {
    var kids := ChildrenOf(ct, node);
    if kids != [] {
      ChildrenInDistinct(ct, [node]);
      LeavesOfAllDistinct(ct, node, kids);
    }
  }

  lemma {:induction false} LeavesOfAllDistinct(ct: Tree, parent: int, kids: seq<int>)
    requires WellFormed(ct) && UniqueChildren(ct) && KidsOf(ct, parent, kids) && Distinct(kids)
    ensures Distinct(LeavesOfAll(ct, parent, kids))
    decreases NodeMeasure(ct, parent), |kids|
  {
    if kids != [] {
      var k1 := kids[0];
      var rest := kids[1..];
      KidsOfTail(ct, parent, kids);
      assert Distinct(rest) by {
        forall i, j | 0 <= i < j < |rest| ensures rest[i] != rest[j] {
          assert rest[i] == kids[i + 1] && rest[j] == kids[j + 1];
        }
      }
      KidAbove(ct, parent, k1);
      RecurseLeafDfsDistinct(ct, k1);
      LeavesOfAllDistinct(ct, parent, rest);
      LeavesOfAllBelowKids(ct, parent, rest);
      forall x | x in RecurseLeafDfs(ct, k1) ensures x !in LeavesOfAll(ct, parent, rest) {
        if x in LeavesOfAll(ct, parent, rest) {
          var k2 :| k2 in rest && DescendsFrom(ct, k2, x);
          var j :| 0 <= j < |rest| && rest[j] == k2;
          assert kids[j + 1] == k2;
          SiblingsDisjoint(ct, parent, k1, k2, x);
          assert false;
        }
      }
      DistinctConcat(RecurseLeafDfs(ct, k1), LeavesOfAll(ct, parent, rest));
    }
  }

  /**
   * `_get_leaves(condensed_tree)`: the leaves of the cluster tree below its
   * smallest parent id; `None` where `parent.min()` of an empty cluster tree
   * raises.
   */
  function GetLeaves(tree: Tree): (r: Option<seq<int>>)
    requires WellFormed(ClusterTree(tree))
    ensures r.None? <==> ClusterTree(tree) == []
    ensures r.Some? ==> r.value != [] && forall x :: x in r.value ==>
      ChildrenOf(ClusterTree(tree), x) == [] &&
      DescendsFrom(ClusterTree(tree), MinParent(ClusterTree(tree)), x)
  {
    var ct := ClusterTree(tree);
    if ct == [] then None
    else Some(RecurseLeafDfs(ct, MinParent(ct)))
  }

  /**
   * The leaves are exactly the cluster-tree nodes without cluster-tree
   * children that lie below the root, and in a forest each appears once.
   */
  lemma GetLeavesExact(tree: Tree)
    requires WellFormed(ClusterTree(tree)) && ClusterTree(tree) != []
    ensures forall x :: x in GetLeaves(tree).value <==>
      ChildrenOf(ClusterTree(tree), x) == [] &&
      DescendsFrom(ClusterTree(tree), MinParent(ClusterTree(tree)), x)
    ensures UniqueChildren(tree) ==> Distinct(GetLeaves(tree).value)
  {
    var ct := ClusterTree(tree);
    ClusterTreeKeepsShape(tree);
    forall x | ChildrenOf(ct, x) == [] && DescendsFrom(ct, MinParent(ct), x)
      ensures x in GetLeaves(tree).value
    {
      RecurseLeafDfsComplete(ct, MinParent(ct), x);
    }
    if UniqueChildren(tree) {
      RecurseLeafDfsDistinct(ct, MinParent(ct));
    }
  }
}
