/**
 * The condensed tree of HDBSCAN as an edge list: each row says that `child`
 * leaves `parent` at density `lambda` and carries `childSize` points.
 * Rows with `childSize > 1` form the "cluster tree".
 */
module CondensedTrees {

  /** One row of the condensed-tree record array. */
  datatype Edge = Edge(parent: int, child: int, lambda: real, childSize: int)

  type Tree = seq<Edge>

  /** Every child id is larger than its parent id: the order all traversals rely on. */
  predicate WellFormed(tree: Tree) {
    forall i :: 0 <= i < |tree| ==> tree[i].parent < tree[i].child
  }

  /** No node is the child of two rows: the edge list is a forest. */
  predicate UniqueChildren(tree: Tree) {
    forall i, j :: 0 <= i < j < |tree| ==> tree[i].child != tree[j].child
  }

  predicate Distinct(s: seq<int>) {
    forall i, j :: 0 <= i < j < |s| ==> s[i] != s[j]
  }

  /** `tree[tree['child_size'] > 1]`: the cluster tree, rows in their original order. */
  function ClusterTree(tree: Tree): (ct: Tree)
    ensures |ct| <= |tree|
    ensures forall e :: e in ct <==> e in tree && e.childSize > 1
  {
    if tree == [] then []
    else (if tree[0].childSize > 1 then [tree[0]] else []) + ClusterTree(tree[1..])
  }

  /** Selecting the cluster rows keeps the id order and the forest shape. */
  lemma ClusterTreeKeepsShape(tree: Tree)
    ensures WellFormed(tree) ==> WellFormed(ClusterTree(tree))
    ensures UniqueChildren(tree) ==> UniqueChildren(ClusterTree(tree))
  {
    var ct := ClusterTree(tree);
    if WellFormed(tree) {
      forall i | 0 <= i < |ct| ensures ct[i].parent < ct[i].child {
        assert ct[i] in ct;
        var k :| 0 <= k < |tree| && tree[k] == ct[i];
      }
    }
    if UniqueChildren(tree) {
      ClusterTreeUnique(tree);
    }
  }

  lemma {:induction false} ClusterTreeUnique(tree: Tree)
    requires UniqueChildren(tree)
    ensures UniqueChildren(ClusterTree(tree))
  {
    if tree != [] {
      var tail := tree[1..];
      assert UniqueChildren(tail) by {
        forall i, j | 0 <= i < j < |tail| ensures tail[i].child != tail[j].child {
          assert tail[i] == tree[i + 1] && tail[j] == tree[j + 1];
        }
      }
      ClusterTreeUnique(tail);
      var rest := ClusterTree(tail);
      if tree[0].childSize > 1 {
        forall e | e in rest ensures e.child != tree[0].child {
          var k :| 0 <= k < |tail| && tail[k] == e;
          assert tree[k + 1] == e;
        }
        UniqueCons(tree[0], rest);
        assert ClusterTree(tree) == [tree[0]] + rest;
      } else {
        assert ClusterTree(tree) == rest;
      }
    }
  }

  /** Adding a row in front of a forest keeps it a forest when its child is new. */
  lemma UniqueCons(e: Edge, rest: Tree)
    requires UniqueChildren(rest) && forall x :: x in rest ==> x.child != e.child
    ensures UniqueChildren([e] + rest)
  {
    var s := [e] + rest;
    forall i, j | 0 <= i < j < |s| ensures s[i].child != s[j].child {
      assert s[j] == rest[j - 1];
      if i == 0 {
        assert rest[j - 1] in rest;
      } else {
        assert s[i] == rest[i - 1];
      }
    }
  }

  /**
   * `tree['child'][np.in1d(tree['parent'], frontier)]`: the children, in row
   * order, of every row whose parent is in `frontier`.
   */
  function ChildrenIn(tree: Tree, frontier: seq<int>): (kids: seq<int>)
    ensures |kids| <= |tree|
    ensures forall c :: c in kids <==>
      exists i :: 0 <= i < |tree| && tree[i].parent in frontier && tree[i].child == c
  {
    if tree == [] then []
    else
      var rest := ChildrenIn(tree[1..], frontier);
      assert forall c :: c in rest <==>
        exists i :: 1 <= i < |tree| && tree[i].parent in frontier && tree[i].child == c
      by {
        forall c | c in rest
          ensures exists i :: 1 <= i < |tree| && tree[i].parent in frontier && tree[i].child == c
        {
          var k :| 0 <= k < |tree[1..]| && tree[1..][k].parent in frontier && tree[1..][k].child == c;
          assert tree[k + 1] == tree[1..][k];
        }
        forall c, i | 1 <= i < |tree| && tree[i].parent in frontier && tree[i].child == c
          ensures c in rest
        {
          assert tree[1..][i - 1] == tree[i];
        }
      }
      (if tree[0].parent in frontier then [tree[0].child] else []) + rest
  }

  /** `tree[tree['parent'] == node]['child']`: the children of one node, in row order. */
  function ChildrenOf(tree: Tree, node: int): (kids: seq<int>)
    ensures |kids| <= |tree|
    ensures forall c :: c in kids <==>
      exists i :: 0 <= i < |tree| && tree[i].parent == node && tree[i].child == c
  {
    ChildrenIn(tree, [node])
  }

  /** With unique children, the children listed for a frontier are pairwise different. */
  lemma {:induction false} ChildrenInDistinct(tree: Tree, frontier: seq<int>)
    requires UniqueChildren(tree)
    ensures Distinct(ChildrenIn(tree, frontier))
  {
    if tree != [] {
      var tail := tree[1..];
      assert UniqueChildren(tail) by {
        forall i, j | 0 <= i < j < |tail| ensures tail[i].child != tail[j].child {
          assert tail[i] == tree[i + 1] && tail[j] == tree[j + 1];
        }
      }
      ChildrenInDistinct(tail, frontier);
      var rest := ChildrenIn(tail, frontier);
      var head: seq<int> := if tree[0].parent in frontier then [tree[0].child] else [];
      assert ChildrenIn(tree, frontier) == head + rest;
      forall c | c in rest ensures c != tree[0].child {
        var k :| 0 <= k < |tail| && tail[k].parent in frontier && tail[k].child == c;
        assert tail[k] == tree[k + 1];
      }
      DistinctConcat(head, rest);
    }
  }

  lemma DistinctConcat(a: seq<int>, b: seq<int>)
    requires Distinct(a) && Distinct(b)
    requires forall x :: x in a ==> x !in b
    ensures Distinct(a + b)
  {
    forall i, j | 0 <= i < j < |a + b| ensures (a + b)[i] != (a + b)[j] {
      if j < |a| {
      } else if i < |a| {
        assert (a + b)[i] in a && (a + b)[j] == b[j - |a|];
      } else {
        assert (a + b)[i] == b[i - |a|] && (a + b)[j] == b[j - |a|];
      }
    }
  }

  /**
   * `d` is `a` or lies below `a`: a chain of rows leads from `a` down to `d`.
   * Defined from the bottom: the last row on the chain is one whose child is `d`.
   */
  ghost predicate DescendsFrom(tree: Tree, a: int, d: int)
    decreases d - a
  {
    a == d ||
    (a < d && exists i :: 0 <= i < |tree| && tree[i].child == d && a <= tree[i].parent < d &&
                          DescendsFrom(tree, a, tree[i].parent))
  }

  ghost predicate StrictlyBelow(tree: Tree, a: int, d: int) {
    a != d && DescendsFrom(tree, a, d)
  }

  /** A row is a one-step descent. */
  lemma EdgeDescends(tree: Tree, i: int)
    requires WellFormed(tree) && 0 <= i < |tree|
    ensures StrictlyBelow(tree, tree[i].parent, tree[i].child)
  {
    assert DescendsFrom(tree, tree[i].parent, tree[i].parent);
  }

  lemma {:induction false} DescendsTransitive(tree: Tree, a: int, b: int, c: int)
    requires DescendsFrom(tree, a, b) && DescendsFrom(tree, b, c)
    ensures DescendsFrom(tree, a, c)
    decreases c - b
  {
    if b != c {
      var i :| 0 <= i < |tree| && tree[i].child == c && b <= tree[i].parent < c &&
               DescendsFrom(tree, b, tree[i].parent);
      DescendsTransitive(tree, a, b, tree[i].parent);
    }
  }

  /** Below a node through one of its rows means below the row's child, or the child itself. */
  lemma {:induction false} FirstStep(tree: Tree, a: int, d: int)
    requires StrictlyBelow(tree, a, d)
    ensures exists i :: 0 <= i < |tree| && tree[i].parent == a && DescendsFrom(tree, tree[i].child, d)
    decreases d - a
  {
    var i :| 0 <= i < |tree| && tree[i].child == d && a <= tree[i].parent < d &&
             DescendsFrom(tree, a, tree[i].parent);
    var p := tree[i].parent;
    if p == a {
      assert DescendsFrom(tree, tree[i].child, d);
    } else {
      FirstStep(tree, a, p);
      var j :| 0 <= j < |tree| && tree[j].parent == a && DescendsFrom(tree, tree[j].child, p);
      assert tree[j].child <= p;
      assert DescendsFrom(tree, tree[j].child, d);
    }
  }

  /** In a forest the last row into a strict descendant is its only row. */
  lemma LastStepUnique(tree: Tree, a: int, i: int)
    requires UniqueChildren(tree) && 0 <= i < |tree|
    requires StrictlyBelow(tree, a, tree[i].child)
    ensures DescendsFrom(tree, a, tree[i].parent)
  {
    var j :| 0 <= j < |tree| && tree[j].child == tree[i].child && a <= tree[j].parent < tree[i].child &&
             DescendsFrom(tree, a, tree[j].parent);
    assert i == j;
  }

  /** In a forest the ancestors of a node form a chain. */
  lemma {:induction false} AncestorsComparable(tree: Tree, a: int, b: int, x: int)
    requires UniqueChildren(tree)
    requires DescendsFrom(tree, a, x) && DescendsFrom(tree, b, x)
    ensures DescendsFrom(tree, a, b) || DescendsFrom(tree, b, a)
    decreases x - a
  {
    if a == x {
    } else if b == x {
    } else {
      var i :| 0 <= i < |tree| && tree[i].child == x && a <= tree[i].parent < x &&
               DescendsFrom(tree, a, tree[i].parent);
      LastStepUnique(tree, b, i);
      AncestorsComparable(tree, a, b, tree[i].parent);
    }
  }

  /** `parent.min()`: the root of a non-empty edge list. */
  function MinParent(tree: Tree): (root: int)
    requires tree != []
    ensures exists i :: 0 <= i < |tree| && tree[i].parent == root
    ensures forall i :: 0 <= i < |tree| ==> root <= tree[i].parent
  {
    if |tree| == 1 then tree[0].parent
    else
      var m := MinParent(tree[1..]);
      assert forall i :: 1 <= i < |tree| ==> tree[1..][i - 1] == tree[i];
      if tree[0].parent <= m then tree[0].parent else m
  }

  /** `parent.max()`: the last cluster id of a non-empty edge list. */
  function MaxParent(tree: Tree): (last: int)
    requires tree != []
    ensures exists i :: 0 <= i < |tree| && tree[i].parent == last
    ensures forall i :: 0 <= i < |tree| ==> tree[i].parent <= last
  {
    if |tree| == 1 then tree[0].parent
    else
      var m := MaxParent(tree[1..]);
      assert forall i :: 1 <= i < |tree| ==> tree[1..][i - 1] == tree[i];
      if tree[0].parent >= m then tree[0].parent else m
  }

  /** An upper bound on every child id; the traversals' termination measures count down to it. */
  function ChildBound(tree: Tree): (b: int)
    ensures forall i :: 0 <= i < |tree| ==> tree[i].child <= b
  {
    if tree == [] then 0
    else
      var m := ChildBound(tree[1..]);
      assert forall i :: 1 <= i < |tree| ==> tree[1..][i - 1] == tree[i];
      if tree[0].child >= m then tree[0].child else m
  }
}
