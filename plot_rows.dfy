/**
 * Row selections and sums over the condensed tree that the icicle layout
 * of `CondensedTree.get_plot_data` reads: the rows of one parent, their
 * total size, the size still present at a given lambda, the largest lambda,
 * and the order `np.argsort(lambda_val)` visits them in.
 */
module PlotRows {
  import opened CondensedTrees

  /** `tree[tree['parent'] == c]`: every row of parent `c`, in row order. */
  function RowsOf(tree: Tree, c: int): (rows: seq<Edge>)
    ensures |rows| <= |tree|
    ensures forall e :: e in rows <==> e in tree && e.parent == c
  {
    if tree == [] then []
    else (if tree[0].parent == c then [tree[0]] else []) + RowsOf(tree[1..], c)
  }

  /**
   * `tree[(tree['parent'] == c) & (tree['child_size'] > 1)]`: the cluster
   * rows of parent `c`, in row order.
   */
  function ClusterRowsOf(tree: Tree, c: int): (rows: seq<Edge>)
    ensures |rows| <= |tree|
    ensures forall e :: e in rows <==> e in tree && e.parent == c && e.childSize > 1
  {
    if tree == [] then []
    else
      (if tree[0].parent == c && tree[0].childSize > 1 then [tree[0]] else []) +
      ClusterRowsOf(tree[1..], c)
  }

  /** In a forest, the cluster rows of one parent name different children. */
  lemma {:induction false} ClusterRowsDistinct(tree: Tree, c: int)
    requires UniqueChildren(tree)
    ensures UniqueChildren(ClusterRowsOf(tree, c))
  {
    if tree != [] {
      var tail := tree[1..];
      assert UniqueChildren(tail) by {
        forall i, j | 0 <= i < j < |tail| ensures tail[i].child != tail[j].child {
          assert tail[i] == tree[i + 1] && tail[j] == tree[j + 1];
        }
      }
      ClusterRowsDistinct(tail, c);
      var rest := ClusterRowsOf(tail, c);
      if tree[0].parent == c && tree[0].childSize > 1 {
        forall e | e in rest ensures e.child != tree[0].child {
          var k :| 0 <= k < |tail| && tail[k] == e;
          assert tree[k + 1] == e;
        }
        UniqueCons(tree[0], rest);
      }
    }
  }

  /** `np.sum(rows['child_size'])`. */
  function SizeSum(rows: seq<Edge>): int {
    if rows == [] then 0 else rows[0].childSize + SizeSum(rows[1..])
  }

  /** The points of `rows` still present at density `l`: sizes of the rows leaving at `l` or later. */
  function SizeAtLeast(rows: seq<Edge>, l: real): int {
    if rows == [] then 0
    else (if rows[0].lambda >= l then rows[0].childSize else 0) + SizeAtLeast(rows[1..], l)
  }

  /** `np.max(rows['lambda_val'])`. */
  function MaxLambda(rows: seq<Edge>): (m: real)
    requires rows != []
    ensures exists k :: 0 <= k < |rows| && rows[k].lambda == m
    ensures forall k :: 0 <= k < |rows| ==> rows[k].lambda <= m
  {
    if |rows| == 1 then rows[0].lambda
    else
      var m := MaxLambda(rows[1..]);
      assert forall k :: 1 <= k < |rows| ==> rows[k] == rows[1..][k - 1];
      if rows[0].lambda >= m then rows[0].lambda else m
  }

  /** Some row of `rows` leaves at density `l`. */
  predicate HasLambda(rows: seq<Edge>, l: real) {
    exists k :: 0 <= k < |rows| && rows[k].lambda == l
  }

  predicate SortedByLambda(rows: seq<Edge>) {
    forall i, j :: 0 <= i < j < |rows| ==> rows[i].lambda <= rows[j].lambda
  }

  /** In lambda order, no row leaves later than the last one. */
  lemma SortedUpToLast(rows: seq<Edge>, j: int)
    requires SortedByLambda(rows) && 0 <= j < |rows|
    ensures rows[j].lambda <= rows[|rows| - 1].lambda
  {
  }

  /** Places `e` before the first row of larger lambda. */
  function Insert(e: Edge, rows: seq<Edge>): (r: seq<Edge>)
    ensures |r| == |rows| + 1
    ensures forall x :: x in r <==> x == e || x in rows
    ensures multiset(r) == multiset(rows) + multiset{e}
  {
    if rows == [] || e.lambda <= rows[0].lambda then [e] + rows
    else
      assert rows == [rows[0]] + rows[1..];
      [rows[0]] + Insert(e, rows[1..])
  }

  lemma {:induction false} InsertSorted(e: Edge, rows: seq<Edge>)
    requires SortedByLambda(rows)
    ensures SortedByLambda(Insert(e, rows))
  {
    if rows != [] && e.lambda > rows[0].lambda {
      var tail := rows[1..];
      assert SortedByLambda(tail);
      InsertSorted(e, tail);
      var ins := Insert(e, tail);
      var r := [rows[0]] + ins;
      forall i, j | 0 <= i < j < |r| ensures r[i].lambda <= r[j].lambda {
        if i == 0 {
          assert r[j] == ins[j - 1] && ins[j - 1] in ins;
        } else {
          assert r[i] == ins[i - 1] && r[j] == ins[j - 1];
        }
      }
    }
  }

  lemma {:induction false} InsertSums(e: Edge, rows: seq<Edge>, l: real)
    ensures SizeSum(Insert(e, rows)) == e.childSize + SizeSum(rows)
    ensures SizeAtLeast(Insert(e, rows), l) == (if e.lambda >= l then e.childSize else 0) + SizeAtLeast(rows, l)
  {
    if rows != [] && e.lambda > rows[0].lambda {
      InsertSums(e, rows[1..], l);
      assert ([rows[0]] + Insert(e, rows[1..]))[1..] == Insert(e, rows[1..]);
    } else {
      assert ([e] + rows)[1..] == rows;
    }
  }

  /**
   * The visiting order of `np.argsort(rows['lambda_val'])`: ascending
   * lambda. Rows of equal lambda may come in any order there; the bars
   * built from them do not depend on it.
   */
  function SortByLambda(rows: seq<Edge>): (r: seq<Edge>)
    ensures |r| == |rows|
    ensures forall x :: x in r <==> x in rows
    ensures multiset(r) == multiset(rows)
  {
    if rows == [] then []
    else
      assert rows == [rows[0]] + rows[1..];
      Insert(rows[0], SortByLambda(rows[1..]))
  }

  /** The lambda order is sorted and keeps every total the bars are built from. */
  lemma {:induction false} SortByLambdaFacts(rows: seq<Edge>, l: real)
    ensures SortedByLambda(SortByLambda(rows))
    ensures SizeSum(SortByLambda(rows)) == SizeSum(rows)
    ensures SizeAtLeast(SortByLambda(rows), l) == SizeAtLeast(rows, l)
  {
    if rows != [] {
      SortByLambdaFacts(rows[1..], l);
      InsertSorted(rows[0], SortByLambda(rows[1..]));
      InsertSums(rows[0], SortByLambda(rows[1..]), l);
    }
  }

  lemma {:induction false} SizeAtLeastAppend(a: seq<Edge>, b: seq<Edge>, l: real)
    ensures SizeAtLeast(a + b, l) == SizeAtLeast(a, l) + SizeAtLeast(b, l)
  {
    if a != [] {
      assert (a + b)[1..] == a[1..] + b;
      SizeAtLeastAppend(a[1..], b, l);
    } else {
      assert a + b == b;
    }
  }

  lemma {:induction false} SizeAtLeastBelow(a: seq<Edge>, l: real)
    requires forall k :: 0 <= k < |a| ==> a[k].lambda < l
    ensures SizeAtLeast(a, l) == 0
  {
    if a != [] {
      SizeAtLeastBelow(a[1..], l);
    }
  }

  lemma {:induction false} SizeAtLeastAbove(a: seq<Edge>, l: real)
    requires forall k :: 0 <= k < |a| ==> a[k].lambda >= l
    ensures SizeAtLeast(a, l) == SizeSum(a)
  {
    if a != [] {
      SizeAtLeastAbove(a[1..], l);
    }
  }

  /**
   * In lambda order, the rows from the first one of a new lambda level on
   * are exactly the rows still present at that level.
   */
  lemma {:induction false} SuffixIsStillPresent(rows: seq<Edge>, i: int)
    requires SortedByLambda(rows) && 0 <= i < |rows|
    requires i > 0 ==> rows[i - 1].lambda < rows[i].lambda
    ensures SizeSum(rows[i..]) == SizeAtLeast(rows, rows[i].lambda)
  {
    var l := rows[i].lambda;
    var before, after := rows[..i], rows[i..];
    assert rows == before + after;
    SizeAtLeastAppend(before, after, l);
    PrefixBelow(rows, i);
    SizeAtLeastBelow(before, l);
    SuffixAbove(rows, i);
    SizeAtLeastAbove(after, l);
  }

  lemma PrefixBelow(rows: seq<Edge>, i: int)
    requires SortedByLambda(rows) && 0 <= i < |rows|
    requires i > 0 ==> rows[i - 1].lambda < rows[i].lambda
    ensures forall k :: 0 <= k < |rows[..i]| ==> rows[..i][k].lambda < rows[i].lambda
  {
    forall k | 0 <= k < i ensures rows[k].lambda < rows[i].lambda {
      assert rows[k].lambda <= rows[i - 1].lambda;
    }
  }

  lemma SuffixAbove(rows: seq<Edge>, i: int)
    requires SortedByLambda(rows) && 0 <= i < |rows|
    ensures forall k :: 0 <= k < |rows[i..]| ==> rows[i..][k].lambda >= rows[i].lambda
  {
    forall k | 0 <= k < |rows[i..]| ensures rows[i..][k].lambda >= rows[i].lambda {
      assert rows[i..][k] == rows[i + k];
    }
  }

  /** With sizes that are not negative, fewer points remain at a higher lambda. */
  lemma {:induction false} SizeAtLeastMonotone(rows: seq<Edge>, l1: real, l2: real)
    requires l1 <= l2
    requires forall k :: 0 <= k < |rows| ==> rows[k].childSize >= 0
    ensures SizeAtLeast(rows, l2) <= SizeAtLeast(rows, l1)
  {
    if rows != [] {
      SizeAtLeastMonotone(rows[1..], l1, l2);
    }
  }

  /** With sizes that are not negative, the points present at any lambda are at most all of them. */
  lemma {:induction false} SizeAtLeastAtMostSum(rows: seq<Edge>, l: real)
    requires forall k :: 0 <= k < |rows| ==> rows[k].childSize >= 0
    ensures 0 <= SizeAtLeast(rows, l) <= SizeSum(rows)
  {
    if rows != [] {
      SizeAtLeastAtMostSum(rows[1..], l);
    }
  }
}
