/**
 * The single-linkage tree in scipy's linkage-matrix form: row `i` merges
 * `left` and `right` into the node with id `num_points + i`, where ids below
 * `num_points` are the original points.
 */
module LinkageTrees {
  import opened Wrappers

  /** One linkage-matrix row: the two merged ids, the merge distance and the merged size. */
  datatype LinkageRow = LinkageRow(left: int, right: int, distance: real, size: real)

  type Linkage = seq<LinkageRow>

  /** numpy refuses `hierarchy[rows, :2]` when a row index is past the last row. */
  datatype LinkageError = IndexError(row: int)

  /** `dim = shape[0]; max_node = 2 * dim; num_points = max_node - dim + 1`. */
  function NumPoints(h: Linkage): (n: int)
    ensures n == |h| + 1
  {
    var dim := |h|;
    var maxNode := 2 * dim;
    maxNode - dim + 1
  }

  /** Every merge refers only to points and to nodes made by earlier rows. */
  predicate WellFormedLinkage(h: Linkage) {
    forall i :: 0 <= i < |h| ==> h[i].left < NumPoints(h) + i && h[i].right < NumPoints(h) + i
  }

  /** Every id names a point or an existing row. */
  predicate InRange(h: Linkage, ids: seq<int>) {
    forall i :: 0 <= i < |ids| ==> ids[i] < NumPoints(h) + |h|
  }

  /** `[x - num_points for x in to_process if x >= num_points]`: the rows of the merge ids. */
  function MergeRows(h: Linkage, ids: seq<int>): (rows: seq<int>)
    ensures |rows| <= |ids|
    ensures forall k :: 0 <= k < |rows| ==> 0 <= rows[k]
    ensures InRange(h, ids) ==> RowsInRange(h, rows)
  {
    if ids == [] then []
    else
      assert InRange(h, ids) ==> InRange(h, ids[1..]);
      (if ids[0] >= NumPoints(h) then [ids[0] - NumPoints(h)] else []) + MergeRows(h, ids[1..])
  }

  predicate RowsInRange(h: Linkage, rows: seq<int>) {
    forall k :: 0 <= k < |rows| ==> 0 <= rows[k] < |h|
  }

  /** `hierarchy[rows, :2].flatten()`: both child columns of each row, row after row. */
  function ChildColumns(h: Linkage, rows: seq<int>): (kids: seq<int>)
    requires RowsInRange(h, rows)
    ensures |kids| == 2 * |rows|
    ensures forall k :: 0 <= k < |rows| ==> kids[2 * k] == h[rows[k]].left && kids[2 * k + 1] == h[rows[k]].right
  {
    if rows == [] then []
    else
      var rest := ChildColumns(h, rows[1..]);
      assert forall k :: 1 <= k < |rows| ==> rows[k] == rows[1..][k - 1] && 2 * k == 2 + 2 * (k - 1);
      [h[rows[0]].left, h[rows[0]].right] + rest
  }

  /** What one listed id adds to the next level: nothing for a point, its row's two children for a merge. */
  function Expand(h: Linkage, x: int): seq<int>
    requires x < NumPoints(h) + |h|
  {
    if x < NumPoints(h) then [] else [h[x - NumPoints(h)].left, h[x - NumPoints(h)].right]
  }

  /** The next level of the search, id by id. */
  function LinkageNext(h: Linkage, ids: seq<int>): seq<int>
    requires InRange(h, ids)
  {
    if ids == [] then [] else Expand(h, ids[0]) + LinkageNext(h, ids[1..])
  }

  /**
   * The two numpy steps of the source (keep the merge rows, then flatten
   * their child columns) build the next level id by id: a point adds
   * nothing and a merge id `x` adds exactly the two child columns of row
   * `x - num_points`.
   */
  lemma {:induction false} ChildColumnsOfMergeRows(h: Linkage, ids: seq<int>)
    requires InRange(h, ids)
    ensures ChildColumns(h, MergeRows(h, ids)) == LinkageNext(h, ids)
  {
    if ids != [] {
      assert InRange(h, ids[1..]);
      ChildColumnsOfMergeRows(h, ids[1..]);
      var rows := MergeRows(h, ids);
      if ids[0] >= NumPoints(h) {
        assert rows == [ids[0] - NumPoints(h)] + MergeRows(h, ids[1..]);
        assert rows[1..] == MergeRows(h, ids[1..]);
      } else {
        assert rows == MergeRows(h, ids[1..]);
      }
    }
  }

  /** `c` is a child column of some listed merge id. */
  predicate ChildOfListed(h: Linkage, ids: seq<int>, c: int) {
    exists j :: 0 <= j < |ids| && NumPoints(h) <= ids[j] < NumPoints(h) + |h| &&
                (c == h[ids[j] - NumPoints(h)].left || c == h[ids[j] - NumPoints(h)].right)
  }

  /** Each id of the next level is a child column of some listed merge id. */
  lemma {:induction false} LinkageNextFromParents(h: Linkage, ids: seq<int>)
    requires InRange(h, ids)
    ensures forall k :: 0 <= k < |LinkageNext(h, ids)| ==> ChildOfListed(h, ids, LinkageNext(h, ids)[k])
  {
    if ids != [] {
      var tail := ids[1..];
      assert InRange(h, tail);
      LinkageNextFromParents(h, tail);
      var e := Expand(h, ids[0]);
      var t := LinkageNext(h, tail);
      var next := LinkageNext(h, ids);
      assert next == e + t;
      forall k | 0 <= k < |next| ensures ChildOfListed(h, ids, next[k]) {
        if k < |e| {
          assert NumPoints(h) <= ids[0];
          var row := h[ids[0] - NumPoints(h)];
          assert e == [row.left, row.right];
          assert next[k] == row.left || next[k] == row.right;
        } else {
          assert next[k] == t[k - |e|];
          assert ChildOfListed(h, tail, t[k - |e|]);
          var j :| 0 <= j < |tail| && NumPoints(h) <= tail[j] < NumPoints(h) + |h| &&
            (t[k - |e|] == h[tail[j] - NumPoints(h)].left ||
             t[k - |e|] == h[tail[j] - NumPoints(h)].right);
          assert ids[j + 1] == tail[j];
        }
      }
    }
  }

  /** Both children of every listed merge id are in the next level. */
  lemma {:induction false} LinkageNextHasChildren(h: Linkage, ids: seq<int>, j: int)
    requires InRange(h, ids) && 0 <= j < |ids| && NumPoints(h) <= ids[j]
    ensures h[ids[j] - NumPoints(h)].left in LinkageNext(h, ids)
    ensures h[ids[j] - NumPoints(h)].right in LinkageNext(h, ids)
  {
    assert InRange(h, ids[1..]);
    if j > 0 {
      assert ids[1..][j - 1] == ids[j];
      LinkageNextHasChildren(h, ids[1..], j - 1);
    }
  }

  lemma LinkageNextInRange(h: Linkage, ids: seq<int>)
    requires WellFormedLinkage(h) && InRange(h, ids)
    ensures InRange(h, LinkageNext(h, ids))
    ensures forall c :: c in LinkageNext(h, ids) ==>
      exists j :: 0 <= j < |ids| && NumPoints(h) <= ids[j] && c < ids[j]
  {
    var next := LinkageNext(h, ids);
    LinkageNextFromParents(h, ids);
    forall k | 0 <= k < |next|
      ensures next[k] < NumPoints(h) + |h|
      ensures exists j :: 0 <= j < |ids| && NumPoints(h) <= ids[j] && next[k] < ids[j]
    {
      assert ChildOfListed(h, ids, next[k]);
      var j :| 0 <= j < |ids| && NumPoints(h) <= ids[j] < NumPoints(h) + |h| &&
        (next[k] == h[ids[j] - NumPoints(h)].left || next[k] == h[ids[j] - NumPoints(h)].right);
    }
  }

  function Max(s: seq<int>): (m: int)
    requires s != []
    ensures m in s && forall x :: x in s ==> x <= m
  {
    if |s| == 1 then s[0]
    else
      var m := Max(s[1..]);
      assert forall x :: x in s ==> x == s[0] || x in s[1..];
      if s[0] >= m then s[0] else m
  }

  /** Termination measure: the largest merge id listed shrinks from level to level. */
  function LinkageMeasure(h: Linkage, ids: seq<int>): nat {
    if ids == [] then 0
    else if Max(ids) < NumPoints(h) then 1
    else Max(ids) - NumPoints(h) + 2
  }

  lemma LinkageMeasureDecreases(h: Linkage, ids: seq<int>)
    requires WellFormedLinkage(h) && InRange(h, ids) && ids != []
    ensures LinkageMeasure(h, LinkageNext(h, ids)) < LinkageMeasure(h, ids)
  {
    var next := LinkageNext(h, ids);
    LinkageNextInRange(h, ids);
    if next != [] {
      var m := Max(next);
      var j :| 0 <= j < |ids| && NumPoints(h) <= ids[j] && m < ids[j];
      assert ids[j] in ids;
    }
  }

  /** The ids listed by the search from `ids`, level after level. */
  function LinkageBfsOrder(h: Linkage, ids: seq<int>): seq<int>
    requires WellFormedLinkage(h) && InRange(h, ids)
    decreases LinkageMeasure(h, ids)
  {
    if ids == [] then []
    else
      LinkageMeasureDecreases(h, ids);
      LinkageNextInRange(h, ids);
      ids + LinkageBfsOrder(h, LinkageNext(h, ids))
  }

  /** `d` is `a` or lies below the merge `a` in the linkage tree. */
  ghost predicate LinkageDescendsFrom(h: Linkage, a: int, d: int)
    requires WellFormedLinkage(h)
    decreases a
  {
    a == d ||
    (NumPoints(h) <= a < NumPoints(h) + |h| &&
     (LinkageDescendsFrom(h, h[a - NumPoints(h)].left, d) ||
      LinkageDescendsFrom(h, h[a - NumPoints(h)].right, d)))
  }

  lemma {:induction false} LinkageDescendsTransitive(h: Linkage, a: int, b: int, c: int)
    requires WellFormedLinkage(h)
    requires LinkageDescendsFrom(h, a, b) && LinkageDescendsFrom(h, b, c)
    ensures LinkageDescendsFrom(h, a, c)
    decreases a
  {
    if a != b {
      var row := h[a - NumPoints(h)];
      if LinkageDescendsFrom(h, row.left, b) {
        LinkageDescendsTransitive(h, row.left, b, c);
      } else {
        LinkageDescendsTransitive(h, row.right, b, c);
      }
    }
  }

  /** Everything listed lies below (or is) the root when the starting level does. */
  lemma {:induction false} LinkageBfsBelow(h: Linkage, root: int, ids: seq<int>)
    requires WellFormedLinkage(h) && InRange(h, ids)
    requires forall y :: y in ids ==> LinkageDescendsFrom(h, root, y)
    ensures forall x :: x in LinkageBfsOrder(h, ids) ==> LinkageDescendsFrom(h, root, x)
    decreases LinkageMeasure(h, ids)
  {
    if ids != [] {
      var next := LinkageNext(h, ids);
      LinkageMeasureDecreases(h, ids);
      LinkageNextInRange(h, ids);
      LinkageNextFromParents(h, ids);
      forall k | 0 <= k < |next| ensures LinkageDescendsFrom(h, root, next[k]) {
        assert ChildOfListed(h, ids, next[k]);
        var j :| 0 <= j < |ids| && NumPoints(h) <= ids[j] < NumPoints(h) + |h| &&
          (next[k] == h[ids[j] - NumPoints(h)].left || next[k] == h[ids[j] - NumPoints(h)].right);
        assert ids[j] in ids;
        assert LinkageDescendsFrom(h, next[k], next[k]);
        assert LinkageDescendsFrom(h, ids[j], next[k]);
        LinkageDescendsTransitive(h, root, ids[j], next[k]);
      }
      LinkageBfsBelow(h, root, next);
    }
  }

  lemma LinkageBfsInRange(h: Linkage, ids: seq<int>)
    requires WellFormedLinkage(h) && InRange(h, ids)
    ensures InRange(h, LinkageBfsOrder(h, ids))
    decreases LinkageMeasure(h, ids)
  {
    if ids != [] {
      LinkageMeasureDecreases(h, ids);
      LinkageNextInRange(h, ids);
      LinkageBfsInRange(h, LinkageNext(h, ids));
    }
  }

  /** Once a merge id is listed, both of its children are listed. */
  lemma {:induction false} LinkageBfsReachesChildren(h: Linkage, ids: seq<int>, a: int)
    requires WellFormedLinkage(h) && InRange(h, ids)
    requires a in LinkageBfsOrder(h, ids) && NumPoints(h) <= a < NumPoints(h) + |h|
    ensures h[a - NumPoints(h)].left in LinkageBfsOrder(h, ids)
    ensures h[a - NumPoints(h)].right in LinkageBfsOrder(h, ids)
    decreases LinkageMeasure(h, ids)
  {
    var next := LinkageNext(h, ids);
    var row := h[a - NumPoints(h)];
    LinkageMeasureDecreases(h, ids);
    LinkageNextInRange(h, ids);
    var later := LinkageBfsOrder(h, next);
    assert LinkageBfsOrder(h, ids) == ids + later;
    if a in ids {
      var j :| 0 <= j < |ids| && ids[j] == a;
      LinkageNextHasChildren(h, ids, j);
      assert row.left in next && row.right in next;
      NextLevelListed(h, ids);
    } else {
      assert a in later;
      LinkageBfsReachesChildren(h, next, a);
      assert row.left in later && row.right in later;
    }
  }

  /** The search lists the whole next level after the current one. */
  lemma NextLevelListed(h: Linkage, ids: seq<int>)
    requires WellFormedLinkage(h) && InRange(h, ids) && ids != []
    ensures InRange(h, LinkageNext(h, ids))
    ensures forall x :: x in LinkageNext(h, ids) ==> x in LinkageBfsOrder(h, ids)
  {
    var next := LinkageNext(h, ids);
    LinkageMeasureDecreases(h, ids);
    LinkageNextInRange(h, ids);
    assert LinkageBfsOrder(h, ids) == ids + LinkageBfsOrder(h, next);
    if next != [] {
      LinkageNextInRange(h, next);
      LinkageMeasureDecreases(h, next);
      assert LinkageBfsOrder(h, next) == next + LinkageBfsOrder(h, LinkageNext(h, next));
    }
  }

  /** Everything below a listed id is listed. */
  lemma {:induction false} LinkageBfsComplete(h: Linkage, ids: seq<int>, a: int, x: int)
    requires WellFormedLinkage(h) && InRange(h, ids)
    requires a in LinkageBfsOrder(h, ids) && LinkageDescendsFrom(h, a, x)
    ensures x in LinkageBfsOrder(h, ids)
    decreases a
  {
    if a != x {
      LinkageBfsReachesChildren(h, ids, a);
      var row := h[a - NumPoints(h)];
      if LinkageDescendsFrom(h, row.left, x) {
        LinkageBfsComplete(h, ids, row.left, x);
      } else {
        LinkageBfsComplete(h, ids, row.right, x);
      }
    }
  }

  /** `result` is what the search from `root` has listed before reaching `level`. */
  ghost predicate LinkageBfsStep(h: Linkage, root: int, result: seq<int>, level: seq<int>)
    requires WellFormedLinkage(h)
  {
    InRange(h, [root]) && InRange(h, level) &&
    result + LinkageBfsOrder(h, level) == LinkageBfsOrder(h, [root])
  }

  /** Only the root level can hold a merge id past the last row. */
  lemma MissingRowOnlyAtRoot(h: Linkage, root: int, result: seq<int>, level: seq<int>, k: int)
    requires WellFormedLinkage(h)
    requires result == [] ==> level == [root]
    requires result != [] ==> LinkageBfsStep(h, root, result, level)
    requires 0 <= k < |MergeRows(h, level)| && !(0 <= MergeRows(h, level)[k] < |h|)
    ensures root >= NumPoints(h) + |h|
  {
    if result == [] {
      assert [root][1..] == [];
      assert MergeRows(h, [root]) == if root >= NumPoints(h) then [root - NumPoints(h)] else [];
    }
  }

  /** A level whose merge ids all name rows is in range, and so is the root. */
  lemma LevelInRange(h: Linkage, root: int, result: seq<int>, level: seq<int>)
    requires WellFormedLinkage(h)
    requires result == [] ==> level == [root]
    requires result != [] ==> LinkageBfsStep(h, root, result, level)
    requires RowsInRange(h, MergeRows(h, level))
    ensures InRange(h, level) && InRange(h, [root])
  {
    if result == [] {
      assert [root][1..] == [];
      assert MergeRows(h, [root]) == if root >= NumPoints(h) then [root - NumPoints(h)] else [];
      if root >= NumPoints(h) {
        assert MergeRows(h, level)[0] == root - NumPoints(h);
      }
    }
  }

  /** Listing a level and moving to the next one keeps the search on track. */
  lemma LinkageBfsAdvance(h: Linkage, root: int, result: seq<int>, level: seq<int>)
    requires WellFormedLinkage(h) && InRange(h, level) && InRange(h, [root]) && level != []
    requires result == [] ==> level == [root]
    requires result != [] ==> LinkageBfsStep(h, root, result, level)
    ensures LinkageBfsStep(h, root, result + level, LinkageNext(h, level))
    ensures LinkageMeasure(h, LinkageNext(h, level)) < LinkageMeasure(h, level)
  {
    LinkageMeasureDecreases(h, level);
    LinkageNextInRange(h, level);
    var rest := LinkageBfsOrder(h, LinkageNext(h, level));
    assert LinkageBfsOrder(h, level) == level + rest;
    assert result + (level + rest) == (result + level) + rest;
  }

  /** The search from a root lists the root first, then exactly the ids below it. */
  lemma LinkageBfsExact(h: Linkage, root: int)
    requires WellFormedLinkage(h) && InRange(h, [root])
    ensures LinkageBfsOrder(h, [root]) != [] && LinkageBfsOrder(h, [root])[0] == root
    ensures forall x :: x in LinkageBfsOrder(h, [root]) <==> LinkageDescendsFrom(h, root, x)
  {
    LinkageMeasureDecreases(h, [root]);
    LinkageNextInRange(h, [root]);
    assert LinkageBfsOrder(h, [root]) == [root] + LinkageBfsOrder(h, LinkageNext(h, [root]));
    LinkageBfsBelow(h, root, [root]);
    forall x | LinkageDescendsFrom(h, root, x) ensures x in LinkageBfsOrder(h, [root]) {
      LinkageBfsComplete(h, [root], root, x);
    }
  }

  /**
   * `_bfs_from_linkage_tree(hierarchy, bfs_root)`: levels of ids, each
   * replaced by the child columns of the rows of its merge ids. Fails with
   * numpy's index error when the root names a row past the last one.
   */
  method BfsFromLinkageTree(h: Linkage, bfsRoot: int) returns (r: Result<seq<int>, LinkageError>)
    requires WellFormedLinkage(h)
    ensures r.Failure? <==> bfsRoot >= NumPoints(h) + |h|
    ensures r.Success? ==> InRange(h, [bfsRoot]) && r.value == LinkageBfsOrder(h, [bfsRoot])
    ensures r.Success? ==> r.value != [] && r.value[0] == bfsRoot
    ensures r.Success? ==> forall x :: x in r.value <==> LinkageDescendsFrom(h, bfsRoot, x)
  {
    var result: seq<int> := [];
    var toProcess := [bfsRoot];
    while toProcess != []
      invariant result == [] ==> toProcess == [bfsRoot]
      invariant result != [] ==> LinkageBfsStep(h, bfsRoot, result, toProcess)
      decreases if result == [] then 1 else 0,
        if InRange(h, toProcess) then LinkageMeasure(h, toProcess) else 0
    {
      var rows := MergeRows(h, toProcess);
      if !RowsInRange(h, rows) {
        var k :| 0 <= k < |rows| && !(0 <= rows[k] < |h|);
        MissingRowOnlyAtRoot(h, bfsRoot, result, toProcess, k);
        return Failure(IndexError(rows[k]));
      }
      LevelInRange(h, bfsRoot, result, toProcess);
      ChildColumnsOfMergeRows(h, toProcess);
      ghost var before := result;
      ghost var level := toProcess;
      result := result + toProcess;
      toProcess := if rows != [] then ChildColumns(h, rows) else rows;
      LinkageBfsAdvance(h, bfsRoot, before, level);
    }
    assert LinkageBfsOrder(h, []) == [];
    LinkageBfsExact(h, bfsRoot);
    return Success(result);
  }

  /** `np.arange(lo, hi)`: the integers from `lo` up to but not including `hi`. */
  function Arange(lo: int, hi: int): (r: seq<int>)
    ensures |r| == if lo <= hi then hi - lo else 0
    ensures forall i :: 0 <= i < |r| ==> r[i] == lo + i
    decreases hi - lo
  {
    if lo >= hi then [] else [lo] + Arange(lo + 1, hi)
  }

  /**
   * The `parent` column of `SingleLinkageTree.to_pandas`:
   * `np.arange(num_points, max_node + 1)` with `max_node = 2 * rows` and
   * `num_points = max_node - (rows - 1)`. It gives row `i` the id
   * `num_points + i`, the same numbering the linkage search uses.
   */
  function PandasParents(h: Linkage): (parents: seq<int>)
    ensures |parents| == |h|
    ensures forall i :: 0 <= i < |h| ==> parents[i] == NumPoints(h) + i
  {
    var maxNode := 2 * |h|;
    var numPoints := maxNode - (|h| - 1);
    Arange(numPoints, maxNode + 1)
  }

  /** The parent ids of the exported frame are exactly the merge ids, and each row's child columns are what the search expands that id into. */
  lemma PandasParentsAreMergeIds(h: Linkage)
    ensures forall p :: p in PandasParents(h) <==> NumPoints(h) <= p < NumPoints(h) + |h|
    ensures forall i :: 0 <= i < |h| ==>
      Expand(h, PandasParents(h)[i]) == [h[i].left, h[i].right]
  {
    var parents := PandasParents(h);
    forall p | NumPoints(h) <= p < NumPoints(h) + |h| ensures p in parents {
      assert parents[p - NumPoints(h)] == p;
    }
  }

  /** One directed edge of the exported graph, weighted by the merge distance. */
  datatype WeightedEdge = WeightedEdge(source: int, target: int, weight: real)

  /**
   * The edges `to_networkx` adds, in order: `enumerate(rows, start)` gives
   * each row its parent id, and the row adds an edge to its left and to its
   * right child, both weighted by the row's distance.
   */
  function EnumeratedEdges(rows: Linkage, start: int): (edges: seq<WeightedEdge>)
    ensures |edges| == 2 * |rows|
    ensures forall e :: e in edges ==> start <= e.source < start + |rows|
  {
    if rows == [] then []
    else
      [WeightedEdge(start, rows[0].left, rows[0].distance),
       WeightedEdge(start, rows[0].right, rows[0].distance)] + EnumeratedEdges(rows[1..], start + 1)
  }

  /** Row `i` of the enumeration contributes edges `2 * i` and `2 * i + 1`, both from id `start + i`. */
  lemma {:induction false} EnumeratedEdgesAt(rows: Linkage, start: int, i: int)
    requires 0 <= i < |rows|
    ensures EnumeratedEdges(rows, start)[2 * i] == WeightedEdge(start + i, rows[i].left, rows[i].distance)
    ensures EnumeratedEdges(rows, start)[2 * i + 1] == WeightedEdge(start + i, rows[i].right, rows[i].distance)
  {
    if i > 0 {
      EnumeratedEdgesAt(rows[1..], start + 1, i - 1);
      assert rows[1..][i - 1] == rows[i];
    }
  }

  /** The edges of `SingleLinkageTree.to_networkx`, parents numbered from `num_points`. */
  function NetworkxEdges(h: Linkage): (edges: seq<WeightedEdge>)
    ensures |edges| == 2 * |h|
    ensures forall e :: e in edges ==> NumPoints(h) <= e.source < NumPoints(h) + |h|
  {
    var maxNode := 2 * |h|;
    var numPoints := maxNode - (|h| - 1);
    EnumeratedEdges(h, numPoints)
  }

  /**
   * The exported graph has an edge from `p` to `c` exactly when the linkage
   * search expands the merge id `p` into `c`; points have no outgoing edge.
   */
  lemma NetworkxEdgesMatchSearch(h: Linkage)
    ensures forall e :: e in NetworkxEdges(h) ==>
      NumPoints(h) <= e.source < NumPoints(h) + |h| && e.target in Expand(h, e.source) &&
      e.weight == h[e.source - NumPoints(h)].distance
    ensures forall p, c :: NumPoints(h) <= p < NumPoints(h) + |h| && c in Expand(h, p) ==>
      exists e :: e in NetworkxEdges(h) && e.source == p && e.target == c
  {
    forall e | e in NetworkxEdges(h)
      ensures NumPoints(h) <= e.source < NumPoints(h) + |h| && e.target in Expand(h, e.source)
      ensures e.weight == h[e.source - NumPoints(h)].distance
    {
      EdgeIsExpansion(h, e);
    }
    forall p, c | NumPoints(h) <= p < NumPoints(h) + |h| && c in Expand(h, p)
      ensures exists e :: e in NetworkxEdges(h) && e.source == p && e.target == c
    {
      ExpansionHasEdge(h, p, c);
    }
  }

  lemma EdgeIsExpansion(h: Linkage, e: WeightedEdge)
    requires e in NetworkxEdges(h)
    ensures NumPoints(h) <= e.source < NumPoints(h) + |h| && e.target in Expand(h, e.source)
    ensures e.weight == h[e.source - NumPoints(h)].distance
  {
    var edges := EnumeratedEdges(h, NumPoints(h));
    assert edges == NetworkxEdges(h);
    var k :| 0 <= k < |edges| && edges[k] == e;
    var i := k / 2;
    EnumeratedEdgesAt(h, NumPoints(h), i);
    if k % 2 == 0 {
      assert edges[2 * i] == e;
    } else {
      assert edges[2 * i + 1] == e;
    }
  }

  lemma ExpansionHasEdge(h: Linkage, p: int, c: int)
    requires NumPoints(h) <= p < NumPoints(h) + |h| && c in Expand(h, p)
    ensures exists e :: e in NetworkxEdges(h) && e.source == p && e.target == c
  {
    var edges := EnumeratedEdges(h, NumPoints(h));
    assert edges == NetworkxEdges(h);
    var i := p - NumPoints(h);
    EnumeratedEdgesAt(h, NumPoints(h), i);
    var k := if c == h[i].left then 2 * i else 2 * i + 1;
    assert edges[k].source == p && edges[k].target == c;
    assert edges[k] in edges;
  }

  /** `{parent: row[3] for parent, row in enumerate(rows, start)}`. */
  function EnumeratedSizes(rows: Linkage, start: int): (sizes: map<int, real>)
    ensures forall p :: p in sizes <==> start <= p < start + |rows|
    ensures forall i :: 0 <= i < |rows| ==> sizes[start + i] == rows[i].size
  {
    if rows == [] then map[]
    else
      var rest := EnumeratedSizes(rows[1..], start + 1);
      var sizes := rest[start := rows[0].size];
      assert forall i :: 1 <= i < |rows| ==> start + i == (start + 1) + (i - 1) && rows[i] == rows[1..][i - 1];
      sizes
  }

  /** The `size` node attributes of `to_networkx`: the size of every merge id. */
  function SizeDict(h: Linkage): (sizes: map<int, real>)
    ensures forall p :: p in sizes <==> NumPoints(h) <= p < NumPoints(h) + |h|
    ensures forall i :: 0 <= i < |h| ==> sizes[PandasParents(h)[i]] == h[i].size
  {
    var maxNode := 2 * |h|;
    var numPoints := maxNode - (|h| - 1);
    EnumeratedSizes(h, numPoints)
  }
}
