/**
 * The icicle layout of `CondensedTree.get_plot_data` (linear size scale):
 * x and y coordinates for every cluster, one run of bars per cluster, the
 * bounding box of each cluster's bars, and the horizontal connector lines
 * at the splits.
 */
module Layout {
  import opened Wrappers
  import opened CondensedTrees
  import opened Leaves
  import opened PlotRows
  import opened IcicleBars

  /** `cluster_bounds[c]`: `[left, right, bottom, top]`. */
  datatype Bounds = Bounds(left: real, right: real, bottom: real, top: real)

  /** One connector: `line_xs` and `line_ys` of a split. */
  datatype Line = Line(x0: real, x1: real, y0: real, y1: real)

  /** The bars of every cluster and `cluster_bounds`. */
  datatype Icicles = Icicles(bars: seq<Bar>, bounds: map<int, Bounds>)

  datatype PlotData = PlotData(bars: seq<Bar>, lines: seq<Line>, clusterBounds: map<int, Bounds>)

  /**
   * Python exceptions of `get_plot_data`: a reduction over an empty
   * selection (`ValueError`), a split with more than two children
   * (`ValueError` when unpacking), a coordinate that was never set
   * (`KeyError`), and a cluster without rows (`ValueError` from `np.max`).
   */
  datatype PlotError = NoClusterTree | TooManyChildren(node: int) | MissingCoordinate(node: int) | NoChildren(node: int)

  /** `cluster_x_coords` and `cluster_y_coords`. */
  datatype Coords = Coords(x: map<int, real>, y: map<int, real>)

  /**
   * The bar run of one cluster: the rows of the cluster in ascending
   * lambda, a bar from the current lambda up to each new lambda level,
   * as wide as the points not yet gone.
   */
  method ClusterBars(center: real, start: real, children: seq<Edge>) returns (bars: seq<Bar>)
    ensures BarRun(center, start, children, bars)
  {
    var rows := SortByLambda(children);
    SortByLambdaFacts(children, 0.0);
    bars := SortedBars(center, start, rows);
    SortedBarsRun(center, start, rows);
    FinishRun(center, start, children, rows, bars);
  }

  /** The bar loop of `ClusterBars`, over rows already in ascending lambda. */
  method SortedBars(center: real, start: real, rows: seq<Edge>) returns (bars: seq<Bar>)
    requires SortedByLambda(rows)
    ensures bars == BarsAfter(center, start, rows, |rows|)
  {
    var currentSize := SizeSum(rows);
    var currentLambda := start;
    bars := [];
    assert rows[0..] == rows;
    for i := 0 to |rows|
      invariant bars == BarsAfter(center, start, rows, i)
      invariant currentSize == SizeSum(rows[i..])
      invariant currentLambda == LambdaAfter(start, rows, i)
    {
      BarsAfterNext(center, start, rows, i);
      if rows[i].lambda != currentLambda {
        bars := bars + [Bar(center, rows[i].lambda - currentLambda, currentLambda, currentSize)];
      }
      currentSize := currentSize - rows[i].childSize;
      currentLambda := rows[i].lambda;
    }
  }

  predicate LastOccurrence(s: seq<int>, i: int)
    requires 0 <= i < |s|
  {
    forall j :: i < j < |s| ==> s[j] != s[i]
  }

  /** `[leaf_separation * i for i in range(n)]`. */
  function Spread(sep: real, n: nat): (xs: seq<real>)
    ensures |xs| == n
    ensures forall i :: 0 <= i < n ==> xs[i] == sep * i as real
  {
    if n == 0 then []
    else
      var front := Spread(sep, n - 1);
      assert forall i :: 0 <= i < n - 1 ==> (front + [sep * (n - 1) as real])[i] == front[i];
      front + [sep * (n - 1) as real]
  }

  /** `dict(zip(keys, values))`: a key listed twice keeps its later value. */
  function ZipDict(keys: seq<int>, values: seq<real>): (d: map<int, real>)
    requires |keys| == |values|
    ensures forall k :: k in d <==> k in keys
  {
    if keys == [] then map[]
    else map[keys[0] := values[0]] + ZipDict(keys[1..], values[1..])
  }

  /** Each key's last listing decides its value. */
  lemma {:induction false} ZipDictValues(keys: seq<int>, values: seq<real>)
    requires |keys| == |values|
    ensures forall i :: 0 <= i < |keys| && LastOccurrence(keys, i) ==> ZipDict(keys, values)[keys[i]] == values[i]
  {
    if keys != [] {
      var tail := keys[1..];
      ZipDictValues(tail, values[1..]);
      var rest := ZipDict(tail, values[1..]);
      forall i | 0 <= i < |keys| && LastOccurrence(keys, i)
        ensures ZipDict(keys, values)[keys[i]] == values[i]
      {
        if i == 0 {
          assert keys[0] !in tail;
        } else {
          assert tail[i - 1] == keys[i] && values[1..][i - 1] == values[i];
          assert LastOccurrence(tail, i - 1) by {
            forall j | i - 1 < j < |tail| ensures tail[j] != tail[i - 1] {
              assert tail[j] == keys[j + 1];
            }
          }
          assert tail[i - 1] in rest;
        }
      }
    }
  }

  /** Cluster `c` has exactly two cluster children: the only case the coordinate pass handles. */
  predicate Splits(tree: Tree, c: int) {
    |ClusterRowsOf(tree, c)| == 2
  }

  /** A split cluster sits midway between its two children. */
  predicate MeanOfChildren(tree: Tree, x: map<int, real>, c: int) {
    var rows := ClusterRowsOf(tree, c);
    |rows| == 2 && c in x && rows[0].child in x && rows[1].child in x &&
    x[c] == (x[rows[0].child] + x[rows[1].child]) / 2.0
  }

  /** The two children of a split start at the lambda at which they split off. */
  predicate SplitHeights(tree: Tree, y: map<int, real>, c: int) {
    var rows := ClusterRowsOf(tree, c);
    |rows| == 2 && rows[0].child in y && y[rows[0].child] == rows[0].lambda &&
    rows[1].child in y && y[rows[1].child] == rows[1].lambda
  }

  /** A child gets an x coordinate: it is a leaf or a split visited before its parent. */
  predicate ChildPlaced(tree: Tree, leaves: seq<int>, lastLeaf: int, k: int) {
    k in leaves || (k <= lastLeaf && Splits(tree, k))
  }

  /** No cluster has more than two cluster children, and every split's children get a place. */
  predicate CoordsComplete(tree: Tree, leaves: seq<int>, root: int, lastLeaf: int) {
    forall c :: root <= c <= lastLeaf ==>
      |ClusterRowsOf(tree, c)| <= 2 &&
      (Splits(tree, c) ==>
         ChildPlaced(tree, leaves, lastLeaf, ClusterRowsOf(tree, c)[0].child) &&
         ChildPlaced(tree, leaves, lastLeaf, ClusterRowsOf(tree, c)[1].child))
  }

  /** Cluster rows go from a parent to a larger child id. */
  lemma ClusterRowAbove(tree: Tree, c: int, k: int)
    requires WellFormed(ClusterTree(tree)) && 0 <= k < |ClusterRowsOf(tree, c)|
    ensures ClusterRowsOf(tree, c)[k].parent == c && ClusterRowsOf(tree, c)[k].child > c
  {
    var e := ClusterRowsOf(tree, c)[k];
    assert e in ClusterRowsOf(tree, c);
    assert e in ClusterTree(tree);
    var j :| 0 <= j < |ClusterTree(tree)| && ClusterTree(tree)[j] == e;
  }

  /** In a forest, a node is a cluster child of one parent only. */
  lemma OneParent(tree: Tree, c1: int, k1: int, c2: int, k2: int)
    requires UniqueChildren(tree)
    requires 0 <= k1 < |ClusterRowsOf(tree, c1)| && 0 <= k2 < |ClusterRowsOf(tree, c2)|
    requires ClusterRowsOf(tree, c1)[k1].child == ClusterRowsOf(tree, c2)[k2].child
    ensures c1 == c2
  {
    var e1 := ClusterRowsOf(tree, c1)[k1];
    var e2 := ClusterRowsOf(tree, c2)[k2];
    assert e1 in ClusterRowsOf(tree, c1) && e2 in ClusterRowsOf(tree, c2);
    var i :| 0 <= i < |tree| && tree[i] == e1;
    var j :| 0 <= j < |tree| && tree[j] == e2;
    assert i == j;
  }

  /** The clusters that have an x coordinate once every cluster above `cluster` is visited. */
  ghost predicate PlacedKeys(tree: Tree, leaves: seq<int>, lastLeaf: int, cluster: int, x: map<int, real>) {
    forall k :: k in x <==> k in leaves || (cluster < k <= lastLeaf && Splits(tree, k))
  }

  /** The two cluster children of `c` when it splits, and nothing otherwise. */
  function SplitPair(tree: Tree, c: int): set<int> {
    if Splits(tree, c) then {ClusterRowsOf(tree, c)[0].child, ClusterRowsOf(tree, c)[1].child} else {}
  }

  /** The cluster children of every split cluster from `lo` to `hi`. */
  ghost function SplitChildren(tree: Tree, lo: int, hi: int): set<int>
    decreases hi - lo
  {
    if lo > hi then {} else SplitPair(tree, lo) + SplitChildren(tree, lo + 1, hi)
  }

  /** `c` splits and `k` is one of its two cluster children. */
  predicate ChildOfSplit(tree: Tree, c: int, k: int) {
    Splits(tree, c) && (k == ClusterRowsOf(tree, c)[0].child || k == ClusterRowsOf(tree, c)[1].child)
  }

  /** A node is in `SplitChildren` exactly when it is a cluster child of a split between `lo` and `hi`. */
  lemma {:induction false} SplitChildrenMembers(tree: Tree, lo: int, hi: int, k: int)
    decreases hi - lo
    ensures k in SplitChildren(tree, lo, hi) <==> exists c :: lo <= c <= hi && ChildOfSplit(tree, c, k)
  {
    if lo <= hi {
      SplitChildrenMembers(tree, lo + 1, hi, k);
      if k in SplitPair(tree, lo) {
        assert ChildOfSplit(tree, lo, k);
      } else if k !in SplitChildren(tree, lo + 1, hi) {
        forall c | lo <= c <= hi ensures !ChildOfSplit(tree, c, k) {
          if c == lo && Splits(tree, c) {
            assert ClusterRowsOf(tree, c)[0].child in SplitPair(tree, lo);
            assert ClusterRowsOf(tree, c)[1].child in SplitPair(tree, lo);
          }
        }
      }
    }
  }

  /** The clusters that have a y coordinate once every cluster above `cluster` is visited. */
  ghost predicate HeightKeys(tree: Tree, root: int, lastLeaf: int, cluster: int, y: map<int, real>) {
    forall k :: k in y <==> k == root || k in SplitChildren(tree, cluster + 1, lastLeaf)
  }

  /** A leaf no later split overwrote keeps its spread position. */
  predicate LeafValues(tree: Tree, leaves: seq<int>, xs: seq<real>, lastLeaf: int, cluster: int, x: map<int, real>)
    requires |xs| == |leaves|
  {
    forall i :: 0 <= i < |leaves| && LastOccurrence(leaves, i) &&
                !(cluster < leaves[i] <= lastLeaf && Splits(tree, leaves[i])) ==>
                leaves[i] in x && x[leaves[i]] == xs[i]
  }

  predicate MeansAbove(tree: Tree, lastLeaf: int, cluster: int, x: map<int, real>) {
    forall c :: cluster < c <= lastLeaf && Splits(tree, c) ==> MeanOfChildren(tree, x, c)
  }

  predicate HeightsAbove(tree: Tree, lastLeaf: int, cluster: int, y: map<int, real>) {
    forall c :: cluster < c <= lastLeaf && Splits(tree, c) ==> SplitHeights(tree, y, c)
  }

  /** Every visited cluster passed the pass's checks. */
  predicate CheckedAbove(tree: Tree, leaves: seq<int>, lastLeaf: int, cluster: int) {
    forall c :: cluster < c <= lastLeaf ==>
      |ClusterRowsOf(tree, c)| <= 2 &&
      (Splits(tree, c) ==>
         ChildPlaced(tree, leaves, lastLeaf, ClusterRowsOf(tree, c)[0].child) &&
         ChildPlaced(tree, leaves, lastLeaf, ClusterRowsOf(tree, c)[1].child))
  }

  /** What the coordinate pass has set once every cluster above `cluster` is visited. */
  ghost predicate CoordsSoFar(tree: Tree, leaves: seq<int>, xs: seq<real>, root: int, lastLeaf: int,
                              cluster: int, x: map<int, real>, y: map<int, real>) {
    |xs| == |leaves| && root in y && y[root] == 0.0 &&
    PlacedKeys(tree, leaves, lastLeaf, cluster, x) &&
    HeightKeys(tree, root, lastLeaf, cluster, y) &&
    LeafValues(tree, leaves, xs, lastLeaf, cluster, x) &&
    MeansAbove(tree, lastLeaf, cluster, x) &&
    (UniqueChildren(tree) ==> HeightsAbove(tree, lastLeaf, cluster, y)) &&
    CheckedAbove(tree, leaves, lastLeaf, cluster)
  }

  /** Before any cluster is visited only the leaves and the root are placed. */
  lemma CoordsStart(tree: Tree, leaves: seq<int>, xs: seq<real>, root: int, lastLeaf: int)
    requires |xs| == |leaves|
    ensures CoordsSoFar(tree, leaves, xs, root, lastLeaf, lastLeaf, ZipDict(leaves, xs), map[root := 0.0])
  {
    ZipDictValues(leaves, xs);
  }

  /** A cluster with at most one cluster child changes nothing. */
  lemma CoordsSkip(tree: Tree, leaves: seq<int>, xs: seq<real>, root: int, lastLeaf: int,
                   cluster: int, x: map<int, real>, y: map<int, real>)
    requires CoordsSoFar(tree, leaves, xs, root, lastLeaf, cluster, x, y)
    requires |ClusterRowsOf(tree, cluster)| <= 1
    ensures CoordsSoFar(tree, leaves, xs, root, lastLeaf, cluster - 1, x, y)
  {
  }

  lemma PlaceHeightKeys(tree: Tree, root: int, lastLeaf: int, cluster: int, y: map<int, real>,
                        left: int, right: int, leftLambda: real, rightLambda: real)
    requires cluster <= lastLeaf && Splits(tree, cluster) && HeightKeys(tree, root, lastLeaf, cluster, y)
    requires left == ClusterRowsOf(tree, cluster)[0].child && right == ClusterRowsOf(tree, cluster)[1].child
    ensures HeightKeys(tree, root, lastLeaf, cluster - 1, y[left := leftLambda][right := rightLambda])
  {
    assert SplitPair(tree, cluster) == {left, right};
  }

  lemma PlaceKeys(tree: Tree, leaves: seq<int>, lastLeaf: int, cluster: int, x: map<int, real>, v: real)
    requires cluster <= lastLeaf && Splits(tree, cluster)
    requires PlacedKeys(tree, leaves, lastLeaf, cluster, x)
    ensures PlacedKeys(tree, leaves, lastLeaf, cluster - 1, x[cluster := v])
  {
  }

  lemma PlaceLeafValues(tree: Tree, leaves: seq<int>, xs: seq<real>, lastLeaf: int, cluster: int,
                        x: map<int, real>, v: real)
    requires |xs| == |leaves| && cluster <= lastLeaf && Splits(tree, cluster)
    requires LeafValues(tree, leaves, xs, lastLeaf, cluster, x)
    ensures LeafValues(tree, leaves, xs, lastLeaf, cluster - 1, x[cluster := v])
  {
  }

  lemma PlaceMeans(tree: Tree, lastLeaf: int, cluster: int, x: map<int, real>, left: int, right: int, v: real)
    requires WellFormed(ClusterTree(tree)) && cluster <= lastLeaf && Splits(tree, cluster)
    requires MeansAbove(tree, lastLeaf, cluster, x)
    requires left == ClusterRowsOf(tree, cluster)[0].child && right == ClusterRowsOf(tree, cluster)[1].child
    requires left in x && right in x && v == (x[left] + x[right]) / 2.0
    ensures MeansAbove(tree, lastLeaf, cluster - 1, x[cluster := v])
  {
    ClusterRowAbove(tree, cluster, 0);
    ClusterRowAbove(tree, cluster, 1);
    var x' := x[cluster := v];
    forall c | cluster < c <= lastLeaf && Splits(tree, c) ensures MeanOfChildren(tree, x', c) {
      ClusterRowAbove(tree, c, 0);
      ClusterRowAbove(tree, c, 1);
      assert MeanOfChildren(tree, x, c);
    }
    assert MeanOfChildren(tree, x', cluster);
  }

  lemma PlaceHeights(tree: Tree, lastLeaf: int, cluster: int, y: map<int, real>,
                     left: int, right: int, leftLambda: real, rightLambda: real)
    requires UniqueChildren(tree) && cluster <= lastLeaf && Splits(tree, cluster)
    requires HeightsAbove(tree, lastLeaf, cluster, y)
    requires left == ClusterRowsOf(tree, cluster)[0].child && right == ClusterRowsOf(tree, cluster)[1].child
    requires leftLambda == ClusterRowsOf(tree, cluster)[0].lambda && rightLambda == ClusterRowsOf(tree, cluster)[1].lambda
    ensures HeightsAbove(tree, lastLeaf, cluster - 1, y[left := leftLambda][right := rightLambda])
  {
    var y' := y[left := leftLambda][right := rightLambda];
    forall c | cluster < c <= lastLeaf && Splits(tree, c) ensures SplitHeights(tree, y', c) {
      assert SplitHeights(tree, y, c);
      var rows := ClusterRowsOf(tree, c);
      if rows[0].child == left { OneParent(tree, c, 0, cluster, 0); }
      if rows[0].child == right { OneParent(tree, c, 0, cluster, 1); }
      if rows[1].child == left { OneParent(tree, c, 1, cluster, 0); }
      if rows[1].child == right { OneParent(tree, c, 1, cluster, 1); }
    }
    ClusterRowsDistinct(tree, cluster);
    assert SplitHeights(tree, y', cluster);
  }

  lemma PlaceChecked(tree: Tree, leaves: seq<int>, lastLeaf: int, cluster: int, x: map<int, real>)
    requires cluster <= lastLeaf && Splits(tree, cluster)
    requires PlacedKeys(tree, leaves, lastLeaf, cluster, x) && CheckedAbove(tree, leaves, lastLeaf, cluster)
    requires WellFormed(ClusterTree(tree))
    requires ClusterRowsOf(tree, cluster)[0].child in x && ClusterRowsOf(tree, cluster)[1].child in x
    ensures CheckedAbove(tree, leaves, lastLeaf, cluster - 1)
  {
    var split := ClusterRowsOf(tree, cluster);
    assert ChildPlaced(tree, leaves, lastLeaf, split[0].child);
    assert ChildPlaced(tree, leaves, lastLeaf, split[1].child);
  }

  /** Placing a split cluster midway between its children keeps every earlier placement. */
  lemma CoordsPlace(tree: Tree, leaves: seq<int>, xs: seq<real>, root: int, lastLeaf: int,
                    cluster: int, x: map<int, real>, y: map<int, real>,
                    left: int, right: int, v: real, leftLambda: real, rightLambda: real)
    requires WellFormed(ClusterTree(tree)) && root <= cluster <= lastLeaf
    requires CoordsSoFar(tree, leaves, xs, root, lastLeaf, cluster, x, y)
    requires Splits(tree, cluster)
    requires ClusterRowsOf(tree, cluster)[0].child in x && ClusterRowsOf(tree, cluster)[1].child in x
    requires left == ClusterRowsOf(tree, cluster)[0].child && right == ClusterRowsOf(tree, cluster)[1].child
    requires leftLambda == ClusterRowsOf(tree, cluster)[0].lambda && rightLambda == ClusterRowsOf(tree, cluster)[1].lambda
    requires v == (x[left] + x[right]) / 2.0
    ensures CoordsSoFar(tree, leaves, xs, root, lastLeaf, cluster - 1,
                        x[cluster := v], y[left := leftLambda][right := rightLambda])
  {
    ClusterRowAbove(tree, cluster, 0);
    ClusterRowAbove(tree, cluster, 1);
    PlaceKeys(tree, leaves, lastLeaf, cluster, x, v);
    PlaceHeightKeys(tree, root, lastLeaf, cluster, y, left, right, leftLambda, rightLambda);
    PlaceLeafValues(tree, leaves, xs, lastLeaf, cluster, x, v);
    PlaceMeans(tree, lastLeaf, cluster, x, left, right, v);
    if UniqueChildren(tree) {
      PlaceHeights(tree, lastLeaf, cluster, y, left, right, leftLambda, rightLambda);
    }
    PlaceChecked(tree, leaves, lastLeaf, cluster, x);
  }

  /** A cluster with more than two cluster children cannot be placed. */
  lemma TooManyIncomplete(tree: Tree, leaves: seq<int>, root: int, lastLeaf: int, cluster: int)
    requires root <= cluster <= lastLeaf && |ClusterRowsOf(tree, cluster)| > 2
    ensures !CoordsComplete(tree, leaves, root, lastLeaf)
  {
  }

  /** A child of a split that has no x coordinate yet never gets one. */
  lemma UnplacedIncomplete(tree: Tree, leaves: seq<int>, root: int, lastLeaf: int, cluster: int,
                           x: map<int, real>, k: int)
    requires root <= cluster <= lastLeaf && Splits(tree, cluster)
    requires k == ClusterRowsOf(tree, cluster)[0].child || k == ClusterRowsOf(tree, cluster)[1].child
    requires k > cluster && PlacedKeys(tree, leaves, lastLeaf, cluster, x) && k !in x
    ensures !CoordsComplete(tree, leaves, root, lastLeaf)
  {
    assert !ChildPlaced(tree, leaves, lastLeaf, k);
  }

  /** Once the root is visited, the pass has placed everything `Coordinates` promises. */
  lemma CoordsDone(tree: Tree, leaves: seq<int>, xs: seq<real>, sep: real, root: int, lastLeaf: int,
                   cluster: int, x: map<int, real>, y: map<int, real>)
    requires xs == Spread(sep, |leaves|)
    requires cluster < root && (root - 1 <= cluster || cluster == lastLeaf)
    requires CoordsSoFar(tree, leaves, xs, root, lastLeaf, cluster, x, y)
    ensures CoordsComplete(tree, leaves, root, lastLeaf)
    ensures PlacedCoords(tree, leaves, sep, root, lastLeaf, Coords(x, y))
  {
  }

  /**
   * What a successful coordinate pass gives: x for exactly the leaves and
   * the splits, y for exactly the root and the children of splits, the root at height 0, each
   * leaf not placed later as a split at its spread position, each split
   * midway between its two children, and, in a forest, each split child at
   * the lambda it splits off at.
   */
  ghost predicate PlacedCoords(tree: Tree, leaves: seq<int>, sep: real, root: int, lastLeaf: int, coords: Coords) {
    (forall k :: k in coords.x <==> k in leaves || (root <= k <= lastLeaf && Splits(tree, k))) &&
    (forall k :: k in coords.y <==> k == root || k in SplitChildren(tree, root, lastLeaf)) &&
    root in coords.y && coords.y[root] == 0.0 &&
    (forall i :: 0 <= i < |leaves| && LastOccurrence(leaves, i) &&
                 !(root <= leaves[i] <= lastLeaf && Splits(tree, leaves[i])) ==>
                 leaves[i] in coords.x && coords.x[leaves[i]] == sep * i as real) &&
    (forall c :: root <= c <= lastLeaf && Splits(tree, c) ==> MeanOfChildren(tree, coords.x, c)) &&
    (UniqueChildren(tree) ==>
       forall c :: root <= c <= lastLeaf && Splits(tree, c) ==> SplitHeights(tree, coords.y, c))
  }

  /**
   * The coordinate pass of `get_plot_data`: leaves are spread
   * `leaf_separation` apart, the root sits at height 0, and from the
   * largest cluster id down to the root, a cluster with exactly two
   * cluster children is placed midway between them, each child at the
   * lambda it splits off at.
   */
  method Coordinates(tree: Tree, leaves: seq<int>, sep: real, root: int, lastLeaf: int)
    returns (r: Result<Coords, PlotError>)
    requires WellFormed(ClusterTree(tree))
    ensures r.Success? <==> CoordsComplete(tree, leaves, root, lastLeaf)
    ensures r.Success? ==> PlacedCoords(tree, leaves, sep, root, lastLeaf, r.value)
    ensures r.Failure? ==> r.error.TooManyChildren? || r.error.MissingCoordinate?
  {
    var xs := Spread(sep, |leaves|);
    var x := ZipDict(leaves, xs);
    var y := map[root := 0.0];
    CoordsStart(tree, leaves, xs, root, lastLeaf);
    var cluster := lastLeaf;
    while cluster >= root
      invariant cluster <= lastLeaf && (root - 1 <= cluster || cluster == lastLeaf)
      invariant CoordsSoFar(tree, leaves, xs, root, lastLeaf, cluster, x, y)
      decreases cluster - root
    {
      var placed := PlaceCluster(tree, leaves, xs, root, lastLeaf, cluster, x, y);
      if placed.Failure? {
        return Failure(placed.error);
      }
      x, y := placed.value.x, placed.value.y;
      cluster := cluster - 1;
    }
    CoordsDone(tree, leaves, xs, sep, root, lastLeaf, cluster, x, y);
    return Success(Coords(x, y));
  }

  /**
   * One iteration of the coordinate pass at `cluster`: a cluster with two
   * cluster children is placed midway between them and its children get
   * their split lambdas; one with more fails, and so does one whose child
   * has no x yet. Either the pass's invariant holds for the next cluster,
   * or the pass cannot complete.
   */
  method PlaceCluster(tree: Tree, leaves: seq<int>, xs: seq<real>, root: int, lastLeaf: int,
                      cluster: int, x: map<int, real>, y: map<int, real>)
    returns (r: Result<Coords, PlotError>)
    requires WellFormed(ClusterTree(tree)) && root <= cluster <= lastLeaf
    requires CoordsSoFar(tree, leaves, xs, root, lastLeaf, cluster, x, y)
    ensures r.Success? ==> CoordsSoFar(tree, leaves, xs, root, lastLeaf, cluster - 1, r.value.x, r.value.y)
    ensures r.Failure? ==> !CoordsComplete(tree, leaves, root, lastLeaf)
    ensures r.Failure? ==> r.error.TooManyChildren? || r.error.MissingCoordinate?
  {
    var split := ClusterRowsOf(tree, cluster);
    if |split| <= 1 {
      CoordsSkip(tree, leaves, xs, root, lastLeaf, cluster, x, y);
      return Success(Coords(x, y));
    }
    if |split| > 2 {
      TooManyIncomplete(tree, leaves, root, lastLeaf, cluster);
      return Failure(TooManyChildren(cluster));
    }
    var left := split[0].child;
    var right := split[1].child;
    ClusterRowAbove(tree, cluster, 0);
    ClusterRowAbove(tree, cluster, 1);
    if left !in x {
      UnplacedIncomplete(tree, leaves, root, lastLeaf, cluster, x, left);
      return Failure(MissingCoordinate(left));
    }
    if right !in x {
      UnplacedIncomplete(tree, leaves, root, lastLeaf, cluster, x, right);
      return Failure(MissingCoordinate(right));
    }
    var v := (x[left] + x[right]) / 2.0;
    CoordsPlace(tree, leaves, xs, root, lastLeaf, cluster, x, y, left, right, v, split[0].lambda, split[1].lambda);
    return Success(Coords(x[cluster := v], y[left := split[0].lambda][right := split[1].lambda]));
  }

  /** Cluster `c` has both coordinates and at least one row, so its bars and bounds can be drawn. */
  predicate Drawable(tree: Tree, coords: Coords, c: int) {
    c in coords.y && c in coords.x && RowsOf(tree, c) != []
  }

  /** The exception the bar pass raises at a cluster it cannot draw. */
  function DrawError(coords: Coords, c: int): PlotError {
    if c !in coords.y || c !in coords.x then MissingCoordinate(c) else NoChildren(c)
  }

  /**
   * `cluster_bounds[c]`: centred on the cluster's scaled x, as wide as the
   * cluster's points, from the cluster's start up to the last lambda of
   * its rows.
   */
  predicate BoundsFit(tree: Tree, coords: Coords, scaling: real, c: int, b: Bounds)
    requires Drawable(tree, coords, c)
  {
    var rows := RowsOf(tree, c);
    (b.left + b.right) / 2.0 == coords.x[c] * scaling &&
    b.right - b.left == SizeSum(rows) as real &&
    b.bottom == coords.y[c] &&
    HasLambda(rows, b.top) &&
    forall k :: 0 <= k < |rows| ==> rows[k].lambda <= b.top
  }

  /**
   * A bar of cluster `c`: centred on the cluster's scaled x, not flat,
   * rising from the cluster's start or from one of its rows' lambdas to
   * another, and as wide as the points of `c` still present at its top.
   */
  predicate BarFits(tree: Tree, coords: Coords, scaling: real, c: int, b: Bar)
    requires Drawable(tree, coords, c)
  {
    var rows := RowsOf(tree, c);
    b.center == coords.x[c] * scaling && b.height != 0.0 &&
    (b.bottom == coords.y[c] || HasLambda(rows, b.bottom)) &&
    HasLambda(rows, Top(b)) &&
    b.width == SizeAtLeast(rows, Top(b))
  }

  /** `b` is a bar of some cluster between `root` and `lastLeaf`. */
  ghost predicate OwnedBar(tree: Tree, coords: Coords, scaling: real, root: int, lastLeaf: int, b: Bar) {
    exists c :: root <= c <= lastLeaf && Drawable(tree, coords, c) && BarFits(tree, coords, scaling, c, b)
  }

  /** The bounds the bar pass has set once every cluster above `c` is visited. */
  ghost predicate BoundsSoFar(tree: Tree, coords: Coords, scaling: real, lastLeaf: int, c: int,
                              bounds: map<int, Bounds>) {
    (forall k :: k in bounds <==> c < k <= lastLeaf) &&
    forall k :: c < k <= lastLeaf ==> Drawable(tree, coords, k) && BoundsFit(tree, coords, scaling, k, bounds[k])
  }

  /** The bars the bar pass has drawn once every cluster above `c` is visited; `owners[j]` is the cluster of bar `j`. */
  ghost predicate OwnersSoFar(tree: Tree, coords: Coords, scaling: real, lastLeaf: int, c: int,
                              bars: seq<Bar>, owners: seq<int>) {
    |owners| == |bars| &&
    forall j :: 0 <= j < |bars| ==>
      c < owners[j] <= lastLeaf && Drawable(tree, coords, owners[j]) &&
      BarFits(tree, coords, scaling, owners[j], bars[j])
  }

  ghost predicate IciclesSoFar(tree: Tree, coords: Coords, scaling: real, lastLeaf: int, c: int,
                               bars: seq<Bar>, bounds: map<int, Bounds>, owners: seq<int>) {
    BoundsSoFar(tree, coords, scaling, lastLeaf, c, bounds) &&
    OwnersSoFar(tree, coords, scaling, lastLeaf, c, bars, owners)
  }

  /** Every bar of a cluster's run is a bar of that cluster. */
  lemma RunBarsFit(tree: Tree, coords: Coords, scaling: real, c: int, center: real, run: seq<Bar>)
    requires Drawable(tree, coords, c) && center == coords.x[c] * scaling
    requires BarRun(center, coords.y[c], RowsOf(tree, c), run)
    ensures forall j :: 0 <= j < |run| ==> BarFits(tree, coords, scaling, c, run[j])
  {
    var rows := RowsOf(tree, c);
    forall j | 0 <= j < |run| ensures BarFits(tree, coords, scaling, c, run[j]) {
      assert run[j].center == center && run[j].height != 0.0;
      assert run[j].bottom == coords.y[c] || HasLambda(rows, run[j].bottom);
      assert HasLambda(rows, Top(run[j])) && run[j].width == SizeAtLeast(rows, Top(run[j]));
    }
  }

  lemma AppendOwned(tree: Tree, coords: Coords, scaling: real, lastLeaf: int, c: int,
                    bars: seq<Bar>, owners: seq<int>, run: seq<Bar>)
    requires c <= lastLeaf && Drawable(tree, coords, c)
    requires OwnersSoFar(tree, coords, scaling, lastLeaf, c, bars, owners)
    requires forall j :: 0 <= j < |run| ==> BarFits(tree, coords, scaling, c, run[j])
    ensures OwnersSoFar(tree, coords, scaling, lastLeaf, c - 1, bars + run, owners + seq(|run|, _ => c))
  {
    var nb := bars + run;
    var no := owners + seq(|run|, _ => c);
    forall j | 0 <= j < |nb|
      ensures c - 1 < no[j] <= lastLeaf && Drawable(tree, coords, no[j]) &&
              BarFits(tree, coords, scaling, no[j], nb[j])
    {
      if j < |bars| {
        assert nb[j] == bars[j] && no[j] == owners[j];
      } else {
        assert nb[j] == run[j - |bars|] && no[j] == c;
      }
    }
  }

  /** Adding the bounds of cluster `c` keeps those of the clusters visited before. */
  lemma AddBounds(tree: Tree, coords: Coords, scaling: real, lastLeaf: int, c: int,
                  bounds: map<int, Bounds>, b: Bounds)
    requires c <= lastLeaf && Drawable(tree, coords, c) && BoundsFit(tree, coords, scaling, c, b)
    requires BoundsSoFar(tree, coords, scaling, lastLeaf, c, bounds)
    ensures BoundsSoFar(tree, coords, scaling, lastLeaf, c - 1, bounds[c := b])
  {
    forall k | c - 1 < k <= lastLeaf
      ensures Drawable(tree, coords, k) && BoundsFit(tree, coords, scaling, k, bounds[c := b][k])
    {
      if k != c {
        assert bounds[c := b][k] == bounds[k];
      }
    }
  }

  /** The bounds the bar pass computes for a cluster fit it. */
  lemma FreshBoundsFit(tree: Tree, coords: Coords, scaling: real, c: int, center: real, size: real, b: Bounds)
    requires Drawable(tree, coords, c)
    requires center == coords.x[c] * scaling && size == SizeSum(RowsOf(tree, c)) as real
    requires b == Bounds(center - size / 2.0, center + size / 2.0, coords.y[c], MaxLambda(RowsOf(tree, c)))
    ensures BoundsFit(tree, coords, scaling, c, b)
  {
    assert HasLambda(RowsOf(tree, c), b.top);
  }

  /** Drawing cluster `c` adds its bounds and its run of bars. */
  lemma ExtendIcicles(tree: Tree, coords: Coords, scaling: real, lastLeaf: int, c: int,
                      bars: seq<Bar>, bounds: map<int, Bounds>, owners: seq<int>,
                      center: real, size: real, b: Bounds, run: seq<Bar>)
    requires c <= lastLeaf && Drawable(tree, coords, c)
    requires IciclesSoFar(tree, coords, scaling, lastLeaf, c, bars, bounds, owners)
    requires center == coords.x[c] * scaling && size == SizeSum(RowsOf(tree, c)) as real
    requires b == Bounds(center - size / 2.0, center + size / 2.0, coords.y[c], MaxLambda(RowsOf(tree, c)))
    requires BarRun(center, coords.y[c], RowsOf(tree, c), run)
    ensures IciclesSoFar(tree, coords, scaling, lastLeaf, c - 1, bars + run, bounds[c := b],
                         owners + seq(|run|, _ => c))
  {
    RunBarsFit(tree, coords, scaling, c, center, run);
    AppendOwned(tree, coords, scaling, lastLeaf, c, bars, owners, run);
    FreshBoundsFit(tree, coords, scaling, c, center, size, b);
    AddBounds(tree, coords, scaling, lastLeaf, c, bounds, b);
  }

  /** Once the root is visited, the pass has drawn every cluster. */
  lemma IciclesDone(tree: Tree, coords: Coords, scaling: real, root: int, lastLeaf: int, c: int,
                    bars: seq<Bar>, bounds: map<int, Bounds>, owners: seq<int>)
    requires c < root && (root - 1 <= c || c == lastLeaf)
    requires IciclesSoFar(tree, coords, scaling, lastLeaf, c, bars, bounds, owners)
    ensures forall k :: k in bounds <==> root <= k <= lastLeaf
    ensures forall k :: root <= k <= lastLeaf ==>
                        Drawable(tree, coords, k) && BoundsFit(tree, coords, scaling, k, bounds[k])
    ensures forall j :: 0 <= j < |bars| ==> OwnedBar(tree, coords, scaling, root, lastLeaf, bars[j])
  {
    forall j | 0 <= j < |bars| ensures OwnedBar(tree, coords, scaling, root, lastLeaf, bars[j]) {
      var k := owners[j];
      assert root <= k <= lastLeaf && Drawable(tree, coords, k) && BarFits(tree, coords, scaling, k, bars[j]);
    }
  }

  /**
   * The bar pass of `get_plot_data`: from the largest cluster id down to
   * the root, the bounds of each cluster and its run of bars.
   */
  method BarsAndBounds(tree: Tree, coords: Coords, scaling: real, root: int, lastLeaf: int)
    returns (r: Result<Icicles, PlotError>)
    ensures r.Failure? <==> exists c :: root <= c <= lastLeaf && !Drawable(tree, coords, c)
    ensures r.Failure? ==>
      exists c :: root <= c <= lastLeaf && !Drawable(tree, coords, c) && r.error == DrawError(coords, c) &&
                  forall d :: c < d <= lastLeaf ==> Drawable(tree, coords, d)
    ensures r.Failure? ==> r.error.MissingCoordinate? || r.error.NoChildren?
    ensures r.Success? ==> forall c :: c in r.value.bounds <==> root <= c <= lastLeaf
    ensures r.Success? ==>
      forall c :: root <= c <= lastLeaf ==>
                  Drawable(tree, coords, c) && BoundsFit(tree, coords, scaling, c, r.value.bounds[c])
    ensures r.Success? ==>
      forall j :: 0 <= j < |r.value.bars| ==> OwnedBar(tree, coords, scaling, root, lastLeaf, r.value.bars[j])
    ensures r.Success? ==> BoundsCover(tree, root, lastLeaf, r.value.bounds)
  {
    var bars: seq<Bar> := [];
    var bounds: map<int, Bounds> := map[];
    ghost var owners: seq<int> := [];
    var c := lastLeaf;
    while c >= root
      invariant c <= lastLeaf && (root - 1 <= c || c == lastLeaf)
      invariant IciclesSoFar(tree, coords, scaling, lastLeaf, c, bars, bounds, owners)
      decreases c - root
    {
      if c !in coords.y {
        assert !Drawable(tree, coords, c);
        return Failure(MissingCoordinate(c));
      }
      var currentLambda := coords.y[c];
      if c !in coords.x {
        assert !Drawable(tree, coords, c);
        return Failure(MissingCoordinate(c));
      }
      var rows := RowsOf(tree, c);
      var currentSize := SizeSum(rows) as real;
      var center := coords.x[c] * scaling;
      if rows == [] {
        assert !Drawable(tree, coords, c);
        return Failure(NoChildren(c));
      }
      var b := Bounds(center - currentSize / 2.0, center + currentSize / 2.0, currentLambda, MaxLambda(rows));
      var run := ClusterBars(center, currentLambda, rows);
      ExtendIcicles(tree, coords, scaling, lastLeaf, c, bars, bounds, owners, center, currentSize, b, run);
      bars := bars + run;
      bounds := bounds[c := b];
      owners := owners + seq(|run|, _ => c);
      c := c - 1;
    }
    IciclesDone(tree, coords, scaling, root, lastLeaf, c, bars, bounds, owners);
    BoundsFitCover(tree, coords, scaling, root, lastLeaf, bounds);
    return Success(Icicles(bars, bounds));
  }

  /**
   * `bar_bounds` bound the bars: when the rows of `c` leave no earlier than
   * `c` starts and their sizes are not negative, every bar of `c` lies
   * between the bottom and the top of its bounds and is no wider than them.
   */
  lemma BarWithinBounds(tree: Tree, coords: Coords, scaling: real, c: int, b: Bar, bd: Bounds)
    requires Drawable(tree, coords, c)
    requires BoundsFit(tree, coords, scaling, c, bd) && BarFits(tree, coords, scaling, c, b)
    requires forall k :: 0 <= k < |RowsOf(tree, c)| ==> RowsOf(tree, c)[k].lambda >= coords.y[c]
    requires forall k :: 0 <= k < |RowsOf(tree, c)| ==> RowsOf(tree, c)[k].childSize >= 0
    ensures bd.bottom <= b.bottom && Top(b) <= bd.top
    ensures 0 <= b.width && b.width as real <= bd.right - bd.left
  {
    var rows := RowsOf(tree, c);
    SizeAtLeastAtMostSum(rows, Top(b));
  }

  /** `np.sign`: a unit of the same sign as `v`, or 0 for 0. */
  function Sign(v: real): (s: real)
    ensures s == 1.0 || s == -1.0 || s == 0.0
    ensures (s > 0.0 <==> v > 0.0) && (s < 0.0 <==> v < 0.0)
  {
    if v > 0.0 then 1.0 else if v < 0.0 then -1.0 else 0.0
  }

  /** A split row can be drawn: both ends have an x coordinate and the child a y coordinate. */
  predicate Connectable(coords: Coords, e: Edge) {
    e.child in coords.x && e.parent in coords.x && e.child in coords.y
  }

  /** The exception the line pass raises at a row it cannot draw, in the order the row's coordinates are read. */
  function ConnectError(coords: Coords, e: Edge): PlotError {
    if e.child !in coords.x then MissingCoordinate(e.child)
    else if e.parent !in coords.x then MissingCoordinate(e.parent)
    else MissingCoordinate(e.child)
  }

  /**
   * The connector of a split row: horizontal at the height the child
   * starts, from the parent's scaled x to half the child's size beyond the
   * child's scaled x, on the side away from the parent.
   */
  predicate LineFits(coords: Coords, scaling: real, e: Edge, l: Line)
    requires Connectable(coords, e)
  {
    var px := coords.x[e.parent];
    var cx := coords.x[e.child];
    l.y0 == coords.y[e.child] && l.y1 == coords.y[e.child] &&
    l.x0 == px * scaling &&
    l.x1 - cx * scaling == Sign(cx - px) * (e.childSize as real / 2.0)
  }

  /** The first `n` rows of `rows` can be drawn and `lines` holds their connectors, in row order. */
  predicate ConnectorsFit(coords: Coords, scaling: real, rows: seq<Edge>, lines: seq<Line>, n: int) {
    0 <= n <= |rows| && |lines| == n &&
    forall k :: 0 <= k < n ==> Connectable(coords, rows[k]) && LineFits(coords, scaling, rows[k], lines[k])
  }

  /** The connector of the next row extends the connectors drawn so far. */
  lemma ConnectorAppend(coords: Coords, scaling: real, rows: seq<Edge>, lines: seq<Line>, i: int, l: Line)
    requires ConnectorsFit(coords, scaling, rows, lines, i) && i < |rows|
    requires Connectable(coords, rows[i]) && LineFits(coords, scaling, rows[i], l)
    ensures ConnectorsFit(coords, scaling, rows, lines + [l], i + 1)
  {
    var after := lines + [l];
    forall k | 0 <= k < i + 1
      ensures Connectable(coords, rows[k]) && LineFits(coords, scaling, rows[k], after[k])
    {
      if k < i {
        assert after[k] == lines[k];
      }
    }
  }

  /** Every connector is horizontal. */
  lemma ConnectorsLevel(coords: Coords, scaling: real, rows: seq<Edge>, lines: seq<Line>, n: int)
    requires ConnectorsFit(coords, scaling, rows, lines, n)
    ensures forall i :: 0 <= i < |lines| ==> lines[i].y0 == lines[i].y1
  {
    forall i | 0 <= i < |lines| ensures lines[i].y0 == lines[i].y1 {
      assert LineFits(coords, scaling, rows[i], lines[i]);
    }
  }

  /**
   * The line pass of `get_plot_data`: one connector per row of the cluster
   * tree, in row order, or the coordinate missing at the first row that
   * cannot be drawn.
   */
  method ConnectorLines(tree: Tree, coords: Coords, scaling: real) returns (r: Result<seq<Line>, PlotError>)
    ensures r.Success? <==> forall i :: 0 <= i < |ClusterTree(tree)| ==> Connectable(coords, ClusterTree(tree)[i])
    ensures r.Failure? ==>
      exists i :: 0 <= i < |ClusterTree(tree)| && !Connectable(coords, ClusterTree(tree)[i]) &&
                  r.error == ConnectError(coords, ClusterTree(tree)[i]) &&
                  forall k :: 0 <= k < i ==> Connectable(coords, ClusterTree(tree)[k])
    ensures r.Success? ==> ConnectorsFit(coords, scaling, ClusterTree(tree), r.value, |ClusterTree(tree)|)
    ensures r.Success? ==> forall i :: 0 <= i < |r.value| ==> r.value[i].y0 == r.value[i].y1
  {
    var ct := ClusterTree(tree);
    var lines: seq<Line> := [];
    for i := 0 to |ct|
      invariant ConnectorsFit(coords, scaling, ct, lines, i)
    {
      var row := ct[i];
      if row.child !in coords.x {
        assert !Connectable(coords, ClusterTree(tree)[i]);
        return Failure(MissingCoordinate(row.child));
      }
      if row.parent !in coords.x {
        assert !Connectable(coords, ClusterTree(tree)[i]);
        return Failure(MissingCoordinate(row.parent));
      }
      var sign := Sign(coords.x[row.child] - coords.x[row.parent]);
      var x0 := coords.x[row.parent] * scaling;
      var x1 := coords.x[row.child] * scaling + sign * (row.childSize as real / 2.0);
      if row.child !in coords.y {
        assert !Connectable(coords, ClusterTree(tree)[i]);
        return Failure(MissingCoordinate(row.child));
      }
      var line := Line(x0, x1, coords.y[row.child], coords.y[row.child]);
      ConnectorAppend(coords, scaling, ct, lines, i, line);
      lines := lines + [line];
    }
    ConnectorsLevel(coords, scaling, ct, lines, |ct|);
    return Success(lines);
  }

  /**
   * With a scale and a size that are not negative, a connector runs from
   * the parent's centre through the child's centre and on past it, away
   * from the parent.
   */
  lemma LineCrossesChild(coords: Coords, scaling: real, e: Edge, l: Line)
    requires Connectable(coords, e) && LineFits(coords, scaling, e, l)
    requires scaling >= 0.0 && e.childSize >= 0
    ensures coords.x[e.parent] <= coords.x[e.child] ==> l.x0 <= coords.x[e.child] * scaling <= l.x1
    ensures coords.x[e.child] <= coords.x[e.parent] ==> l.x1 <= coords.x[e.child] * scaling <= l.x0
  {
    var px := coords.x[e.parent];
    var cx := coords.x[e.child];
    assert cx * scaling - px * scaling == (cx - px) * scaling;
    if px <= cx {
      assert (cx - px) * scaling >= 0.0;
    } else {
      assert (px - cx) * scaling >= 0.0;
    }
  }

  /** The two children of a split placed at different x lie on opposite sides of their parent. */
  lemma SplitSides(tree: Tree, x: map<int, real>, c: int)
    requires MeanOfChildren(tree, x, c)
    requires x[ClusterRowsOf(tree, c)[0].child] != x[ClusterRowsOf(tree, c)[1].child]
    ensures var split := ClusterRowsOf(tree, c);
      Sign(x[split[0].child] - x[c]) == -Sign(x[split[1].child] - x[c]) != 0.0
  {
  }

  /**
   * `cluster_bounds` has an entry for exactly the clusters from `root` to
   * `lastLeaf`, each as wide as the cluster's points and reaching up to the
   * largest lambda of its rows.
   */
  ghost predicate BoundsCover(tree: Tree, root: int, lastLeaf: int, bounds: map<int, Bounds>) {
    (forall c :: c in bounds <==> root <= c <= lastLeaf) &&
    forall c :: root <= c <= lastLeaf ==>
                c in bounds && RowsOf(tree, c) != [] &&
                bounds[c].right - bounds[c].left == SizeSum(RowsOf(tree, c)) as real &&
                bounds[c].top == MaxLambda(RowsOf(tree, c))
  }

  lemma BoundsFitCover(tree: Tree, coords: Coords, scaling: real, root: int, lastLeaf: int, bounds: map<int, Bounds>)
    requires forall c :: c in bounds <==> root <= c <= lastLeaf
    requires forall c :: root <= c <= lastLeaf ==>
                         Drawable(tree, coords, c) && BoundsFit(tree, coords, scaling, c, bounds[c])
    ensures BoundsCover(tree, root, lastLeaf, bounds)
  {
    forall c | root <= c <= lastLeaf
      ensures c in bounds && RowsOf(tree, c) != [] && bounds[c].top == MaxLambda(RowsOf(tree, c))
    {
      FitTopIsMax(tree, coords, scaling, c, bounds[c]);
    }
  }

  /** The top of fitting bounds is the largest lambda of the cluster's rows. */
  lemma FitTopIsMax(tree: Tree, coords: Coords, scaling: real, c: int, b: Bounds)
    requires Drawable(tree, coords, c) && BoundsFit(tree, coords, scaling, c, b)
    ensures RowsOf(tree, c) != [] && b.top == MaxLambda(RowsOf(tree, c))
  {
    var rows := RowsOf(tree, c);
    var k :| 0 <= k < |rows| && rows[k].lambda == b.top;
    var m :| 0 <= m < |rows| && rows[m].lambda == MaxLambda(rows);
    assert rows[k].lambda <= MaxLambda(rows);
    assert rows[m].lambda <= b.top;
  }

  /** Every cluster from `root` to `lastLeaf` can be drawn, and every cluster row can be connected. */
  ghost predicate Plottable(tree: Tree, coords: Coords, root: int, lastLeaf: int) {
    (forall c :: root <= c <= lastLeaf ==> Drawable(tree, coords, c)) &&
    (forall i :: 0 <= i < |ClusterTree(tree)| ==> Connectable(coords, ClusterTree(tree)[i]))
  }

  /** The bounds of every cluster from `root` to `lastLeaf` start at that cluster's y coordinate. */
  ghost predicate BoundsFromY(coords: Coords, root: int, lastLeaf: int, bounds: map<int, Bounds>) {
    forall c :: root <= c <= lastLeaf ==> c in coords.y && c in bounds && bounds[c].bottom == coords.y[c]
  }

  /** Every cluster from `root` to `lastLeaf` is drawn, and its bounds fit its bars under `scaling`. */
  ghost predicate BoundsFitAll(tree: Tree, coords: Coords, scaling: real, root: int, lastLeaf: int, bounds: map<int, Bounds>) {
    forall c :: root <= c <= lastLeaf ==>
                c in bounds && Drawable(tree, coords, c) && BoundsFit(tree, coords, scaling, c, bounds[c])
  }

  /**
   * `CondensedTree.get_plot_data` with the linear size scale: the leaves,
   * the coordinates, the scale (the size of the root), the bars and bounds
   * of every cluster between the smallest and the largest parent id, and
   * one connector per cluster row.
   */
  method GetPlotData(tree: Tree, sep: real) returns (r: Result<PlotData, PlotError>, ghost coords: Coords)
    requires WellFormed(ClusterTree(tree))
    ensures r == Failure(NoClusterTree) <==> ClusterTree(tree) == []
    ensures ClusterTree(tree) != [] && CoordsComplete(tree, GetLeaves(tree).value, MinParent(tree), MaxParent(tree)) ==>
      PlacedCoords(tree, GetLeaves(tree).value, sep, MinParent(tree), MaxParent(tree), coords)
    ensures r.Success? <==>
      ClusterTree(tree) != [] &&
      CoordsComplete(tree, GetLeaves(tree).value, MinParent(tree), MaxParent(tree)) &&
      Plottable(tree, coords, MinParent(tree), MaxParent(tree))
    ensures r.Success? ==>
      tree != [] && BoundsFromY(coords, MinParent(tree), MaxParent(tree), r.value.clusterBounds)
    ensures r.Success? ==>
      tree != [] &&
      BoundsFitAll(tree, coords, SizeSum(RowsOf(tree, MinParent(tree))) as real,
                   MinParent(tree), MaxParent(tree), r.value.clusterBounds)
    ensures r.Success? ==>
      tree != [] &&
      ConnectorsFit(coords, SizeSum(RowsOf(tree, MinParent(tree))) as real, ClusterTree(tree),
                    r.value.lines, |ClusterTree(tree)|)
    ensures r.Success? ==> tree != [] && |r.value.lines| == |ClusterTree(tree)|
    ensures r.Success? ==>
      tree != [] && BoundsCover(tree, MinParent(tree), MaxParent(tree), r.value.clusterBounds)
    ensures r.Success? ==>
      tree != [] && MinParent(tree) in r.value.clusterBounds &&
      r.value.clusterBounds[MinParent(tree)].bottom == 0.0
    ensures r.Success? ==>
      forall i :: 0 <= i < |r.value.lines| ==> r.value.lines[i].y0 == r.value.lines[i].y1
  {
    var leaves := GetLeaves(tree);
    if leaves.None? {
      return Failure(NoClusterTree), Coords(map[], map[]);
    }
    r, coords := PlotLayout(tree, leaves.value, sep, MinParent(tree), MaxParent(tree));
  }

  /**
   * `get_plot_data` once the leaves, `root` and `last_leaf` are known: the
   * coordinate pass, then the bar and line passes over its coordinates.
   */
  method PlotLayout(tree: Tree, leaves: seq<int>, sep: real, root: int, lastLeaf: int)
    returns (r: Result<PlotData, PlotError>, ghost coords: Coords)
    requires WellFormed(ClusterTree(tree)) && root <= lastLeaf
    ensures r != Failure(NoClusterTree)
    ensures CoordsComplete(tree, leaves, root, lastLeaf) ==> PlacedCoords(tree, leaves, sep, root, lastLeaf, coords)
    ensures r.Success? <==> CoordsComplete(tree, leaves, root, lastLeaf) && Plottable(tree, coords, root, lastLeaf)
    ensures r.Success? ==> BoundsFromY(coords, root, lastLeaf, r.value.clusterBounds)
    ensures r.Success? ==>
      BoundsFitAll(tree, coords, SizeSum(RowsOf(tree, root)) as real, root, lastLeaf, r.value.clusterBounds)
    ensures r.Success? ==>
      ConnectorsFit(coords, SizeSum(RowsOf(tree, root)) as real, ClusterTree(tree), r.value.lines, |ClusterTree(tree)|)
    ensures r.Success? ==> |r.value.lines| == |ClusterTree(tree)|
    ensures r.Success? ==> BoundsCover(tree, root, lastLeaf, r.value.clusterBounds)
    ensures r.Success? ==> root in r.value.clusterBounds && r.value.clusterBounds[root].bottom == 0.0
    ensures r.Success? ==>
      forall i :: 0 <= i < |r.value.lines| ==> r.value.lines[i].y0 == r.value.lines[i].y1
  {
    var placed := Coordinates(tree, leaves, sep, root, lastLeaf);
    if placed.Failure? {
      return Failure(placed.error), Coords(map[], map[]);
    }
    coords := placed.value;
    var scaling := SizeSum(RowsOf(tree, root)) as real;
    r := BarsAndLines(tree, placed.value, scaling, root, lastLeaf);
  }

  /**
   * The second half of `get_plot_data`: the bar pass over the clusters
   * from `root` to `lastLeaf`, then the line pass over the cluster rows.
   */
  method BarsAndLines(tree: Tree, coords: Coords, scaling: real, root: int, lastLeaf: int)
    returns (r: Result<PlotData, PlotError>)
    ensures r.Success? <==> Plottable(tree, coords, root, lastLeaf)
    ensures r.Failure? ==> r.error.MissingCoordinate? || r.error.NoChildren?
    ensures r.Success? ==> |r.value.lines| == |ClusterTree(tree)|
    ensures r.Success? ==> BoundsCover(tree, root, lastLeaf, r.value.clusterBounds)
    ensures r.Success? ==> BoundsFromY(coords, root, lastLeaf, r.value.clusterBounds)
    ensures r.Success? ==> BoundsFitAll(tree, coords, scaling, root, lastLeaf, r.value.clusterBounds)
    ensures r.Success? ==>
      forall j :: 0 <= j < |r.value.bars| ==> OwnedBar(tree, coords, scaling, root, lastLeaf, r.value.bars[j])
    ensures r.Success? ==> ConnectorsFit(coords, scaling, ClusterTree(tree), r.value.lines, |ClusterTree(tree)|)
    ensures r.Success? ==>
      forall i :: 0 <= i < |r.value.lines| ==> r.value.lines[i].y0 == r.value.lines[i].y1
  {
    var icicles := BarsAndBounds(tree, coords, scaling, root, lastLeaf);
    if icicles.Failure? {
      return Failure(icicles.error);
    }
    forall c | root <= c <= lastLeaf
      ensures c in coords.y && c in icicles.value.bounds && icicles.value.bounds[c].bottom == coords.y[c]
    {
      assert BoundsFit(tree, coords, scaling, c, icicles.value.bounds[c]);
    }
    var lines := ConnectorLines(tree, coords, scaling);
    if lines.Failure? {
      return Failure(lines.error);
    }
    return Success(PlotData(icicles.value.bars, lines.value, icicles.value.bounds));
  }
}
