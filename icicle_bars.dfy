/**
 * The run of icicle bars of one cluster in `CondensedTree.get_plot_data`:
 * what a run promises about the cluster's rows, what the bar loop keeps
 * while it visits the rows in lambda order, and the lemmas that carry one
 * over to the other.
 */
module IcicleBars {
  import opened CondensedTrees
  import opened PlotRows

  /** One icicle bar: `bar_centers`, `bar_tops` (the height), `bar_bottoms`, `bar_widths`. */
  datatype Bar = Bar(center: real, height: real, bottom: real, width: int)

  function Top(b: Bar): real {
    b.bottom + b.height
  }

  /**
   * `bars` is the icicle of a cluster centred at `center` that starts at
   * `start` and has the rows `children`: every bar is centred on the
   * cluster and not flat, ends at a lambda some row leaves at, and is as
   * wide as the points still present there; the bars stack up from `start`
   * without gaps, each higher than the one below, up to the largest lambda;
   * and there is no bar exactly when every row leaves at `start`.
   */
  predicate BarRun(center: real, start: real, children: seq<Edge>, bars: seq<Bar>) {
    (forall j :: 0 <= j < |bars| ==> bars[j].center == center && bars[j].height != 0.0) &&
    (forall j :: 0 <= j < |bars| ==> HasLambda(children, Top(bars[j]))) &&
    (forall j :: 0 <= j < |bars| ==> bars[j].width == SizeAtLeast(children, Top(bars[j]))) &&
    (forall j :: 0 < j < |bars| ==> bars[j].bottom == Top(bars[j - 1]) && Top(bars[j - 1]) < Top(bars[j])) &&
    (forall j :: 0 <= j < |bars| ==> bars[j].bottom == start || HasLambda(children, bars[j].bottom)) &&
    (bars != [] ==> children != [] && bars[0].bottom == start && Top(bars[|bars| - 1]) == MaxLambda(children)) &&
    (bars == [] <==> forall k :: 0 <= k < |children| ==> children[k].lambda == start) &&
    EveryLevel(start, children, bars)
  }

  /**
   * Every lambda level of the rows ends a bar, except the starting level
   * when no row leaves below it.
   */
  predicate EveryLevel(start: real, children: seq<Edge>, bars: seq<Bar>) {
    forall k :: 0 <= k < |children| ==>
      HasTop(bars, children[k].lambda) ||
      (children[k].lambda == start && forall m :: 0 <= m < |children| ==> children[m].lambda >= start)
  }

  /** Some bar of `bars` ends at `l`. */
  predicate HasTop(bars: seq<Bar>, l: real) {
    exists j :: 0 <= j < |bars| && Top(bars[j]) == l
  }

  /**
   * The bars of rows in lambda order: they fit the rows, stack up from
   * `start` to the last row's lambda, and there are none exactly when
   * every row leaves at `start`.
   */
  ghost predicate SortedRun(center: real, start: real, rows: seq<Edge>, bars: seq<Bar>) {
    BarsFit(center, rows, bars) &&
    BarsChain(start, bars, if rows == [] then start else rows[|rows| - 1].lambda) &&
    (bars == [] <==> forall k :: 0 <= k < |rows| ==> rows[k].lambda == start) &&
    LevelsCovered(start, rows, |rows|, bars)
  }

  /**
   * Each of the first `n` sorted rows ends a bar, unless it and the first
   * row both leave at `start` (rows at the starting level add no bar).
   */
  ghost predicate LevelsCovered(start: real, rows: seq<Edge>, n: int, bars: seq<Bar>)
    requires 0 <= n <= |rows|
  {
    forall k :: 0 <= k < n ==>
      HasTop(bars, rows[k].lambda) || (rows[k].lambda == start && rows[0].lambda == start)
  }

  /**
   * What the bar loop keeps after the first `i` sorted rows: the size still
   * to go is the sum over the rows not yet visited, the current lambda is
   * the last visited row's, and the bars so far fit the rows and stack up.
   */
  ghost predicate RunSoFar(center: real, start: real, rows: seq<Edge>, i: int, bars: seq<Bar>,
                           currentSize: int, currentLambda: real) {
    0 <= i <= |rows| && SortedByLambda(rows) &&
    currentSize == SizeSum(rows[i..]) &&
    currentLambda == (if i == 0 then start else rows[i - 1].lambda) &&
    BarsFit(center, rows, bars) &&
    BarsChain(start, bars, currentLambda) &&
    (bars == [] <==> forall k :: 0 <= k < i ==> rows[k].lambda == start) &&
    LevelsCovered(start, rows, i, bars)
  }

  /** The lambda the bar loop stands at after visiting the first `i` sorted rows. */
  function LambdaAfter(start: real, rows: seq<Edge>, i: int): real
    requires 0 <= i <= |rows|
  {
    if i == 0 then start else rows[i - 1].lambda
  }

  /**
   * The bars the loop has emitted after visiting the first `i` rows in
   * lambda order: a row at a new level adds a bar from the current level up
   * to it, as wide as the points of the rows not yet visited.
   */
  function BarsAfter(center: real, start: real, rows: seq<Edge>, i: int): seq<Bar>
    requires 0 <= i <= |rows|
    decreases i
  {
    if i == 0 then []
    else
      var bars := BarsAfter(center, start, rows, i - 1);
      var current := LambdaAfter(start, rows, i - 1);
      if rows[i - 1].lambda != current
      then bars + [Bar(center, rows[i - 1].lambda - current, current, SizeSum(rows[i - 1..]))]
      else bars
  }

  /** Visiting row `i`: what the loop body does to the bars and to the size still to go. */
  lemma BarsAfterNext(center: real, start: real, rows: seq<Edge>, i: int)
    requires 0 <= i < |rows|
    ensures BarsAfter(center, start, rows, i + 1) ==
      if rows[i].lambda != LambdaAfter(start, rows, i)
      then BarsAfter(center, start, rows, i) +
           [Bar(center, rows[i].lambda - LambdaAfter(start, rows, i), LambdaAfter(start, rows, i), SizeSum(rows[i..]))]
      else BarsAfter(center, start, rows, i)
    ensures SizeSum(rows[i..]) - rows[i].childSize == SizeSum(rows[i + 1..])
    ensures LambdaAfter(start, rows, i + 1) == rows[i].lambda
  {
    assert rows[i..] == [rows[i]] + rows[i + 1..];
  }

  /** The bars of all the sorted rows form a run of those rows. */
  lemma SortedBarsRun(center: real, start: real, rows: seq<Edge>)
    requires SortedByLambda(rows)
    ensures SortedRun(center, start, rows, BarsAfter(center, start, rows, |rows|))
  {
    BarsAfterRun(center, start, rows, |rows|);
  }

  /** After any number of sorted rows, the emitted bars keep the loop's facts. */
  lemma {:induction false} BarsAfterRun(center: real, start: real, rows: seq<Edge>, i: int)
    requires SortedByLambda(rows) && 0 <= i <= |rows|
    ensures RunSoFar(center, start, rows, i, BarsAfter(center, start, rows, i), SizeSum(rows[i..]),
                     LambdaAfter(start, rows, i))
    decreases i
  {
    if i > 0 {
      BarsAfterRun(center, start, rows, i - 1);
      BarsAfterStep(center, start, rows, i);
    }
  }

  /** One more sorted row: the facts about the emitted bars carry over. */
  lemma BarsAfterStep(center: real, start: real, rows: seq<Edge>, i: int)
    requires 0 < i <= |rows|
    requires RunSoFar(center, start, rows, i - 1, BarsAfter(center, start, rows, i - 1), SizeSum(rows[i - 1..]),
                      LambdaAfter(start, rows, i - 1))
    ensures RunSoFar(center, start, rows, i, BarsAfter(center, start, rows, i), SizeSum(rows[i..]),
                     LambdaAfter(start, rows, i))
  {
    var size := SizeSum(rows[i - 1..]);
    RunStep(center, start, rows, i - 1, BarsAfter(center, start, rows, i - 1), size,
            LambdaAfter(start, rows, i - 1), BarsAfter(center, start, rows, i));
    assert size - rows[i - 1].childSize == SizeSum(rows[i..]);
    assert LambdaAfter(start, rows, i) == rows[i - 1].lambda;
  }

  /** Visiting the next sorted row keeps the loop's facts, whether it adds a bar or not. */
  lemma RunStep(center: real, start: real, rows: seq<Edge>, i: int, bars: seq<Bar>,
                currentSize: int, currentLambda: real, after: seq<Bar>)
    requires RunSoFar(center, start, rows, i, bars, currentSize, currentLambda) && i < |rows|
    requires after == if rows[i].lambda != currentLambda
                      then bars + [Bar(center, rows[i].lambda - currentLambda, currentLambda, currentSize)]
                      else bars
    ensures RunSoFar(center, start, rows, i + 1, after, currentSize - rows[i].childSize, rows[i].lambda)
  {
    if rows[i].lambda != currentLambda {
      RunEmit(center, start, rows, i, bars, currentSize, currentLambda);
    } else {
      RunSkip(center, start, rows, i, bars, currentSize, currentLambda);
    }
  }

  /** A row at a new lambda level adds a bar up to that level, as wide as the points still present. */
  lemma RunEmit(center: real, start: real, rows: seq<Edge>, i: int, bars: seq<Bar>,
                currentSize: int, currentLambda: real)
    requires RunSoFar(center, start, rows, i, bars, currentSize, currentLambda) && i < |rows|
    requires rows[i].lambda != currentLambda
    ensures RunSoFar(center, start, rows, i + 1,
                     bars + [Bar(center, rows[i].lambda - currentLambda, currentLambda, currentSize)],
                     currentSize - rows[i].childSize, rows[i].lambda)
  {
    var b := Bar(center, rows[i].lambda - currentLambda, currentLambda, currentSize);
    assert rows[i..] == [rows[i]] + rows[i + 1..];
    SuffixIsStillPresent(rows, i);
    FitAppend(center, rows, bars, b, i);
    ChainAppend(start, bars, currentLambda, b);
    CoveredAppend(start, rows, i, bars, b);
  }

  /** A new bar ending at the next row's lambda covers that row and keeps every earlier one covered. */
  lemma CoveredAppend(start: real, rows: seq<Edge>, i: int, bars: seq<Bar>, b: Bar)
    requires 0 <= i < |rows| && LevelsCovered(start, rows, i, bars) && Top(b) == rows[i].lambda
    ensures LevelsCovered(start, rows, i + 1, bars + [b])
  {
    var nb := bars + [b];
    assert Top(nb[|bars|]) == rows[i].lambda;
    forall k | 0 <= k < i && HasTop(bars, rows[k].lambda) ensures HasTop(nb, rows[k].lambda) {
      var j :| 0 <= j < |bars| && Top(bars[j]) == rows[k].lambda;
      assert nb[j] == bars[j];
    }
  }

  /** A row at the current lambda level adds no bar. */
  lemma RunSkip(center: real, start: real, rows: seq<Edge>, i: int, bars: seq<Bar>,
                currentSize: int, currentLambda: real)
    requires RunSoFar(center, start, rows, i, bars, currentSize, currentLambda) && i < |rows|
    requires rows[i].lambda == currentLambda
    ensures RunSoFar(center, start, rows, i + 1, bars, currentSize - rows[i].childSize, rows[i].lambda)
  {
    assert rows[i..] == [rows[i]] + rows[i + 1..];
    if i > 0 {
      assert rows[i].lambda == rows[i - 1].lambda;
    }
  }

  /** The run built from the sorted rows has every property `ClusterBars` promises about the rows as given. */
  lemma FinishRun(center: real, start: real, children: seq<Edge>, rows: seq<Edge>, bars: seq<Bar>)
    requires rows == SortByLambda(children)
    requires SortedRun(center, start, rows, bars)
    ensures BarRun(center, start, children, bars)
  {
    BarsOfSortedRows(children, rows, bars);
    BottomsAreLambdas(children, start, bars);
    AllAtStart(children, rows, start);
    if bars != [] {
      MaxLambdaIsLast(children, rows);
    }
    CoveredChildren(children, rows, start, bars);
  }

  /** Restates the covered levels of the sorted rows in terms of the rows as given. */
  lemma CoveredChildren(children: seq<Edge>, rows: seq<Edge>, start: real, bars: seq<Bar>)
    requires rows == SortByLambda(children)
    requires LevelsCovered(start, rows, |rows|, bars)
    ensures EveryLevel(start, children, bars)
  {
    SortByLambdaFacts(children, 0.0);
    forall k | 0 <= k < |children| && !HasTop(bars, children[k].lambda)
      ensures children[k].lambda == start && forall m :: 0 <= m < |children| ==> children[m].lambda >= start
    {
      assert children[k] in rows;
      var i :| 0 <= i < |rows| && rows[i] == children[k];
      assert rows[0].lambda == start;
      forall m | 0 <= m < |children| ensures children[m].lambda >= start {
        assert children[m] in rows;
        var j :| 0 <= j < |rows| && rows[j] == children[m];
        assert rows[0].lambda <= rows[j].lambda;
      }
    }
  }

  /** In a contiguous run, every bar but the first starts where the one below it ends. */
  lemma BottomsAreLambdas(children: seq<Edge>, start: real, bars: seq<Bar>)
    requires forall j :: 0 <= j < |bars| ==> HasLambda(children, Top(bars[j]))
    requires forall j :: 0 < j < |bars| ==> bars[j].bottom == Top(bars[j - 1])
    requires bars != [] ==> bars[0].bottom == start
    ensures forall j :: 0 <= j < |bars| ==> bars[j].bottom == start || HasLambda(children, bars[j].bottom)
  {
    forall j | 0 < j < |bars| ensures HasLambda(children, bars[j].bottom) {
      assert bars[j].bottom == Top(bars[j - 1]);
    }
  }

  /** In lambda order, the last row has the largest lambda. */
  lemma MaxLambdaIsLast(children: seq<Edge>, rows: seq<Edge>)
    requires rows == SortByLambda(children) && rows != []
    ensures children != [] && MaxLambda(children) == rows[|rows| - 1].lambda
  {
    SortByLambdaFacts(children, 0.0);
    var last := rows[|rows| - 1];
    assert last in children;
    var m := MaxLambda(children);
    var i :| 0 <= i < |children| && children[i] == last;
    assert last.lambda <= m;
    var k :| 0 <= k < |children| && children[k].lambda == m;
    assert children[k] in rows;
    var j :| 0 <= j < |rows| && rows[j] == children[k];
    SortedUpToLast(rows, j);
    assert m <= last.lambda;
  }

  /** Every bar so far is centred on the cluster, not flat, ends at a row's lambda and is as wide as the points present there. */
  ghost predicate BarsFit(center: real, rows: seq<Edge>, bars: seq<Bar>) {
    (forall j :: 0 <= j < |bars| ==> bars[j].center == center && bars[j].height != 0.0) &&
    (forall j :: 0 <= j < |bars| ==> HasLambda(rows, Top(bars[j]))) &&
    (forall j :: 0 <= j < |bars| ==> bars[j].width == SizeAtLeast(rows, Top(bars[j])))
  }

  /** The bars so far stack up from `start` without gaps, each higher than the last, and end at `top`. */
  ghost predicate BarsChain(start: real, bars: seq<Bar>, top: real) {
    (forall j :: 0 < j < |bars| ==> bars[j].bottom == Top(bars[j - 1]) && Top(bars[j - 1]) < Top(bars[j])) &&
    (bars != [] ==> bars[0].bottom == start && Top(bars[|bars| - 1]) == top)
  }

  lemma FitAppend(center: real, rows: seq<Edge>, bars: seq<Bar>, b: Bar, i: int)
    requires BarsFit(center, rows, bars) && 0 <= i < |rows|
    requires b.center == center && b.height != 0.0 && Top(b) == rows[i].lambda
    requires b.width == SizeAtLeast(rows, rows[i].lambda)
    ensures BarsFit(center, rows, bars + [b])
  {
    var nb := bars + [b];
    assert forall j :: 0 <= j < |bars| ==> nb[j] == bars[j];
    assert HasLambda(rows, Top(b));
  }

  lemma ChainAppend(start: real, bars: seq<Bar>, top: real, b: Bar)
    requires BarsChain(start, bars, top) && b.bottom == top
    requires bars == [] ==> top == start
    requires bars != [] ==> top < Top(b)
    ensures BarsChain(start, bars + [b], Top(b))
  {
    var nb := bars + [b];
    assert forall j :: 0 <= j < |bars| ==> nb[j] == bars[j];
  }

  lemma AllAtStart(children: seq<Edge>, rows: seq<Edge>, start: real)
    requires rows == SortByLambda(children)
    ensures (forall k :: 0 <= k < |rows| ==> rows[k].lambda == start) <==>
            (forall k :: 0 <= k < |children| ==> children[k].lambda == start)
  {
    if forall k :: 0 <= k < |rows| ==> rows[k].lambda == start {
      forall k | 0 <= k < |children| ensures children[k].lambda == start {
        assert children[k] in rows;
      }
    }
    if forall k :: 0 <= k < |children| ==> children[k].lambda == start {
      forall k | 0 <= k < |rows| ensures rows[k].lambda == start {
        assert rows[k] in children;
      }
    }
  }

  /** Restates the bar facts about the sorted rows in terms of the rows as given. */
  lemma BarsOfSortedRows(children: seq<Edge>, rows: seq<Edge>, bars: seq<Bar>)
    requires rows == SortByLambda(children)
    requires forall j :: 0 <= j < |bars| ==> HasLambda(rows, Top(bars[j]))
    requires forall j :: 0 <= j < |bars| ==> bars[j].width == SizeAtLeast(rows, Top(bars[j]))
    ensures forall j :: 0 <= j < |bars| ==> HasLambda(children, Top(bars[j]))
    ensures forall j :: 0 <= j < |bars| ==> bars[j].width == SizeAtLeast(children, Top(bars[j]))
  {
    forall j | 0 <= j < |bars|
      ensures HasLambda(children, Top(bars[j]))
      ensures bars[j].width == SizeAtLeast(children, Top(bars[j]))
    {
      assert HasLambda(rows, Top(bars[j]));
      var k :| 0 <= k < |rows| && rows[k].lambda == Top(bars[j]);
      assert rows[k] in children;
      SortByLambdaFacts(children, Top(bars[j]));
    }
  }

  /** The bars of a run rise: a later bar ends higher than an earlier one. */
  lemma {:induction false} TopsIncrease(center: real, start: real, children: seq<Edge>, bars: seq<Bar>, j: int, k: int)
    requires BarRun(center, start, children, bars) && 0 <= j < k < |bars|
    ensures Top(bars[j]) < Top(bars[k])
    decreases k - j
  {
    assert Top(bars[k - 1]) < Top(bars[k]);
    if j < k - 1 {
      TopsIncrease(center, start, children, bars, j, k - 1);
    }
  }

  /**
   * With sizes that are not negative, the running size only shrinks: a
   * later bar is no wider than an earlier one, and no bar is wider than the
   * cluster's rows together.
   */
  lemma WidthsShrink(center: real, start: real, children: seq<Edge>, bars: seq<Bar>, j: int, k: int)
    requires BarRun(center, start, children, bars) && 0 <= j < k < |bars|
    requires forall m :: 0 <= m < |children| ==> children[m].childSize >= 0
    ensures 0 <= bars[k].width <= bars[j].width <= SizeSum(children)
  {
    TopsIncrease(center, start, children, bars, j, k);
    SizeAtLeastMonotone(children, Top(bars[j]), Top(bars[k]));
    SizeAtLeastAtMostSum(children, Top(bars[j]));
    SizeAtLeastAtMostSum(children, Top(bars[k]));
  }
}
