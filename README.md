# hdbscan tree plotting core, modelled in Dafny

This project models the tree algorithms inside `hdbscan/plots.py`, the
module that wraps HDBSCAN's condensed tree, single linkage tree and
minimum spanning tree for plotting and export. Rendering is not modelled.
The algorithms are:

- the breadth-first search over a condensed tree (`_bfs_from_cluster_tree`);
- the leaf enumeration over the cluster tree, the condensed-tree rows with
  `child_size > 1` (`_recurse_leaf_dfs`, `_get_leaves`);
- the breadth-first search over a scipy linkage matrix (`_bfs_from_linkage_tree`);
- the excess-of-mass cluster selection (`CondensedTree._select_clusters`);
- the icicle layout of `CondensedTree.get_plot_data` with the linear size
  scale: leaf and split coordinates, the bars of every cluster, the cluster
  bounds and the split connectors;
- the parent ids `num_points + row` that `SingleLinkageTree.to_pandas` and
  `to_networkx` give the linkage rows.

A condensed tree is a sequence of `Edge(parent, child, lambda, childSize)`
rows. A linkage matrix is a sequence of `LinkageRow(left, right, distance,
size)` rows.

Callers must supply well-formed trees:
- The cluster tree of a condensed tree must have every child id above its
  parent id (`WellFormed(ClusterTree(tree))`). The point rows
  (`child_size == 1`) are not constrained: a point id is below every
  cluster id, so those rows go from a larger to a smaller id. The
  descending-id loops of the source rely on the order of the cluster rows,
  and so does every termination argument here.
- A linkage matrix must merge only points and earlier rows
  (`WellFormedLinkage`).

Trees in which no node has two parents (`UniqueChildren`) are not required.
Properties that need it, such as "no node listed twice", are stated as
implications.

Python exceptions become `Result` failures:
- `KeyError` for a child without a stability;
- `IndexError` for a linkage root past the last row;
- `ValueError` or `KeyError` in `get_plot_data`.

The modules follow the source:
- `CondensedTrees`: rows, the cluster tree, descent;
- `ClusterBfs`;
- `Leaves`;
- `LinkageTrees`: search and export ids;
- `Selection`;
- `PlotRows`: the per-cluster row selections and sums of the layout;
- `IcicleBars`: the bar run of one cluster;
- `Layout`: the whole of `get_plot_data`;
- `Wrappers`: `Option` and `Result`.

The loops of the source are methods, each proved against a specification
function or predicate:
- the two searches;
- the selection loop and its subtree-clearing loop;
- the coordinate, bar and line passes.

The pure recursion (`_recurse_leaf_dfs`) and the id arithmetic are
functions with lemmas.

Some behaviour of the code is worth knowing when reading the contracts:
- `node_list` drops the smallest stability key (`sorted(...)[:-1]`,
  hdbscan/plots.py:205). That key is the root only when the stabilities
  hold an entry for the root.
- The selection is returned as a list in descending id order.
- A cluster's running size reaches 0 after its last row.
  `PlotRows.SizeAtLeastBelow` and the loop invariant of `Layout.SortedBars`
  (`currentSize == SizeSum(rows[i..])`) state this.
- Neither search skips nodes it has already visited. "Each node once" is
  proved for forests.

## Model

| member | source | states |
|---|---|---|
| CondensedTrees.ClusterTree | hdbscan/plots.py:47 | The cluster tree holds exactly the rows of size above 1 and is no longer than the tree. |
| CondensedTrees.ClusterTreeKeepsShape | hdbscan/plots.py:47 | Pruning to the cluster tree keeps child ids above parent ids and keeps the forest shape. |
| CondensedTrees.ChildrenIn | hdbscan/plots.py:35 | The next search level holds exactly the children of rows whose parent is in the current level. |
| CondensedTrees.ChildrenOf | hdbscan/plots.py:40 | The children of a node are exactly the child ids of its rows. |
| CondensedTrees.ChildrenInDistinct | hdbscan/plots.py:35 | In a forest, one search level lists no child twice. |
| CondensedTrees.MinParent | hdbscan/plots.py:48 | The root is a parent id of some row and no row has a smaller parent. |
| CondensedTrees.MaxParent | hdbscan/plots.py:108 | `last_leaf` is a parent id of some row and no row has a larger parent. |
| CondensedTrees.AncestorsComparable | hdbscan/plots.py:218-220 | In a forest, two ancestors of one node are ancestor and descendant of each other. |
| ClusterBfs.LevelMeasureDecreases | hdbscan/plots.py:33-35 | With child ids above parent ids, each level lowers a bound, so the search loop ends. |
| ClusterBfs.BfsBelowFrontier | hdbscan/plots.py:33-35 | Everything the search lists descends from a node of the starting level. |
| ClusterBfs.BfsComplete | hdbscan/plots.py:33-35 | Every descendant of the root is listed. |
| ClusterBfs.NextLevelAntichain | hdbscan/plots.py:35 | In a forest, the next level again has no ancestor/descendant pair. |
| ClusterBfs.BfsDistinctFrom | hdbscan/plots.py:33-35 | In a forest, a search from an antichain without repeats lists no node twice. |
| ClusterBfs.BfsFromClusterTree | hdbscan/plots.py:25-37 | The loop returns the level-by-level order, root first; it lists exactly the root and its descendants, each once in a forest. |
| Leaves.RecurseLeafDfs | hdbscan/plots.py:39-44 | The result is non-empty, and every id in it has no cluster-tree children and descends from the start node. |
| Leaves.LeavesOfAll | hdbscan/plots.py:44 | The concatenated results of the children are leaves below the parent, non-empty when there are children. |
| Leaves.RecurseLeafDfsComplete | hdbscan/plots.py:39-44 | Every childless descendant of the start node is listed. |
| Leaves.RecurseLeafDfsDistinct | hdbscan/plots.py:39-44 | In a forest, no leaf is listed twice. |
| Leaves.GetLeaves | hdbscan/plots.py:46-49 | For any tree whose cluster rows go from smaller to larger ids: fails exactly when the cluster tree is empty; otherwise it returns only leaves that descend from the smallest cluster-tree parent. |
| Leaves.GetLeavesExact | hdbscan/plots.py:46-49 | The leaves are exactly the childless cluster-tree nodes below the root, each once in a forest. |
| LinkageTrees.NumPoints | hdbscan/plots.py:56-58 | `2 * rows - rows + 1` is one more than the number of rows. |
| LinkageTrees.MergeRows | hdbscan/plots.py:65-66 | Only merge ids become row indices; these are never negative and are in range for ids in range. |
| LinkageTrees.ChildColumns | hdbscan/plots.py:68 | Two ids per row, row by row: the left then the right child column. |
| LinkageTrees.ChildColumnsOfMergeRows | hdbscan/plots.py:65-68 | Keeping the merge rows and flattening their child columns gives, id by id, nothing for a point and both children for a merge. |
| LinkageTrees.LinkageNextFromParents | hdbscan/plots.py:65-68 | Every id of the next level is a child column of a merge id of the current level. |
| LinkageTrees.LinkageNextHasChildren | hdbscan/plots.py:65-68 | Both child columns of each merge id appear in the next level. |
| LinkageTrees.LinkageMeasureDecreases | hdbscan/plots.py:63-68 | Merges refer only to earlier nodes, so each level lowers a bound and the loop ends. |
| LinkageTrees.LinkageBfsComplete | hdbscan/plots.py:63-68 | The search reaches every node below a node it lists. |
| LinkageTrees.LinkageBfsExact | hdbscan/plots.py:51-70 | The search from an id in range lists the root first and exactly its descendants. |
| LinkageTrees.BfsFromLinkageTree | hdbscan/plots.py:51-70 | `IndexError` exactly when the root is past the last row; otherwise the level order, root first, with exactly the root's descendants. |
| LinkageTrees.Arange | hdbscan/plots.py:534 | `np.arange(lo, hi)` counts from `lo` up to just below `hi`. |
| LinkageTrees.PandasParents | hdbscan/plots.py:531-534 | Row `i` gets parent `num_points + i`, one per row. |
| LinkageTrees.PandasParentsAreMergeIds | hdbscan/plots.py:531-534 | The parent column holds exactly the merge ids, and the search expands each row's parent into that row's two children. |
| LinkageTrees.EnumeratedEdges | hdbscan/plots.py:564-566 | Two edges per row, each leaving a parent id from the enumerated range. |
| LinkageTrees.NetworkxEdges | hdbscan/plots.py:560-566 | Two edges per linkage row, each leaving a merge id `num_points .. num_points + rows - 1`. |
| LinkageTrees.EnumeratedEdgesAt | hdbscan/plots.py:564-566 | Row `i` gives the edges `start + i -> left` and `start + i -> right`, weighted by the row's distance. |
| LinkageTrees.NetworkxEdgesMatchSearch | hdbscan/plots.py:560-566 | The graph has an edge `p -> c` exactly when the linkage search expands `p` into `c`, weighted by `p`'s distance. |
| LinkageTrees.EnumeratedSizes | hdbscan/plots.py:568 | The keys are exactly the enumerated ids, and id `start + i` maps to row `i`'s size. |
| LinkageTrees.SizeDict | hdbscan/plots.py:568 | The size attribute is defined exactly on the merge ids, and each parent id carries its row's size. |
| Selection.SortedDescending | hdbscan/plots.py:205 | The keys listed in strictly descending order. |
| Selection.DropLast | hdbscan/plots.py:205 | `[:-1]` keeps everything before the last element, which is the one removed; the empty list stays empty. |
| Selection.NodeList | hdbscan/plots.py:205 | The node list is descending and holds exactly the keys that have a smaller key, so every key except the smallest. |
| Selection.DropSmallest | hdbscan/plots.py:205 | Dropping the last of a descending listing keeps exactly the keys above the smallest. |
| Selection.SumStability | hdbscan/plots.py:210-212 | The sum exists exactly when every child has a stability; otherwise the error names a child without one. |
| Selection.DeselectSubtree | hdbscan/plots.py:218-220 | Exactly the strict descendants of the node become `False`; the node and every other entry keep their values. |
| Selection.SelectStep | hdbscan/plots.py:209-220 | When the children's sum beats the node, the node becomes `False` and takes the sum; otherwise the node keeps its flag and all its strict descendants become `False`. A missing child is reported. |
| Selection.Selected | hdbscan/plots.py:222 | The result holds exactly the listed nodes still flagged `True`, in list order. |
| Selection.SelectDone | hdbscan/plots.py:209-222 | Once the loop is over, no node flagged `True` lies strictly below another. |
| Selection.SelectClusters | hdbscan/plots.py:203-222 | `KeyError` exactly when some child lacks a stability. Otherwise the result is descending, is drawn from the node list (never the smallest key), and is an antichain of the cluster tree. |
| PlotRows.RowsOf | hdbscan/plots.py:148 | The rows of a cluster are exactly the tree rows with that parent. |
| PlotRows.ClusterRowsOf | hdbscan/plots.py:119-121 | The split rows of a cluster are exactly its rows of size above 1. |
| PlotRows.ClusterRowsDistinct | hdbscan/plots.py:119-121 | In a forest, the two split rows name different children. |
| PlotRows.MaxLambda | hdbscan/plots.py:158 | The top bound is the lambda of some row and no row leaves later. |
| PlotRows.Insert | hdbscan/plots.py:160 | Inserting a row adds exactly that row: one more row, the same multiset plus the new row. |
| PlotRows.SortByLambda | hdbscan/plots.py:160 | The visiting order is a permutation of the cluster's rows: every row is visited exactly as often as it occurs. |
| PlotRows.SortByLambdaFacts | hdbscan/plots.py:160 | The visiting order is ascending in lambda and keeps the total size and the size present at every lambda. |
| PlotRows.SuffixIsStillPresent | hdbscan/plots.py:149-171 | At the first row of a new lambda level, the running size equals the points still present at that level. |
| PlotRows.SizeAtLeastAbove | hdbscan/plots.py:149 | Before any row leaves, the points present are the cluster's whole `np.sum` of child sizes, the starting running size. |
| PlotRows.SizeAtLeastBelow | hdbscan/plots.py:169-171 | Past the last row's lambda nothing remains: the running size reaches 0. |
| PlotRows.SizeAtLeastMonotone | hdbscan/plots.py:169-170 | With sizes not negative, fewer points remain at a higher lambda. |
| PlotRows.SizeAtLeastAtMostSum | hdbscan/plots.py:149-170 | With sizes not negative, the points present never exceed the cluster's total and never go negative. |
| IcicleBars.BarsAfterNext | hdbscan/plots.py:160-171 | One step of the bar loop emits a bar only on a lambda change, takes the row's size off the running size and moves the current lambda to the row's. |
| IcicleBars.SortedBarsRun | hdbscan/plots.py:160-171 | The bars of ascending rows fit the rows and stack from the cluster's start to the last lambda; there are none exactly when every row leaves at the start. |
| IcicleBars.FinishRun | hdbscan/plots.py:160-171 | The sorted-order facts carry over to the rows as given: together they are the full icicle of the cluster (`BarRun`). |
| IcicleBars.MaxLambdaIsLast | hdbscan/plots.py:158-160 | The top bound is the lambda of the last row visited. |
| IcicleBars.TopsIncrease | hdbscan/plots.py:161-166 | Each bar ends higher than every earlier bar. |
| IcicleBars.WidthsShrink | hdbscan/plots.py:149-171 | With sizes not negative, bar widths never increase and stay between 0 and the cluster's total size. |
| Layout.SortedBars | hdbscan/plots.py:149-171 | The loop over ascending rows builds exactly the bars that `IcicleBars.BarsAfter` defines, with the running size and current lambda as invariants. |
| Layout.ClusterBars | hdbscan/plots.py:147-171 | Bars are centred on the cluster and never flat, and each ends at a lambda some row leaves at. Each is as wide as the points still present there. The bars stack from the cluster's y without gaps, each higher than the last, up to the largest lambda, and every lambda level ends a bar. |
| Layout.Spread | hdbscan/plots.py:114-115 | One position per leaf, and leaf `i` is spread to `leaf_separation * i`. |
| Layout.ZipDict | hdbscan/plots.py:114-115 | `dict(zip(...))` has exactly the leaves as keys. |
| Layout.ZipDictValues | hdbscan/plots.py:114-115 | The value of each leaf comes from its last listing. |
| Layout.TooManyIncomplete | hdbscan/plots.py:122 | A cluster with more than two split rows makes the coordinate pass fail. |
| Layout.Coordinates | hdbscan/plots.py:114-127 | Succeeds exactly when no cluster has more than two split rows and every split child has an x. Then x holds exactly the leaves and the split clusters, and y exactly the root and the two children of each split. The root has y 0, each leaf is at the spread position of its last listing, and each split sits at the mean x of its two children. In a forest, each child starts at its split lambda. |
| Layout.PlaceCluster | hdbscan/plots.py:119-127 | One iteration of the descending loop: either the pass's invariant (`CoordsSoFar`: the x and y key sets, the leaf positions, the means, the split heights in a forest, and every visited cluster checked) holds one cluster further down, or it fails with `TooManyChildren` or `MissingCoordinate` and the pass cannot complete. |
| Layout.RunBarsFit | hdbscan/plots.py:160-166 | Each bar of a cluster's run is centred on its scaled x, rises from its y or a row lambda to a row lambda, and is as wide as the points present there. |
| Layout.FreshBoundsFit | hdbscan/plots.py:155-158 | The bounds are centred on the scaled x and as wide as the cluster's total size, from the cluster's y up to its largest lambda. |
| Layout.BarsAndBounds | hdbscan/plots.py:144-171 | Fails exactly when some cluster from the root to `last_leaf` lacks a coordinate or rows. The error names the highest such cluster, the first the descending loop reaches. Otherwise every cluster from `last_leaf` down to the root has fitting bounds, and every bar belongs to one of them. |
| Layout.BarWithinBounds | hdbscan/plots.py:155-166 | When rows leave no earlier than the cluster starts, every bar lies inside its cluster's bounds. |
| Layout.FitTopIsMax | hdbscan/plots.py:158 | The top of a cluster's bounds is the largest lambda of its rows. |
| Layout.BoundsFitCover | hdbscan/plots.py:155-158 | There are bounds for exactly the clusters from the root to `last_leaf`, each as wide as its points and up to its largest lambda. |
| Layout.ConnectorLines | hdbscan/plots.py:177-191 | Fails exactly when some split row has no coordinate, naming the first such row's missing key. Otherwise it gives one connector per split row, in order. Each connector is horizontal at the child's y, from the parent's scaled x to half the child's size beyond the child's. |
| Layout.ConnectorsLevel | hdbscan/plots.py:188-191 | Every connector is horizontal. |
| Layout.Sign | hdbscan/plots.py:183 | `np.sign` is 1, -1 or 0, positive exactly for positive and negative exactly for negative arguments. |
| Layout.LineCrossesChild | hdbscan/plots.py:183-187 | With scale and size not negative, a connector runs from the parent through the child's centre, away from the parent. |
| Layout.SplitSides | hdbscan/plots.py:124-125 | The two children of a split at different x lie on opposite sides of the parent, so their connectors point opposite ways. |
| Layout.BarsAndLines | hdbscan/plots.py:139-201 | Succeeds exactly when every cluster from the root to `last_leaf` has both coordinates and some rows, and every split row has the coordinates its connector reads. Then every cluster from the root to `last_leaf` has bounds centred on its scaled x, as wide as its points, from its own y to its largest lambda. Every bar belongs to one of those clusters' runs. There is one connector per split row, in row order, each fitted to its row and horizontal. |
| Layout.GetPlotData | hdbscan/plots.py:77-201 | Fails with "no cluster tree" exactly when there are no split rows. It succeeds exactly when the coordinate pass is complete, every cluster from the smallest to the largest parent has both coordinates and some rows, and every split row can be connected. The coordinates it uses, returned as a ghost result, are those the coordinate pass promises (`PlacedCoords`, which also fixes exactly which ids have an x and a y). On success, each of those clusters has bounds centred on its x scaled by the root's size, as wide as its points, from its own y (0 for the root) to its largest lambda, and there is one horizontal connector per split row, running from its parent's scaled x through its child's. |
| Layout.PlotLayout | hdbscan/plots.py:114-201 | For given leaves, root and `last_leaf`: never fails with "no cluster tree". It succeeds exactly when the coordinate pass is complete and every cluster from the root to `last_leaf` can be drawn and every split row connected. The ghost coordinates meet `PlacedCoords`, key sets included. On success, every such cluster's bounds start at its own y and fit its bars under the root's size, the root's bounds start at 0, and there is one horizontal connector per split row, fitted to its row (`ConnectorsFit`). |
| Layout.SplitChildrenMembers | hdbscan/plots.py:118-127 | A node is among `SplitChildren(tree, lo, hi)` exactly when some cluster between `lo` and `hi` splits and has it as one of its two cluster children: the ids the loop gives a y. |

## Left out

- Rendering: every `plot` method, colour maps, axes, ellipses, colour bars
  and the matplotlib calls (hdbscan/plots.py:224-351, 420-496, 605-695).
- The minimum spanning tree: its PCA/TSNE projection and the 32767-point
  warning are calls into foreign libraries with floating-point numerics.
- The pandas and networkx objects themselves, `CondensedTree.to_pandas`
  and `CondensedTree.to_networkx`, and the `to_numpy` copies: these are
  library wrappers or copies. Only the parent ids, edges and size
  dictionary of the single linkage exports are modelled.
- The `ImportError` raised when pandas or networkx is missing: this is an
  environment check, not logic.
- `compute_stability` and `labelling_at_cut` live in `_hdbscan_tree`, which
  is not part of this model. Stabilities are an input map, and
  `SingleLinkageTree.get_clusters` is not modelled.
- The `log_size` branch of `get_plot_data` depends on `np.log`/`np.exp`
  rounding.
- `_line_width` and scipy's `dendrogram` are float-equality lookups for
  rendering.
- Floating point: lambdas, stabilities, coordinates and distances are
  `real`, and sizes are unbounded `int`. `np.sum`, `np.mean` and float64
  rounding are not modelled. The linkage matrix is float64 and
  `.astype(np.int64)` turns its id columns into ints; the model stores
  those ids as `int`, taking them to be whole-number floats.
- The tie order of `np.argsort`: rows of equal lambda are visited in an
  order the model fixes (insertion order). The bars do not depend on it,
  because a row of a repeated lambda emits no bar and only its size is
  subtracted.
- `Layout.Coordinates`: states each split child's y (its split lambda)
  only for forests. When a node has two parents, the later cluster's write
  wins, and the model does not say which that is.
- `Layout.BarsAndBounds`: states that every bar belongs to the run of one
  drawn cluster (`OwnedBar`), not that each cluster's whole run appears, in
  order from `last_leaf` down to the root. Each run on its own is complete
  (`Layout.ClusterBars` ensures `BarRun`), but the concatenation of runs is
  not restated.
- `Layout.BarsAndLines`: passes on the bar facts of `Layout.BarsAndBounds`,
  with the same gap.
- `Layout.GetPlotData`: states when it succeeds, the coordinates, the
  bounds and the connectors; `Layout.PlotLayout` likewise. The per-bar facts are the postconditions of
  `Layout.BarsAndBounds` and `Layout.ClusterBars`, which it calls, and are
  not repeated; the bar-run gap of `Layout.BarsAndBounds` applies here too.
- `Selection.SelectClusters`: states that the result is descending, drawn
  from the node list and an antichain. Which nodes win is stated step by
  step by `Selection.SelectStep`, not as a closed formula over the whole
  tree.
