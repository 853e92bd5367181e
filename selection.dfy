/**
 * Excess-of-mass cluster selection over the condensed tree
 * (`CondensedTree._select_clusters`). The stabilities are given by the
 * caller; the `is_cluster` dictionary and the overwritten stabilities are
 * the state the selection loop updates.
 */
module Selection {
  import opened Wrappers
  import opened CondensedTrees
  import opened ClusterBfs

  /** Python's `KeyError`: a cluster-tree child has no stability. */
  datatype SelectError = KeyError(key: int)

  predicate Decreasing(s: seq<int>) {
    forall i, j :: 0 <= i < j < |s| ==> s[i] > s[j]
  }

  /** `m` is the largest element of `s`. */
  predicate IsMax(s: set<int>, m: int) {
    m in s && forall y :: y in s ==> y <= m
  }

  lemma {:induction false} MaxKeyExists(s: set<int>)
    requires s != {}
    ensures exists m :: IsMax(s, m)
    decreases |s|
  {
    if forall y :: y !in s {
      assert false;
    }
    var x :| x in s;
    var rest := s - {x};
    if |rest| == 0 {
      assert IsMax(s, x);
    } else {
      MaxKeyExists(rest);
      var m :| IsMax(rest, m);
      var big := if x > m then x else m;
      forall y | y in s ensures y <= big {
        if y != x {
          assert y in rest;
        }
      }
      assert IsMax(s, big);
    }
  }

  /** The largest element of a non-empty set. */
  function MaxKey(s: set<int>): (m: int)
    requires s != {}
    ensures IsMax(s, m)
  {
    MaxKeyExists(s);
    var m :| IsMax(s, m);
    m
  }

  /** `sorted(s, reverse=True)`: the elements of `s`, largest first. */
  function SortedDescending(s: set<int>): (r: seq<int>)
    ensures forall x :: x in r <==> x in s
    ensures Decreasing(r)
    decreases |s|
  {
    if s == {} then []
    else
      var m := MaxKey(s);
      var rest := SortedDescending(s - {m});
      PrependMax(s, m, rest);
      [m] + rest
  }

  /** The largest element of `s` before a descending listing of the others lists `s` in descending order. */
  lemma PrependMax(s: set<int>, m: int, rest: seq<int>)
    requires IsMax(s, m)
    requires forall x :: x in rest <==> x in s - {m}
    requires Decreasing(rest)
    ensures forall x :: x in [m] + rest <==> x in s
    ensures Decreasing([m] + rest)
  {
    var r := [m] + rest;
    forall i, j | 0 <= i < j < |r| ensures r[i] > r[j] {
      assert r[j] == rest[j - 1] && r[j] in rest;
      if i > 0 {
        assert r[i] == rest[i - 1];
      }
    }
  }

  /**
   * `sorted(stability.keys(), reverse=True)[:-1]`: every stability key but
   * the smallest key, largest first.
   */
  function NodeList(stability: map<int, real>): (nodes: seq<int>)
    ensures Decreasing(nodes)
    ensures forall x :: x in nodes <==> x in stability && exists y :: y in stability && y < x
  {
    var sorted := SortedDescending(stability.Keys);
    DropSmallest(sorted, stability);
    DropLast(sorted)
  }

  /** `s[:-1]`: every element but the last (none of an empty sequence). */
  function DropLast(s: seq<int>): (r: seq<int>)
    ensures s == [] ==> r == []
    ensures s != [] ==> r + [s[|s| - 1]] == s
  {
    if s == [] then [] else s[..|s| - 1]
  }

  /**
   * Dropping the last element of a descending listing of the keys of
   * `stability` keeps exactly the keys that have a smaller key beside them.
   */
  lemma DropSmallest(s: seq<int>, stability: map<int, real>)
    requires Decreasing(s)
    requires forall x :: x in s <==> x in stability.Keys
    ensures Decreasing(DropLast(s))
    ensures forall x :: x in DropLast(s) <==> x in stability && exists y :: y in stability && y < x
  {
    if s == [] {
      assert forall x :: x !in stability;
    } else {
      var last := s[|s| - 1];
      var front := s[..|s| - 1];
      assert DropLast(s) == front;
      assert last in stability;
      forall x | x in front ensures x in stability && last < x {
        var i :| 0 <= i < |front| && front[i] == x;
        assert s[i] == x;
      }
      forall x, y | x in stability && y in stability && y < x ensures x in front {
        var i :| 0 <= i < |s| && s[i] == x;
        var j :| 0 <= j < |s| && s[j] == y;
        assert i < j;
        assert front[i] == x;
      }
    }
  }

  /**
   * `np.sum([stability[child] for child in kids])`, or the first child that
   * has no stability (where Python raises `KeyError`).
   */
  function SumStability(stab: map<int, real>, kids: seq<int>): (r: Result<real, int>)
    ensures r.Success? <==> forall i :: 0 <= i < |kids| ==> kids[i] in stab
    ensures r.Failure? ==> r.error in kids && r.error !in stab
  {
    if kids == [] then Success(0.0)
    else if kids[0] !in stab then Failure(kids[0])
    else
      var rest := SumStability(stab, kids[1..]);
      assert forall i :: 1 <= i < |kids| ==> kids[i] == kids[1..][i - 1];
      match rest
      case Failure(c) => Failure(c)
      case Success(s) => Success(stab[kids[0]] + s)
  }

  /** Every cluster-tree child of `node` has a stability. */
  predicate ChildrenKnown(ct: Tree, stab: map<int, real>, node: int) {
    var kids := ChildrenOf(ct, node);
    forall i :: 0 <= i < |kids| ==> kids[i] in stab
  }

  /** Whether a child has a stability depends only on which keys there are. */
  lemma ChildrenKnownSameKeys(ct: Tree, a: map<int, real>, b: map<int, real>, node: int)
    requires forall k :: k in a <==> k in b
    ensures ChildrenKnown(ct, a, node) <==> ChildrenKnown(ct, b, node)
  {
    var kids := ChildrenOf(ct, node);
    forall i | 0 <= i < |kids| ensures kids[i] in a <==> kids[i] in b {
      var x := kids[i];
      assert x in a <==> x in b;
    }
  }

  /** The flags only go from true to false, and no flag is dropped. */
  ghost predicate Weakens(before: map<int, bool>, after: map<int, bool>) {
    (forall k :: k in before ==> k in after) &&
    (forall k :: k in after && after[k] ==> k in before && before[k])
  }

  /** A selected node has no selected strict descendant. */
  ghost predicate Settled(ct: Tree, isCluster: map<int, bool>, n: int) {
    n in isCluster &&
    (isCluster[n] ==> forall d :: d in isCluster && StrictlyBelow(ct, n, d) ==> !isCluster[d])
  }

  /** Once a node is settled, clearing flags never unsettles it. */
  lemma SettledWeakens(ct: Tree, before: map<int, bool>, after: map<int, bool>, n: int)
    requires Settled(ct, before, n) && Weakens(before, after)
    ensures Settled(ct, after, n)
  {
  }

  /** Clearing flags keeps every earlier node settled, and the new node is settled too. */
  lemma SettledPrefix(ct: Tree, before: map<int, bool>, after: map<int, bool>, nodes: seq<int>, i: int)
    requires 0 <= i < |nodes| && Weakens(before, after) && Settled(ct, after, nodes[i])
    requires forall j :: 0 <= j < i ==> Settled(ct, before, nodes[j])
    ensures forall j :: 0 <= j <= i ==> Settled(ct, after, nodes[j])
  {
    forall j | 0 <= j < i ensures Settled(ct, after, nodes[j]) {
      SettledWeakens(ct, before, after, nodes[j]);
    }
  }

  /**
   * The inner loop of the keep branch: every node the cluster-tree search
   * from `node` lists, other than `node` itself, is flagged `False`.
   */
  method DeselectSubtree(ct: Tree, node: int, isCluster: map<int, bool>) returns (updated: map<int, bool>)
    requires WellFormed(ct)
    ensures forall x :: x in updated <==> x in isCluster || StrictlyBelow(ct, node, x)
    ensures forall x :: x in updated ==>
      updated[x] == (if StrictlyBelow(ct, node, x) then false else isCluster[x])
  {
    var sub := BfsFromClusterTree(ct, node);
    updated := isCluster;
    for k := 0 to |sub|
      invariant forall x :: x in updated <==> x in isCluster || (x in sub[..k] && x != node)
      invariant forall x :: x in updated ==>
        updated[x] == (if x in sub[..k] && x != node then false else isCluster[x])
    {
      assert sub[..k + 1] == sub[..k] + [sub[k]];
      if sub[k] != node {
        updated := updated[sub[k] := false];
      }
    }
    assert sub[..|sub|] == sub;
  }

  /**
   * One pass of the selection loop for `node`: compare its stability with
   * the summed stability of its cluster-tree children; if the children win,
   * clear the node and give it their stability, otherwise keep it and clear
   * everything below it. `missing` is the child whose lookup fails.
   */
  method SelectStep(ct: Tree, node: int, isCluster: map<int, bool>, stab: map<int, real>)
    returns (missing: Option<int>, newIsCluster: map<int, bool>, newStab: map<int, real>)
    requires WellFormed(ct) && node in stab && node in isCluster
    ensures missing.None? <==> ChildrenKnown(ct, stab, node)
    ensures missing.Some? ==> missing.value in ChildrenOf(ct, node) && missing.value !in stab
    ensures missing.None? ==>
      var subtree := SumStability(stab, ChildrenOf(ct, node)).value;
      if subtree > stab[node] then
        newIsCluster == isCluster[node := false] && newStab == stab[node := subtree]
      else
        newStab == stab &&
        (forall x :: x in newIsCluster <==> x in isCluster || StrictlyBelow(ct, node, x)) &&
        node in newIsCluster && newIsCluster[node] == isCluster[node] &&
        (forall x :: x in newIsCluster ==>
           newIsCluster[x] == (if StrictlyBelow(ct, node, x) then false else isCluster[x]))
    ensures missing.None? ==> Weakens(isCluster, newIsCluster) && Settled(ct, newIsCluster, node)
    ensures forall k :: k in newStab <==> k in stab
  {
    var kids := ChildrenOf(ct, node);
    var sum := SumStability(stab, kids);
    if sum.Failure? {
      return Some(sum.error), isCluster, stab;
    }
    missing := None;
    if sum.value > stab[node] {
      newIsCluster := isCluster[node := false];
      newStab := stab[node := sum.value];
    } else {
      newIsCluster := DeselectSubtree(ct, node, isCluster);
      newStab := stab;
    }
  }

  lemma DecreasingCons(x: int, rest: seq<int>)
    requires Decreasing(rest) && forall y :: y in rest ==> y < x
    ensures Decreasing([x] + rest)
  {
    forall i, j | 0 <= i < j < |[x] + rest| ensures ([x] + rest)[i] > ([x] + rest)[j] {
      assert ([x] + rest)[j] == rest[j - 1];
      assert rest[j - 1] in rest;
      if i > 0 {
        assert ([x] + rest)[i] == rest[i - 1];
      }
    }
  }

  /**
   * `[cluster for cluster in is_cluster if is_cluster[cluster]]`, walking
   * the keys in `nodes` order (the order the dictionary was built in).
   */
  function Selected(nodes: seq<int>, isCluster: map<int, bool>): (r: seq<int>)
    ensures forall x :: x in r <==> x in nodes && x in isCluster && isCluster[x]
    ensures Decreasing(nodes) ==> Decreasing(r)
  {
    if nodes == [] then []
    else
      var rest := Selected(nodes[1..], isCluster);
      assert Decreasing(nodes) ==> Decreasing(nodes[1..]);
      assert Decreasing(nodes) ==> forall x :: x in rest ==> x < nodes[0] by {
        if Decreasing(nodes) {
          forall x | x in rest ensures x < nodes[0] {
            var i :| 0 <= i < |nodes[1..]| && nodes[1..][i] == x;
            assert nodes[i + 1] == x;
          }
        }
      }
      if nodes[0] in isCluster && isCluster[nodes[0]] then
        assert Decreasing(nodes) ==> Decreasing([nodes[0]] + rest) by {
          if Decreasing(nodes) {
            DecreasingCons(nodes[0], rest);
          }
        }
        [nodes[0]] + rest
      else rest
  }

  /** No child of any listed node lacks a stability. */
  predicate NoMissingChild(ct: Tree, stability: map<int, real>, nodes: seq<int>) {
    forall j :: 0 <= j < |nodes| ==> ChildrenKnown(ct, stability, nodes[j])
  }

  /**
   * What the selection loop keeps once the first `i` nodes are visited: the
   * stabilities keep their keys, every listed node has a flag and only
   * listed nodes are flagged, every visited node is settled, and every
   * visited node's children have a stability.
   */
  ghost predicate SelectSoFar(ct: Tree, stability: map<int, real>, nodes: seq<int>, i: int,
                              stab: map<int, real>, isCluster: map<int, bool>) {
    0 <= i <= |nodes| &&
    (forall k :: k in stab <==> k in stability) &&
    (forall n :: n in nodes ==> n in isCluster) &&
    (forall k :: k in isCluster && isCluster[k] ==> k in nodes) &&
    (forall j :: 0 <= j < i ==> Settled(ct, isCluster, nodes[j])) &&
    (forall j :: 0 <= j < i ==> ChildrenKnown(ct, stability, nodes[j]))
  }

  /** A pass over node `i` that finds every child's stability keeps the loop's invariant. */
  lemma SelectAdvance(ct: Tree, stability: map<int, real>, nodes: seq<int>, i: int,
                      stab: map<int, real>, isCluster: map<int, bool>,
                      nextStab: map<int, real>, nextIsCluster: map<int, bool>)
    requires 0 <= i < |nodes| && SelectSoFar(ct, stability, nodes, i, stab, isCluster)
    requires Weakens(isCluster, nextIsCluster) && Settled(ct, nextIsCluster, nodes[i])
    requires forall k :: k in nextStab <==> k in stab
    requires ChildrenKnown(ct, stability, nodes[i])
    ensures SelectSoFar(ct, stability, nodes, i + 1, nextStab, nextIsCluster)
  {
    SettledPrefix(ct, isCluster, nextIsCluster, nodes, i);
  }

  /** After the last node, no child was missing and the flagged nodes form an antichain. */
  lemma SelectDone(ct: Tree, stability: map<int, real>, nodes: seq<int>,
                   stab: map<int, real>, isCluster: map<int, bool>)
    requires SelectSoFar(ct, stability, nodes, |nodes|, stab, isCluster)
    ensures NoMissingChild(ct, stability, nodes)
    ensures forall x, y :: x in Selected(nodes, isCluster) && y in Selected(nodes, isCluster) ==>
                           !StrictlyBelow(ct, x, y)
  {
    var result := Selected(nodes, isCluster);
    forall x, y | x in result && y in result ensures !StrictlyBelow(ct, x, y) {
      var j :| 0 <= j < |nodes| && nodes[j] == x;
      assert Settled(ct, isCluster, nodes[j]);
    }
  }

  /**
   * `CondensedTree._select_clusters` with the stabilities supplied: visits
   * every stability key but the smallest, largest first, and returns the
   * nodes still flagged in that order. The selection never holds the root,
   * keeps the descending order, and never holds a node together with one
   * of its descendants.
   */
  method SelectClusters(tree: Tree, stability: map<int, real>) returns (r: Result<seq<int>, SelectError>)
    requires WellFormed(ClusterTree(tree))
    ensures r.Failure? <==> !NoMissingChild(ClusterTree(tree), stability, NodeList(stability))
    ensures r.Failure? ==> r.error.key !in stability
    ensures r.Success? ==> forall x :: x in r.value ==> x in NodeList(stability)
    ensures r.Success? ==> forall x :: x in r.value ==> x in stability && exists y :: y in stability && y < x
    ensures r.Success? ==> Decreasing(r.value)
    ensures r.Success? ==> forall x, y :: x in r.value && y in r.value ==> !StrictlyBelow(ClusterTree(tree), x, y)
  {
    var nodes := NodeList(stability);
    var ct := ClusterTree(tree);
    var stab := stability;
    var isCluster := map n | n in nodes :: true;
    for i := 0 to |nodes|
      invariant SelectSoFar(ct, stability, nodes, i, stab, isCluster)
    {
      var node := nodes[i];
      var missing, nextIsCluster, nextStab := SelectStep(ct, node, isCluster, stab);
      ChildrenKnownSameKeys(ct, stab, stability, node);
      if missing.Some? {
        return Failure(KeyError(missing.value));
      }
      SelectAdvance(ct, stability, nodes, i, stab, isCluster, nextStab, nextIsCluster);
      isCluster, stab := nextIsCluster, nextStab;
    }
    var result := Selected(nodes, isCluster);
    SelectDone(ct, stability, nodes, stab, isCluster);
    return Success(result);
  }
}
