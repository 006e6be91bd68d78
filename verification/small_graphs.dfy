/** Counting isomorphism classes of graphs on at most three nodes. On so
    few nodes the number of edges decides isomorphism, so a complete list
    of pairwise non-isomorphic representatives has one graph per possible
    edge count: 2 graphs on two nodes and 4 on three. */
module SmallGraphs {
  import opened Collections
  import opened Graphs
  import opened Permutations
  import opened Isomorphism

  lemma PairSetsBelow3(n: nat)
    requires n < 3
    ensures PairSet(n) <= {(0, 1)}
  {
  }

  lemma PairSet3()
    ensures PairSet(3) == {(0, 1), (0, 2), (1, 2)}
  {
  }

  /** On `n <= 3` nodes there are `n(n-1)/2` possible edges. */
  lemma PairSetCard(n: nat)
    requires n <= 3
    ensures |PairSet(n)| == n * (n - 1) / 2
  {
    if n == 3 {
      PairSet3();
    } else if n == 2 {
      assert PairSet(2) == {(0, 1)};
    } else {
      assert PairSet(n) == {};
    }
  }

  lemma RenameSingle(p: seq<nat>, e: Edge)
    requires e.0 < |p| && e.1 < |p|
    ensures Rename(p, {e}) == {Canon(p[e.0], p[e.1])}
  {
  }

  lemma RenamePair(p: seq<nat>, e: Edge, f: Edge)
    requires e.0 < |p| && e.1 < |p| && f.0 < |p| && f.1 < |p|
    ensures Rename(p, {e, f}) == {Canon(p[e.0], p[e.1]), Canon(p[f.0], p[f.1])}
  {
  }

  /** The representative with `k` edges on three nodes: edges added around node 0 first. */
  function Rep3(k: nat): set<Edge>
    requires k <= 3
  {
    if k == 0 then {} else if k == 1 then {(0, 1)} else if k == 2 then {(0, 1), (0, 2)} else {(0, 1), (0, 2), (1, 2)}
  }

  /** The graph on three nodes with the edges `(0,1)`, `(0,2)`, `(1,2)` chosen by three flags. */
  function Chosen3(hasX: bool, hasY: bool, hasZ: bool): set<Edge> {
    (if hasX then {(0, 1)} else {}) + (if hasY then {(0, 2)} else {}) + (if hasZ then {(1, 2)} else {})
  }

  /** A graph on three nodes is determined by which of the three possible edges it has. */
  lemma Split3(a: set<Edge>)
    requires OnNodes(3, a)
    ensures a == Chosen3((0, 1) in a, (0, 2) in a, (1, 2) in a)
  {
    PairSet3();
  }

  /** The two-edge path centred at 1 relabelled to the one centred at 0. */
  lemma PathAt1()
    ensures Isomorphic(3, {(0, 1), (1, 2)}, Rep3(2))
  {
    var p := [1, 0, 2];
    RenamePair(p, (0, 1), (1, 2));
    assert Canon(p[0], p[1]) == (0, 1) && Canon(p[1], p[2]) == (0, 2);
    assert IsPerm(p, 3);
  }

  /** The two-edge path centred at 2 relabelled to the one centred at 0. */
  lemma PathAt2()
    ensures Isomorphic(3, {(0, 2), (1, 2)}, Rep3(2))
  {
    var p := [1, 2, 0];
    RenamePair(p, (0, 2), (1, 2));
    assert Canon(p[0], p[2]) == (0, 1) && Canon(p[1], p[2]) == (0, 2);
    assert IsPerm(p, 3);
  }

  lemma EdgeAt02()
    ensures Isomorphic(3, {(0, 2)}, Rep3(1))
  {
    var p := [0, 2, 1];
    RenameSingle(p, (0, 2));
    assert IsPerm(p, 3);
  }

  lemma EdgeAt12()
    ensures Isomorphic(3, {(1, 2)}, Rep3(1))
  {
    var p := [2, 0, 1];
    RenameSingle(p, (1, 2));
    assert IsPerm(p, 3);
  }

  /** Each representative is a graph on three nodes with its number of edges. */
  lemma Rep3Self(k: nat)
    requires k <= 3
    ensures |Rep3(k)| == k && Isomorphic(3, Rep3(k), Rep3(k))
  {
    PairSet3();
    if k == 3 {
      assert |Rep3(3)| == 3;
    } else if k == 2 {
      assert |Rep3(2)| == 2;
    } else if k == 1 {
      assert |Rep3(1)| == 1;
    }
    assert OnNodes(3, Rep3(k));
    IsoReflexive(3, Rep3(k));
  }

  lemma ChosenWithX(hasY: bool, hasZ: bool)
    ensures |Chosen3(true, hasY, hasZ)| <= 3
    ensures Isomorphic(3, Chosen3(true, hasY, hasZ), Rep3(|Chosen3(true, hasY, hasZ)|))
  {
    if hasY && hasZ {
      assert Chosen3(true, true, true) == Rep3(3);
      Rep3Self(3);
    } else if hasY {
      assert Chosen3(true, true, false) == Rep3(2);
      Rep3Self(2);
    } else if hasZ {
      assert Chosen3(true, false, true) == {(0, 1), (1, 2)};
      PathAt1();
    } else {
      assert Chosen3(true, false, false) == Rep3(1);
      Rep3Self(1);
    }
  }

  lemma ChosenWithoutX(hasY: bool, hasZ: bool)
    ensures |Chosen3(false, hasY, hasZ)| <= 3
    ensures Isomorphic(3, Chosen3(false, hasY, hasZ), Rep3(|Chosen3(false, hasY, hasZ)|))
  {
    var a := Chosen3(false, hasY, hasZ);
    if hasY && hasZ {
      assert a == {(0, 2), (1, 2)};
      PathAt2();
    } else if hasY {
      assert a == {(0, 2)};
      EdgeAt02();
    } else if hasZ {
      assert a == {(1, 2)};
      EdgeAt12();
    } else {
      assert a == Rep3(0);
      IsoReflexive(3, a);
    }
  }

  /** Every graph on three nodes is isomorphic to the representative with
      as many edges. */
  lemma ToRep3(a: set<Edge>)
    requires OnNodes(3, a)
    ensures |a| <= 3 && Isomorphic(3, a, Rep3(|a|))
  {
    Split3(a);
    if (0, 1) in a {
      ChosenWithX((0, 2) in a, (1, 2) in a);
    } else {
      ChosenWithoutX((0, 2) in a, (1, 2) in a);
    }
  }

  /** On fewer than three nodes a graph is determined by its number of edges. */
  lemma SameSizeBelow3(n: nat, a: set<Edge>, b: set<Edge>)
    requires n < 3 && OnNodes(n, a) && OnNodes(n, b) && |a| == |b|
    ensures a == b
  {
    PairSetsBelow3(n);
    if (0, 1) in a {
      assert a == {(0, 1)};
      assert b == {(0, 1)};
    } else {
      assert a == {};
    }
  }

  /** On at most three nodes, graphs with equally many edges are isomorphic. */
  lemma SameSizeIsomorphic(n: nat, a: set<Edge>, b: set<Edge>)
    requires n <= 3 && OnNodes(n, a) && OnNodes(n, b) && |a| == |b|
    ensures Isomorphic(n, a, b)
  {
    if n < 3 {
      SameSizeBelow3(n, a, b);
      IsoReflexive(n, a);
    } else {
      SameSize3(a, b);
    }
  }

  lemma SameSize3(a: set<Edge>, b: set<Edge>)
    requires OnNodes(3, a) && OnNodes(3, b) && |a| == |b|
    ensures Isomorphic(3, a, b)
  {
    ToRep3(a);
    var rep := Rep3(|a|);
    assert Isomorphic(3, rep, b) by {
      ToRep3(b);
      PairSet3();
      IsoSymmetric(3, b, rep);
    }
    IsoTransitive(3, a, rep, b);
  }

  /** The edge counts of a list of pairwise non-isomorphic graphs on at most
      three nodes are pairwise different. */
  lemma SizesDistinct(n: nat, reps: seq<set<Edge>>, sizes: seq<nat>)
    requires n <= 3
    requires forall j :: 0 <= j < |reps| ==> OnNodes(n, reps[j])
    requires forall i, j :: 0 <= i < j < |reps| ==> !Isomorphic(n, reps[i], reps[j])
    requires |sizes| == |reps| && forall j :: 0 <= j < |reps| ==> sizes[j] == |reps[j]|
    ensures Distinct(sizes)
  {
    forall i, j | 0 <= i < j < |sizes| ensures sizes[i] != sizes[j] {
      if sizes[i] == sizes[j] {
        SameSizeIsomorphic(n, reps[i], reps[j]);
      }
    }
  }

  /** No graph on `0 .. n-1` has more edges than there are pairs of nodes. */
  lemma SizesBounded(n: nat, reps: seq<set<Edge>>, sizes: seq<nat>)
    requires forall j :: 0 <= j < |reps| ==> OnNodes(n, reps[j])
    requires |sizes| == |reps| && forall j :: 0 <= j < |reps| ==> sizes[j] == |reps[j]|
    ensures forall k :: k in sizes ==> k <= |PairSet(n)|
  {
    forall k | k in sizes ensures k <= |PairSet(n)| {
      var j :| 0 <= j < |reps| && sizes[j] == k;
      SubsetCard(reps[j], PairSet(n));
    }
  }

  /** A complete list of representatives realises every possible edge count. */
  lemma SizesReached(n: nat, reps: seq<set<Edge>>, sizes: seq<nat>, k: nat)
    requires forall j :: 0 <= j < |reps| ==> OnNodes(n, reps[j])
    requires forall es :: OnNodes(n, es) ==> exists j :: 0 <= j < |reps| && Isomorphic(n, es, reps[j])
    requires |sizes| == |reps| && forall j :: 0 <= j < |reps| ==> sizes[j] == |reps[j]|
    requires k <= |PairSet(n)|
    ensures k in sizes
  {
    SubsetOfSize(PairSet(n), k);
    var es :| es <= PairSet(n) && |es| == k;
    assert OnNodes(n, es);
    var j :| 0 <= j < |reps| && Isomorphic(n, es, reps[j]);
    IsoInvariants(n, es, reps[j]);
    assert sizes[j] == k;
  }

  /** The edge counts of a complete list of representatives are exactly `0 .. |PairSet(n)|`. */
  lemma SizesCover(n: nat, reps: seq<set<Edge>>, sizes: seq<nat>)
    requires forall j :: 0 <= j < |reps| ==> OnNodes(n, reps[j])
    requires forall es :: OnNodes(n, es) ==> exists j :: 0 <= j < |reps| && Isomorphic(n, es, reps[j])
    requires |sizes| == |reps| && forall j :: 0 <= j < |reps| ==> sizes[j] == |reps[j]|
    ensures |Elems(sizes)| == |PairSet(n)| + 1
  {
    var m := |PairSet(n)|;
    SizesBounded(n, reps, sizes);
    SizesAllReached(n, reps, sizes);
    ValuesUpTo(sizes, m);
  }

  lemma SizesAllReached(n: nat, reps: seq<set<Edge>>, sizes: seq<nat>)
    requires forall j :: 0 <= j < |reps| ==> OnNodes(n, reps[j])
    requires forall es :: OnNodes(n, es) ==> exists j :: 0 <= j < |reps| && Isomorphic(n, es, reps[j])
    requires |sizes| == |reps| && forall j :: 0 <= j < |reps| ==> sizes[j] == |reps[j]|
    ensures forall k: nat :: k <= |PairSet(n)| ==> k in sizes
  {
    forall k: nat | k <= |PairSet(n)| ensures k in sizes {
      SizesReached(n, reps, sizes, k);
    }
  }

  /** The number of edges of each graph of `reps`. */
  function EdgeCounts(reps: seq<set<Edge>>): (r: seq<nat>)
    ensures |r| == |reps| && forall j :: 0 <= j < |reps| ==> r[j] == |reps[j]|
  {
    seq(|reps|, j requires 0 <= j < |reps| => |reps[j]|)
  }

  /** A complete list of pairwise non-isomorphic graphs on `n <= 3` nodes
      has one graph for every edge count from 0 to `n(n-1)/2`. */
  lemma ClassCount(n: nat, reps: seq<set<Edge>>)
    requires n <= 3
    requires forall j :: 0 <= j < |reps| ==> OnNodes(n, reps[j])
    requires forall i, j :: 0 <= i < j < |reps| ==> !Isomorphic(n, reps[i], reps[j])
    requires forall es :: OnNodes(n, es) ==> exists j :: 0 <= j < |reps| && Isomorphic(n, es, reps[j])
    ensures |reps| == n * (n - 1) / 2 + 1
  {
    assert |reps| == |PairSet(n)| + 1 by {
      var sizes := EdgeCounts(reps);
      SizesDistinct(n, reps, sizes);
      SizesCover(n, reps, sizes);
      DistinctCard(sizes);
    }
    PairSetCard(n);
  }
}
