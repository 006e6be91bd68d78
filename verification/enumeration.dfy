/** `enumerate_all_graphs(n)`: walk every subset of the possible edges on
    the nodes `0 .. n-1` and keep a graph only when it is isomorphic to no
    graph kept before. */
module Enumeration {
  import opened Collections
  import opened Bits
  import opened Graphs
  import opened Isomorphism
  import SmallGraphs

  /** `itertools.combinations(range(n), 2)` from first element `i` on:
      `(i, i+1), ..., (i, n-1), (i+1, i+2), ...`. */
  function PairsFrom(i: nat, n: nat): seq<Edge>
    decreases n - i
  {
    if i >= n then [] else seq(n - i - 1, k requires 0 <= k < n - i - 1 => (i, i + 1 + k)) + PairsFrom(i + 1, n)
  }

  lemma {:induction false} PairsFromContents(i: nat, n: nat)
    ensures forall e: Edge :: e in PairsFrom(i, n) <==> i <= e.0 < e.1 < n
    ensures Distinct(PairsFrom(i, n))
    ensures forall e :: e in PairsFrom(i, n) ==> i <= e.0
    ensures |PairsFrom(i, n)| == if i >= n then 0 else (n - i) * (n - i - 1) / 2
    decreases n - i
  {
    if i < n {
      PairsFromContents(i + 1, n);
      var row := seq(n - i - 1, k requires 0 <= k < n - i - 1 => (i, i + 1 + k));
      var rest := PairsFrom(i + 1, n);
      assert PairsFrom(i, n) == row + rest;
      forall e: Edge | i <= e.0 < e.1 < n ensures e in row + rest {
        if e.0 == i {
          assert row[e.1 - i - 1] == e;
        } else {
          assert e in rest;
        }
      }
      LengthStep(n - i);
    }
  }

  lemma LengthStep(m: nat)
    requires m >= 1
    ensures (m - 1) + (if m - 1 == 0 then 0 else (m - 1) * (m - 2) / 2) == m * (m - 1) / 2
  {
    if m >= 2 {
      assert m * (m - 1) == (m - 1) * (m - 2) + 2 * (m - 1);
    }
  }

  /** `itertools.combinations(range(n), 2)`: every pair `(i, j)` with
      `0 <= i < j < n`, each once. */
  function AllPairs(n: nat): (r: seq<Edge>)
    ensures Elems(r) == PairSet(n)
    ensures Distinct(r)
    ensures |r| == n * (n - 1) / 2
  {
    PairsFromContents(0, n);
    PairsFrom(0, n)
  }

  /** A vector whose tail is listed in `rest` is listed once a head is prefixed. */
  lemma PrefixHas(v: seq<bool>, rest: seq<seq<bool>>)
    requires |v| >= 1 && v[1..] in rest
    ensures v in Cons(false, rest) + Cons(true, rest)
  {
    var r := Cons(false, rest) + Cons(true, rest);
    var k :| 0 <= k < |rest| && rest[k] == v[1..];
    assert v == [v[0]] + v[1..];
    if v[0] {
      assert r[|rest| + k] == [true] + rest[k];
    } else {
      assert r[k] == [false] + rest[k];
    }
  }

  /** Prefixing 0 to every vector of length `m - 1`, then 1, reaches every
      vector of length `m`. */
  lemma PrefixComplete(m: nat, rest: seq<seq<bool>>)
    requires m >= 1
    requires forall v: seq<bool> :: |v| == m - 1 ==> v in rest
    ensures forall v: seq<bool> :: |v| == m ==> v in Cons(false, rest) + Cons(true, rest)
  {
    forall v: seq<bool> | |v| == m ensures v in Cons(false, rest) + Cons(true, rest) {
      assert |v[1..]| == m - 1;
      PrefixHas(v, rest);
    }
  }

  /** ... and lists no vector twice when the shorter ones were listed once each. */
  lemma PrefixDistinct(rest: seq<seq<bool>>)
    requires Distinct(rest)
    ensures Distinct(Cons(false, rest) + Cons(true, rest))
  {
    var r := Cons(false, rest) + Cons(true, rest);
    forall a, b | 0 <= a < b < |r| ensures r[a] != r[b] {
      if b < |rest| {
        assert r[a][1..] == rest[a] && r[b][1..] == rest[b];
      } else if a >= |rest| {
        assert r[a][1..] == rest[a - |rest|] && r[b][1..] == rest[b - |rest|];
      } else {
        assert r[a][0] != r[b][0];
      }
    }
  }

  lemma PrefixLengths(m: nat, rest: seq<seq<bool>>)
    requires m >= 1
    requires forall v :: v in rest ==> |v| == m - 1
    ensures forall v :: v in Cons(false, rest) + Cons(true, rest) ==> |v| == m
  {
  }

  /** `itertools.product([0, 1], repeat=m)`: every 0/1 vector of length
      `m`, each once, `False` standing for 0. */
  function Product(m: nat): (r: seq<seq<bool>>)
    ensures |r| == Pow2(m)
    ensures forall v :: v in r ==> |v| == m
    ensures forall v: seq<bool> :: |v| == m ==> v in r
    ensures Distinct(r)
  {
    if m == 0 then
      assert forall v: seq<bool> :: |v| == 0 ==> v == [];
      [[]]
    else
      var rest := Product(m - 1);
      PrefixComplete(m, rest);
      PrefixDistinct(rest);
      PrefixLengths(m, rest);
      Cons(false, rest) + Cons(true, rest)
  }

  /** The edges of the candidate graph one flag vector describes: the
      possible edge at each position whose flag, at that same position,
      is set. */
  function Select(pairs: seq<Edge>, bits: seq<bool>): set<Edge>
    requires |bits| == |pairs|
  {
    set k | 0 <= k < |pairs| && bits[k] :: pairs[k]
  }

  /** Selecting from duplicate-free pairs by the indicator of a subset gives
      back that subset, and different flag vectors select different subsets. */
  lemma SelectProperties(pairs: seq<Edge>, bits: seq<bool>, other: seq<bool>)
    requires Distinct(pairs) && |bits| == |pairs| && |other| == |pairs|
    ensures Select(pairs, bits) <= Elems(pairs)
    ensures bits != other ==> Select(pairs, bits) != Select(pairs, other)
  {
    if bits != other {
      var k :| 0 <= k < |pairs| && bits[k] != other[k];
      if bits[k] {
        assert pairs[k] in Select(pairs, bits);
        assert pairs[k] !in Select(pairs, other);
      } else {
        assert pairs[k] in Select(pairs, other);
        assert pairs[k] !in Select(pairs, bits);
      }
    }
  }

  lemma SelectIndicator(pairs: seq<Edge>, es: set<Edge>)
    requires Distinct(pairs) && es <= Elems(pairs)
    ensures Select(pairs, seq(|pairs|, k requires 0 <= k < |pairs| => pairs[k] in es)) == es
  {
    var bits := seq(|pairs|, k requires 0 <= k < |pairs| => pairs[k] in es);
    forall e | e in es ensures e in Select(pairs, bits) {
      var k :| 0 <= k < |pairs| && pairs[k] == e;
      assert bits[k];
    }
  }

  /** One graph on the nodes `0 .. n-1` per flag vector. */
  function Build(n: nat, pairs: seq<Edge>, vectors: seq<seq<bool>>): (r: seq<Graph>)
    requires forall v :: v in vectors ==> |v| == |pairs|
    ensures |r| == |vectors|
    ensures forall k :: 0 <= k < |vectors| ==> r[k] == Graph(RangeSet(n), Select(pairs, vectors[k]))
  {
    seq(|vectors|, k requires 0 <= k < |vectors| => Graph(RangeSet(n), Select(pairs, vectors[k])))
  }

  lemma BuildOnNodes(n: nat, pairs: seq<Edge>, vectors: seq<seq<bool>>)
    requires Distinct(pairs) && Elems(pairs) == PairSet(n)
    requires forall v :: v in vectors ==> |v| == |pairs|
    ensures forall k :: 0 <= k < |vectors| ==> OnNodes(n, Build(n, pairs, vectors)[k].edges)
  {
    forall k | 0 <= k < |vectors| ensures OnNodes(n, Build(n, pairs, vectors)[k].edges) {
      SelectProperties(pairs, vectors[k], vectors[k]);
    }
  }

  lemma BuildCovers(n: nat, pairs: seq<Edge>, vectors: seq<seq<bool>>)
    requires Distinct(pairs) && Elems(pairs) == PairSet(n)
    requires forall v :: v in vectors ==> |v| == |pairs|
    requires forall v: seq<bool> :: |v| == |pairs| ==> v in vectors
    ensures forall es :: OnNodes(n, es) ==>
              exists k :: 0 <= k < |vectors| && Build(n, pairs, vectors)[k].edges == es
  {
    var r := Build(n, pairs, vectors);
    forall es | OnNodes(n, es) ensures exists k :: 0 <= k < |vectors| && r[k].edges == es {
      var bits := seq(|pairs|, k requires 0 <= k < |pairs| => pairs[k] in es);
      SelectIndicator(pairs, es);
      assert bits in vectors;
      var k :| 0 <= k < |vectors| && vectors[k] == bits;
      assert r[k].edges == es;
    }
  }

  lemma BuildDistinct(n: nat, pairs: seq<Edge>, vectors: seq<seq<bool>>)
    requires Distinct(pairs) && Distinct(vectors)
    requires forall v :: v in vectors ==> |v| == |pairs|
    ensures forall j, k :: 0 <= j < k < |vectors| ==>
              Build(n, pairs, vectors)[j].edges != Build(n, pairs, vectors)[k].edges
  {
    forall j, k | 0 <= j < k < |vectors|
      ensures Build(n, pairs, vectors)[j].edges != Build(n, pairs, vectors)[k].edges
    {
      SelectProperties(pairs, vectors[j], vectors[k]);
    }
  }

  /** The candidate graphs of krp.py:49-53, in the order they are tried:
      nodes `0 .. n-1` and one subset of the possible edges each. Every
      subset appears, and no subset appears twice. */
  function Candidates(n: nat): (r: seq<Graph>)
    ensures |r| == Pow2(n * (n - 1) / 2)
    ensures forall k :: 0 <= k < |r| ==> r[k].nodes == RangeSet(n) && OnNodes(n, r[k].edges)
    ensures forall es :: OnNodes(n, es) ==> exists k :: 0 <= k < |r| && r[k].edges == es
    ensures forall j, k :: 0 <= j < k < |r| ==> r[j].edges != r[k].edges
  {
    var pairs := AllPairs(n);
    var vectors := Product(|pairs|);
    BuildOnNodes(n, pairs, vectors);
    BuildCovers(n, pairs, vectors);
    BuildDistinct(n, pairs, vectors);
    Build(n, pairs, vectors)
  }

  /** No graph of `graphs` is isomorphic to one listed before it. */
  ghost predicate NewToEarlier(n: nat, graphs: seq<Graph>) {
    forall a, b :: 0 <= a < b < |graphs| ==> !Isomorphic(n, graphs[b].edges, graphs[a].edges)
  }

  /** Some graph of `graphs` is isomorphic to the edge set `es`. */
  ghost predicate Represented(n: nat, es: set<Edge>, graphs: seq<Graph>) {
    exists j :: 0 <= j < |graphs| && Isomorphic(n, es, graphs[j].edges)
  }

  /** One pass of the loop body at krp.py:50-56: append `g` unless a kept
      graph is isomorphic to it. */
  function Keep(n: nat, graphs: seq<Graph>, g: Graph): seq<Graph> {
    if exists h | h in graphs :: IsoCheck(n, g.edges, h.edges) then graphs else graphs + [g]
  }

  /** A pass keeps the kept graphs and at most adds `g`. */
  lemma KeepMembers(n: nat, graphs: seq<Graph>, g: Graph)
    ensures forall h :: h in Keep(n, graphs, g) ==> h in graphs || h == g
  {
  }

  /** After a pass `g` is represented, and so is everything represented before. */
  lemma KeepRepresents(n: nat, graphs: seq<Graph>, g: Graph)
    requires OnNodes(n, g.edges)
    ensures Represented(n, g.edges, Keep(n, graphs, g))
    ensures forall es :: Represented(n, es, graphs) ==> Represented(n, es, Keep(n, graphs, g))
  {
    var graphs' := Keep(n, graphs, g);
    if exists h | h in graphs :: IsoCheck(n, g.edges, h.edges) {
      var h :| h in graphs && IsoCheck(n, g.edges, h.edges);
      var j :| 0 <= j < |graphs| && graphs[j] == h;
      assert Isomorphic(n, g.edges, graphs'[j].edges);
    } else {
      IsoReflexive(n, g.edges);
      assert Isomorphic(n, g.edges, graphs'[|graphs|].edges);
      forall es | Represented(n, es, graphs) ensures Represented(n, es, graphs') {
        var j :| 0 <= j < |graphs| && Isomorphic(n, es, graphs[j].edges);
        assert graphs'[j] == graphs[j];
      }
    }
  }

  /** `g` is appended only when no kept graph is isomorphic to it. */
  lemma KeepNew(n: nat, graphs: seq<Graph>, g: Graph)
    requires NewToEarlier(n, graphs)
    ensures NewToEarlier(n, Keep(n, graphs, g))
  {
    var graphs' := Keep(n, graphs, g);
    if !exists h | h in graphs :: IsoCheck(n, g.edges, h.edges) {
      forall a, b | 0 <= a < b < |graphs'| ensures !Isomorphic(n, graphs'[b].edges, graphs'[a].edges) {
        if b == |graphs| {
          assert graphs'[a] in graphs;
        } else {
          assert graphs'[a] == graphs[a] && graphs'[b] == graphs[b];
        }
      }
    }
  }

  /** The first loop invariant survives one iteration. */
  lemma KeepWithinCandidates(n: nat, candidates: seq<Graph>, i: nat, graphs: seq<Graph>)
    requires i < |candidates|
    requires forall g :: g in graphs ==> g in candidates
    ensures forall g :: g in Keep(n, graphs, candidates[i]) ==> g in candidates
  {
    KeepMembers(n, graphs, candidates[i]);
  }

  /** The last loop invariant survives one iteration. */
  lemma KeepCovers(n: nat, candidates: seq<Graph>, i: nat, graphs: seq<Graph>)
    requires i < |candidates| && OnNodes(n, candidates[i].edges)
    requires forall k :: 0 <= k < i ==> Represented(n, candidates[k].edges, graphs)
    ensures forall k :: 0 <= k < i + 1 ==> Represented(n, candidates[k].edges, Keep(n, graphs, candidates[i]))
  {
    KeepRepresents(n, graphs, candidates[i]);
  }

  /** The loop at krp.py:49-56: walk the candidates in order and keep each
      one no kept graph is isomorphic to. The kept graphs are candidates,
      none is isomorphic to an earlier one, and every candidate is
      isomorphic to a kept graph. */
  method KeepRepresentatives(n: nat, candidates: seq<Graph>) returns (graphs: seq<Graph>)
    requires forall k :: 0 <= k < |candidates| ==> OnNodes(n, candidates[k].edges)
    ensures forall g :: g in graphs ==> g in candidates
    ensures NewToEarlier(n, graphs)
    ensures forall k :: 0 <= k < |candidates| ==> Represented(n, candidates[k].edges, graphs)
  {
    graphs := [];
    var i := 0;
    while i < |candidates|
      invariant i <= |candidates|
      invariant forall g :: g in graphs ==> g in candidates
      invariant NewToEarlier(n, graphs)
      invariant forall k :: 0 <= k < i ==> Represented(n, candidates[k].edges, graphs)
    {
      KeepWithinCandidates(n, candidates, i, graphs);
      KeepNew(n, graphs, candidates[i]);
      KeepCovers(n, candidates, i, graphs);
      graphs := Keep(n, graphs, candidates[i]);
      i := i + 1;
    }
  }

  /** krp.py:40-57. The result lists pairwise non-isomorphic graphs on the
      nodes `0 .. n-1`, and every graph on those nodes is isomorphic to one
      of them: a complete set of isomorphism-class representatives, each
      one of the candidates. */
  method EnumerateAllGraphs(n: nat) returns (graphs: seq<Graph>)
    ensures forall g :: g in graphs ==> g.nodes == RangeSet(n) && OnNodes(n, g.edges)
    ensures forall g :: g in graphs ==> g in Candidates(n)
    ensures forall i, j :: 0 <= i < |graphs| && 0 <= j < |graphs| && i != j ==>
              !Isomorphic(n, graphs[i].edges, graphs[j].edges)
    ensures forall es :: OnNodes(n, es) ==> exists j :: 0 <= j < |graphs| && Isomorphic(n, es, graphs[j].edges)
    ensures n <= 3 ==> |graphs| == n * (n - 1) / 2 + 1
  {
    var candidates := Candidates(n);
    graphs := KeepRepresentatives(n, candidates);
    KeptPairwise(n, graphs);
    KeptComplete(n, candidates, graphs);
    if n <= 3 {
      var reps := EdgeSets(graphs);
      SmallGraphs.ClassCount(n, reps);
    }
  }

  /** The edge sets of `graphs`, in order. */
  function EdgeSets(graphs: seq<Graph>): (r: seq<set<Edge>>)
    ensures |r| == |graphs| && forall j :: 0 <= j < |graphs| ==> r[j] == graphs[j].edges
  {
    seq(|graphs|, j requires 0 <= j < |graphs| => graphs[j].edges)
  }

  /** Isomorphism being symmetric, "no graph is isomorphic to an earlier one"
      means no two listed graphs are isomorphic. */
  lemma KeptPairwise(n: nat, graphs: seq<Graph>)
    requires forall g :: g in graphs ==> OnNodes(n, g.edges)
    requires NewToEarlier(n, graphs)
    ensures forall i, j :: 0 <= i < |graphs| && 0 <= j < |graphs| && i != j ==>
              !Isomorphic(n, graphs[i].edges, graphs[j].edges)
  {
    forall i, j | 0 <= i < j < |graphs| ensures !Isomorphic(n, graphs[i].edges, graphs[j].edges) {
      if Isomorphic(n, graphs[i].edges, graphs[j].edges) {
        assert graphs[i] in graphs;
        IsoSymmetric(n, graphs[i].edges, graphs[j].edges);
      }
    }
  }

  /** Every candidate being represented, so is every edge set on `0 .. n-1`. */
  lemma KeptComplete(n: nat, candidates: seq<Graph>, graphs: seq<Graph>)
    requires candidates == Candidates(n)
    requires forall k :: 0 <= k < |candidates| ==> Represented(n, candidates[k].edges, graphs)
    ensures forall es :: OnNodes(n, es) ==> exists j :: 0 <= j < |graphs| && Isomorphic(n, es, graphs[j].edges)
  {
    forall es | OnNodes(n, es) ensures Represented(n, es, graphs) {
      var k :| 0 <= k < |candidates| && candidates[k].edges == es;
    }
  }
}
