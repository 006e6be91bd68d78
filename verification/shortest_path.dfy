/** Breadth-first shortest paths, standing in for `networkx.shortest_path`
    on an unweighted graph. The search grows the set of nodes reachable in
    at most `k` steps until it contains the target or stops growing; the
    path is then read backwards, each node stepping to its smallest-labelled
    neighbour one level closer to the source. */
module ShortestPath {
  import opened Wrappers
  import opened Collections
  import opened Graphs

  /** The two failures `networkx.shortest_path` reports: an endpoint that is
      not a node of the graph, and endpoints with no path between them. */
  datatype PathError = NodeNotFound | NoPath

  /** `r` plus every node adjacent to a node of `r`. */
  function Step(g: Graph, r: set<nat>): set<nat> {
    r + set v | v in g.nodes && exists u | u in r :: Adjacent(g, u, v)
  }

  /** The nodes reachable from `s` in at most `k` steps. */
  function Reach(g: Graph, s: nat, k: nat): set<nat>
    decreases k
  {
    if k == 0 then {s} else Step(g, Reach(g, s, k - 1))
  }

  /** Every level lies within the graph. */
  lemma {:induction false} ReachInGraph(g: Graph, s: nat, k: nat)
    requires s in g.nodes
    ensures Reach(g, s, k) <= g.nodes
    decreases k
  {
    if k > 0 {
      ReachInGraph(g, s, k - 1);
    }
  }

  /** Each level contains the one before. */
  lemma {:induction false} ReachMonotone(g: Graph, s: nat, j: nat, k: nat)
    requires j <= k
    ensures Reach(g, s, j) <= Reach(g, s, k)
    decreases k - j
  {
    if j < k {
      ReachMonotone(g, s, j, k - 1);
      assert Reach(g, s, k - 1) <= Step(g, Reach(g, s, k - 1));
    }
  }

  /** Once a level adds no node, no later level does. */
  lemma {:induction false} ReachStable(g: Graph, s: nat, k: nat, j: nat)
    requires k <= j
    requires Reach(g, s, k + 1) == Reach(g, s, k)
    ensures Reach(g, s, j) <= Reach(g, s, k)
    decreases j - k
  {
    if k < j {
      ReachStable(g, s, k, j - 1);
      StepMonotone(g, Reach(g, s, j - 1), Reach(g, s, k));
    }
  }

  lemma StepMonotone(g: Graph, a: set<nat>, b: set<nat>)
    requires a <= b
    ensures Step(g, a) <= Step(g, b)
  {
    forall v | v in Step(g, a) ensures v in Step(g, b) {
      if v !in a {
        var u :| u in a && Adjacent(g, u, v);
        assert u in b;
      }
    }
  }

  /** The end of every path from `s` lies within the level given by the
      path's number of steps. */
  lemma {:induction false} ReachComplete(g: Graph, p: seq<nat>, s: nat, v: nat)
    requires IsPath(g, p, s, v)
    ensures v in Reach(g, s, |p| - 1)
    decreases |p|
  {
    if |p| > 1 {
      var u := p[|p| - 2];
      var q := p[..|p| - 1];
      assert IsPath(g, q, s, u);
      ReachComplete(g, q, s, u);
      assert Adjacent(g, u, v);
    }
  }

  /** The nodes of `below` adjacent to `v`. */
  function Predecessors(g: Graph, below: set<nat>, v: nat): (r: set<nat>)
    ensures forall u :: u in r ==> u in below && Adjacent(g, u, v)
  {
    set u | u in below && Adjacent(g, u, v)
  }

  /** A node that first appears at level `k` has a neighbour one level below. */
  lemma Predecessor(g: Graph, s: nat, v: nat, k: nat) returns (u: nat)
    requires k > 0 && v in Reach(g, s, k) && v !in Reach(g, s, k - 1)
    ensures u in Reach(g, s, k - 1) && Adjacent(g, u, v)
  {
    u :| u in Reach(g, s, k - 1) && Adjacent(g, u, v);
  }

  /** The levels `Reach(g, s, 0)` up to `Reach(g, s, n)`. */
  function Levels(g: Graph, s: nat, n: nat): (levels: seq<set<nat>>)
    ensures |levels| == n + 1
    ensures forall j :: 0 <= j <= n ==> levels[j] == Reach(g, s, j)
  {
    seq(n + 1, j requires 0 <= j => Reach(g, s, j))
  }

  /** `v` is on level `j` but not on the level before. */
  ghost predicate FirstOn(levels: seq<set<nat>>, j: nat, v: nat)
    requires 0 < j < |levels|
  {
    v in levels[j] && v !in levels[j - 1]
  }

  /** What path reconstruction needs of a sequence of levels: the first is
      `{s}`, all lie in the graph, and a node first found on a level has a
      neighbour on the level before. */
  ghost predicate Layered(g: Graph, s: nat, levels: seq<set<nat>>) {
    && |levels| >= 1
    && levels[0] == {s}
    && (forall j :: 0 <= j < |levels| ==> levels[j] <= g.nodes)
    && (forall j, v :: 0 < j < |levels| && FirstOn(levels, j, v) ==>
          exists u :: u in levels[j - 1] && Adjacent(g, u, v))
  }

  lemma LevelsLayered(g: Graph, s: nat, n: nat)
    requires s in g.nodes
    ensures Layered(g, s, Levels(g, s, n))
  {
    var levels := Levels(g, s, n);
    forall j | 0 <= j < |levels| ensures levels[j] <= g.nodes {
      ReachInGraph(g, s, j);
    }
    forall j, v | 0 < j < |levels| && FirstOn(levels, j, v)
      ensures exists u :: u in levels[j - 1] && Adjacent(g, u, v)
    {
      var u := Predecessor(g, s, v, j);
    }
  }

  /** A path to `v` read backwards level by level: it keeps to level
      `k - 1` when `v` is already there, and otherwise steps back to the
      smallest-labelled neighbour of `v` on level `k - 1`. */
  function Back(g: Graph, levels: seq<set<nat>>, v: nat, k: nat): (p: seq<nat>)
    requires k < |levels|
    ensures 1 <= |p| <= k + 1 && p[|p| - 1] == v
    decreases k
  {
    if k == 0 then [v]
    else
      var preds := Predecessors(g, levels[k - 1], v);
      if v in levels[k - 1] || preds == {} then Back(g, levels, v, k - 1)
      else Back(g, levels, Min(preds), k - 1) + [v]
  }

  /** From a node on level `k`, `Back` walks along edges of the graph back
      to `s`. */
  lemma {:induction false} BackIsPath(g: Graph, s: nat, levels: seq<set<nat>>, v: nat, k: nat)
    requires Layered(g, s, levels) && k < |levels| && v in levels[k]
    ensures IsPath(g, Back(g, levels, v, k), s, v)
    decreases k
  {
    if k == 0 {
      assert v == s;
    } else if v in levels[k - 1] {
      BackIsPath(g, s, levels, v, k - 1);
    } else {
      var preds := Predecessors(g, levels[k - 1], v);
      assert FirstOn(levels, k, v);
      var w :| w in levels[k - 1] && Adjacent(g, w, v);
      assert w in preds;
      var u := Min(preds);
      BackIsPath(g, s, levels, u, k - 1);
      assert v in g.nodes;
      PathExtend(g, Back(g, levels, u, k - 1), s, u, v);
    }
  }

  /** A target missing from every level up to a level that adds nothing
      is missing from every level. */
  lemma NeverReached(g: Graph, s: nat, t: nat, k: nat)
    requires forall j: nat :: j <= k ==> t !in Reach(g, s, j)
    requires |Reach(g, s, k + 1)| == |Reach(g, s, k)|
    ensures forall j: nat :: t !in Reach(g, s, j)
  {
    ReachMonotone(g, s, k, k + 1);
    SubsetCard(Reach(g, s, k), Reach(g, s, k + 1));
    forall j: nat ensures t !in Reach(g, s, j) {
      if j >= k {
        ReachStable(g, s, k, j);
      }
    }
  }

  /** A level that adds a node is strictly larger, and no level outgrows the graph. */
  lemma ReachGrows(g: Graph, s: nat, k: nat)
    requires s in g.nodes
    requires |Reach(g, s, k + 1)| != |Reach(g, s, k)|
    ensures |Reach(g, s, k)| < |Reach(g, s, k + 1)| <= |g.nodes|
  {
    ReachMonotone(g, s, k, k + 1);
    ReachInGraph(g, s, k + 1);
    SubsetCard(Reach(g, s, k), Reach(g, s, k + 1));
    SubsetCard(Reach(g, s, k + 1), g.nodes);
  }

  /** `t` is in none of the levels below `k`. */
  ghost predicate MissedBelow(g: Graph, s: nat, t: nat, k: nat) {
    forall j: nat :: j < k ==> t !in Reach(g, s, j)
  }

  /** Missing level `k` too extends the range of missed levels by one. */
  lemma MissedOneMore(g: Graph, s: nat, t: nat, k: nat)
    requires MissedBelow(g, s, t, k) && t !in Reach(g, s, k)
    ensures MissedBelow(g, s, t, k + 1)
  {
  }

  /** The least level, from `k` on, that contains `t`, or `None` when the
      levels stop growing without reaching it. */
  function Distance(g: Graph, s: nat, t: nat, k: nat): (r: Option<nat>)
    requires s in g.nodes
    requires MissedBelow(g, s, t, k)
    ensures r.Some? ==> t in Reach(g, s, r.value)
    ensures r.Some? ==> MissedBelow(g, s, t, r.value)
    ensures r.None? ==> forall j: nat :: t !in Reach(g, s, j)
    decreases |g.nodes| - |Reach(g, s, k)|
  {
    if t in Reach(g, s, k) then Some(k)
    else if |Reach(g, s, k + 1)| == |Reach(g, s, k)| then
      NeverReached(g, s, t, k);
      None
    else
      ReachGrows(g, s, k);
      MissedOneMore(g, s, t, k);
      Distance(g, s, t, k + 1)
  }

  /** Python's `nx.shortest_path(G, s, t)`: `NodeNotFound` when an endpoint
      is missing, `NoPath` when the endpoints are not connected, and
      otherwise a path with as few nodes as any path between them. */
  function ShortestPath(g: Graph, s: nat, t: nat): (r: Result<seq<nat>, PathError>)
    ensures r == Failure(NodeNotFound) <==> s !in g.nodes || t !in g.nodes
    ensures r == Failure(NoPath) <==> s in g.nodes && t in g.nodes && !Connected(g, s, t)
    ensures r.Success? ==> IsShortestPath(g, r.value, s, t)
  {
    if s !in g.nodes || t !in g.nodes then Failure(NodeNotFound)
    else
      match Distance(g, s, t, 0)
      case None =>
        assert !Connected(g, s, t) by {
          forall q | IsPath(g, q, s, t) ensures false {
            ReachComplete(g, q, s, t);
          }
        }
        Failure(NoPath)
      case Some(d) =>
        var levels := Levels(g, s, d);
        LevelsLayered(g, s, d);
        var p := Back(g, levels, t, d);
        BackIsPath(g, s, levels, t, d);
        assert IsShortestPath(g, p, s, t) by {
          forall q | IsPath(g, q, s, t) ensures |p| <= |q| {
            ReachComplete(g, q, s, t);
          }
        }
        Success(p)
  }
}
