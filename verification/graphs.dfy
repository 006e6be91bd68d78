/** Simple undirected graphs as the protocol sees them: a set of integer
    node labels and a set of edges, each edge stored once as the pair
    `(smaller, larger)`. Paths are node sequences whose consecutive nodes
    are joined by an edge. */
module Graphs {

  /** An edge `(a, b)`; in a well-formed graph always `a < b`. */
  type Edge = (nat, nat)

  datatype Graph = Graph(nodes: set<nat>, edges: set<Edge>)

  /** The stored form of the edge between `u` and `v`: the same two
      endpoints, smaller one first. */
  function Canon(u: nat, v: nat): (e: Edge)
    ensures e.0 <= e.1
    ensures (e.0 == u && e.1 == v) || (e.0 == v && e.1 == u)
  {
    if u <= v then (u, v) else (v, u)
  }

  /** Every edge joins two distinct nodes of the graph and is stored in
      canonical order; this also rules out self-loops. */
  predicate WellFormed(g: Graph) {
    forall e :: e in g.edges ==> e.0 < e.1 && e.0 in g.nodes && e.1 in g.nodes
  }

  /** Every edge a simple graph on the nodes `0 .. n-1` can have. */
  function PairSet(n: nat): (r: set<Edge>)
    ensures forall e: Edge :: e in r <==> e.0 < e.1 < n
  {
    var r := set i: nat, j: nat | i < j < n :: (i, j);
    assert forall e: Edge :: e.0 < e.1 < n ==> e in r by {
      forall e: Edge | e.0 < e.1 < n ensures e in r {
        assert e == (e.0, e.1);
      }
    }
    r
  }

  predicate Adjacent(g: Graph, u: nat, v: nat) {
    Canon(u, v) in g.edges
  }

  /** `p` walks from `s` to `t` through nodes of `g` along edges of `g`. */
  ghost predicate IsPath(g: Graph, p: seq<nat>, s: nat, t: nat) {
    && |p| >= 1
    && p[0] == s
    && p[|p| - 1] == t
    && (forall i :: 0 <= i < |p| ==> p[i] in g.nodes)
    && (forall i :: 0 <= i < |p| - 1 ==> Adjacent(g, p[i], p[i + 1]))
  }

  ghost predicate Connected(g: Graph, s: nat, t: nat) {
    exists p :: IsPath(g, p, s, t)
  }

  /** `p` is a path from `s` to `t` and no path between them has fewer nodes. */
  ghost predicate IsShortestPath(g: Graph, p: seq<nat>, s: nat, t: nat) {
    IsPath(g, p, s, t) && forall q :: IsPath(g, q, s, t) ==> |p| <= |q|
  }

  /** A path followed by one more edge is a path. */
  lemma PathExtend(g: Graph, p: seq<nat>, s: nat, u: nat, v: nat)
    requires IsPath(g, p, s, u) && v in g.nodes && Adjacent(g, u, v)
    ensures IsPath(g, p + [v], s, v)
  {
    var q := p + [v];
    forall i | 0 <= i < |q| - 1 ensures Adjacent(g, q[i], q[i + 1]) {
      if i < |p| - 1 {
        assert q[i] == p[i] && q[i + 1] == p[i + 1];
      }
    }
  }

  /** Walking a path backwards gives a path between the same endpoints in
      the other direction. */
  lemma ReversePath(g: Graph, p: seq<nat>, s: nat, t: nat)
    requires IsPath(g, p, s, t)
    ensures IsPath(g, Reverse(p), t, s)
  {
    var r := Reverse(p);
    forall i | 0 <= i < |r| - 1 ensures Adjacent(g, r[i], r[i + 1]) {
      assert r[i] == p[|p| - 1 - i] && r[i + 1] == p[|p| - 2 - i];
      assert Adjacent(g, p[|p| - 2 - i], p[|p| - 1 - i]);
      assert Canon(r[i], r[i + 1]) == Canon(p[|p| - 2 - i], p[|p| - 1 - i]);
    }
  }

  function Reverse(p: seq<nat>): (r: seq<nat>)
    ensures |r| == |p|
    ensures forall i :: 0 <= i < |p| ==> r[i] == p[|p| - 1 - i]
  {
    seq(|p|, i requires 0 <= i < |p| => p[|p| - 1 - i])
  }

  /** A shortest path never visits a node twice: cutting out the detour
      between two visits would give a shorter path. */
  lemma ShortestPathSimple(g: Graph, p: seq<nat>, s: nat, t: nat)
    requires IsShortestPath(g, p, s, t)
    ensures forall i, j :: 0 <= i < j < |p| ==> p[i] != p[j]
  {
    forall i, j | 0 <= i < j < |p| ensures p[i] != p[j] {
      if p[i] == p[j] {
        var q := p[..i] + p[j..];
        assert IsPath(g, q, s, t) by {
          forall k | 0 <= k < |q| - 1 ensures Adjacent(g, q[k], q[k + 1]) {
            if k < i - 1 {
              assert q[k] == p[k] && q[k + 1] == p[k + 1];
            } else if k == i - 1 {
              assert q[k] == p[i - 1] && q[k + 1] == p[j] == p[i];
            } else {
              assert q[k] == p[k - i + j] && q[k + 1] == p[k - i + j + 1];
            }
          }
        }
        assert false;
      }
    }
  }

  /** A node set that no edge leaves holds every node reachable from inside it. */
  lemma {:induction false} PathStaysInside(g: Graph, inside: set<nat>, p: seq<nat>, s: nat, t: nat)
    requires IsPath(g, p, s, t) && s in inside
    requires forall e :: e in g.edges ==> (e.0 in inside <==> e.1 in inside)
    ensures t in inside
    decreases |p|
  {
    if |p| > 1 {
      var u := p[|p| - 2];
      assert IsPath(g, p[..|p| - 1], s, u);
      PathStaysInside(g, inside, p[..|p| - 1], s, u);
      assert Canon(u, t) in g.edges;
    }
  }

  /** Nodes separated by a node set that no edge leaves are not connected. */
  lemma ClosedSetSeparates(g: Graph, inside: set<nat>, s: nat, t: nat)
    requires s in inside && t !in inside
    requires forall e :: e in g.edges ==> (e.0 in inside <==> e.1 in inside)
    ensures !Connected(g, s, t)
  {
    forall p | IsPath(g, p, s, t) ensures false {
      PathStaysInside(g, inside, p, s, t);
    }
  }
}
