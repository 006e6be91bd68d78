/** Graph isomorphism on the nodes `0 .. n-1`, standing in for
    `networkx.is_isomorphic`: two edge sets are isomorphic when some
    relabelling of the nodes carries one exactly onto the other. */
module Isomorphism {
  import opened Collections
  import opened Graphs
  import opened Permutations

  /** The edge set `es` with every node `i` renamed to `p[i]`. */
  function Rename(p: seq<nat>, es: set<Edge>): set<Edge> {
    set e | e in es && e.0 < |p| && e.1 < |p| :: Canon(p[e.0], p[e.1])
  }

  /** `es` is the edge set of a simple graph on the nodes `0 .. n-1`. */
  predicate OnNodes(n: nat, es: set<Edge>) {
    es <= PairSet(n)
  }

  ghost predicate Isomorphic(n: nat, a: set<Edge>, b: set<Edge>) {
    exists p :: IsPerm(p, n) && Rename(p, a) == b
  }

  /** The decision procedure: try every relabelling. */
  predicate IsoCheck(n: nat, a: set<Edge>, b: set<Edge>)
    ensures IsoCheck(n, a, b) <==> Isomorphic(n, a, b)
  {
    var ps := Perms(n);
    exists p | p in ps :: Rename(p, a) == b
  }

  /** A relabelling keeps a graph on `0 .. n-1` on `0 .. n-1`. */
  lemma RenameOnNodes(p: seq<nat>, n: nat, a: set<Edge>)
    requires IsPerm(p, n) && OnNodes(n, a)
    ensures OnNodes(n, Rename(p, a))
  {
    forall e | e in Rename(p, a) ensures e in PairSet(n) {
      var f :| f in a && f.0 < |p| && f.1 < |p| && e == Canon(p[f.0], p[f.1]);
    }
  }

  /** Distinct edges are renamed to distinct edges. */
  lemma RenameInjective(p: seq<nat>, n: nat, e: Edge, f: Edge)
    requires IsPerm(p, n) && e in PairSet(n) && f in PairSet(n)
    requires Canon(p[e.0], p[e.1]) == Canon(p[f.0], p[f.1])
    ensures e == f
  {
    if p[e.0] == p[f.0] {
      assert e.0 == f.0;
      assert p[e.1] == p[f.1];
    }
  }

  lemma RenameSplit(p: seq<nat>, a: set<Edge>, e: Edge)
    requires e in a && e.0 < |p| && e.1 < |p|
    ensures Rename(p, a) == Rename(p, a - {e}) + {Canon(p[e.0], p[e.1])}
  {
  }

  /** The image of an edge is the image of no other edge. */
  lemma RenameFresh(p: seq<nat>, n: nat, a: set<Edge>, e: Edge)
    requires IsPerm(p, n) && OnNodes(n, a) && e in a
    ensures e.0 < |p| && e.1 < |p|
    ensures Canon(p[e.0], p[e.1]) !in Rename(p, a - {e})
  {
    assert e in PairSet(n);
    var img := Canon(p[e.0], p[e.1]);
    if img in Rename(p, a - {e}) {
      var f :| f in a - {e} && f.0 < |p| && f.1 < |p| && img == Canon(p[f.0], p[f.1]);
      assert f in PairSet(n);
      RenameInjective(p, n, e, f);
    }
  }

  /** Renaming loses no edge, so isomorphic graphs have equally many edges. */
  lemma {:induction false} RenameCard(p: seq<nat>, n: nat, a: set<Edge>)
    requires IsPerm(p, n) && OnNodes(n, a)
    ensures |Rename(p, a)| == |a|
    decreases |a|
  {
    if a != {} {
      var e :| e in a;
      var rest := a - {e};
      RenameCard(p, n, rest);
      RenameFresh(p, n, a, e);
      RenameSplit(p, a, e);
      assert |Rename(p, rest) + {Canon(p[e.0], p[e.1])}| == |Rename(p, rest)| + 1;
    }
  }

  /** Renaming by the identity changes nothing. */
  lemma RenameIdentity(n: nat, a: set<Edge>)
    requires OnNodes(n, a)
    ensures Rename(Range(n), a) == a
  {
    var id := Range(n);
    forall e | e in a ensures e in Rename(id, a) {
      assert Canon(id[e.0], id[e.1]) == e;
    }
  }

  /** Renaming an edge by `p` and then by `q` renames it by the composition. */
  lemma ComposeEdge(p: seq<nat>, q: seq<nat>, n: nat, e: Edge)
    requires IsPerm(p, n) && IsPerm(q, n) && e in PairSet(n)
    ensures var f := Canon(p[e.0], p[e.1]);
            f.0 < n && f.1 < n && Canon(q[f.0], q[f.1]) == Canon(Compose(p, q, n)[e.0], Compose(p, q, n)[e.1])
  {
  }

  lemma ComposeForward(p: seq<nat>, q: seq<nat>, n: nat, a: set<Edge>)
    requires IsPerm(p, n) && IsPerm(q, n) && OnNodes(n, a)
    ensures Rename(q, Rename(p, a)) <= Rename(Compose(p, q, n), a)
  {
    var r := Compose(p, q, n);
    forall e | e in Rename(q, Rename(p, a)) ensures e in Rename(r, a) {
      var f :| f in Rename(p, a) && f.0 < |q| && f.1 < |q| && e == Canon(q[f.0], q[f.1]);
      var g :| g in a && g.0 < |p| && g.1 < |p| && f == Canon(p[g.0], p[g.1]);
      assert g in PairSet(n);
      ComposeEdge(p, q, n, g);
    }
  }

  lemma ComposeBackward(p: seq<nat>, q: seq<nat>, n: nat, a: set<Edge>)
    requires IsPerm(p, n) && IsPerm(q, n) && OnNodes(n, a)
    ensures Rename(Compose(p, q, n), a) <= Rename(q, Rename(p, a))
  {
    var r := Compose(p, q, n);
    forall e | e in Rename(r, a) ensures e in Rename(q, Rename(p, a)) {
      var g :| g in a && g.0 < |r| && g.1 < |r| && e == Canon(r[g.0], r[g.1]);
      assert g in PairSet(n);
      ComposeEdge(p, q, n, g);
      var f := Canon(p[g.0], p[g.1]);
      assert f in Rename(p, a);
    }
  }

  /** Renaming twice is renaming once by the composed relabelling. */
  lemma RenameCompose(p: seq<nat>, q: seq<nat>, n: nat, a: set<Edge>)
    requires IsPerm(p, n) && IsPerm(q, n) && OnNodes(n, a)
    ensures Rename(q, Rename(p, a)) == Rename(Compose(p, q, n), a)
  {
    ComposeForward(p, q, n, a);
    ComposeBackward(p, q, n, a);
  }

  lemma IsoReflexive(n: nat, a: set<Edge>)
    requires OnNodes(n, a)
    ensures Isomorphic(n, a, a)
  {
    RenameIdentity(n, a);
    assert IsPerm(Range(n), n);
  }

  lemma IsoSymmetric(n: nat, a: set<Edge>, b: set<Edge>)
    requires OnNodes(n, a) && Isomorphic(n, a, b)
    ensures Isomorphic(n, b, a)
  {
    var p :| IsPerm(p, n) && Rename(p, a) == b;
    var q := Inverse(p, n);
    RenameCompose(p, q, n, a);
    var r := Compose(p, q, n);
    assert r == Range(n);
    RenameIdentity(n, a);
  }

  lemma IsoTransitive(n: nat, a: set<Edge>, b: set<Edge>, c: set<Edge>)
    requires OnNodes(n, a) && Isomorphic(n, a, b) && Isomorphic(n, b, c)
    ensures Isomorphic(n, a, c)
  {
    var p :| IsPerm(p, n) && Rename(p, a) == b;
    var q :| IsPerm(q, n) && Rename(q, b) == c;
    RenameCompose(p, q, n, a);
  }

  /** A graph isomorphic to one on `0 .. n-1` lives on `0 .. n-1` and has
      as many edges. */
  lemma IsoInvariants(n: nat, a: set<Edge>, b: set<Edge>)
    requires OnNodes(n, a) && Isomorphic(n, a, b)
    ensures OnNodes(n, b) && |b| == |a|
  {
    var p :| IsPerm(p, n) && Rename(p, a) == b;
    RenameOnNodes(p, n, a);
    RenameCard(p, n, a);
  }
}
