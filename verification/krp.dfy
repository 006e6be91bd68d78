/** `simulate_krp` as a function of the graph, the user pairs, the
    adversary and the local keys. Each edge carries a key of `key_length`
    bits; each user pair folds the keys along one shortest path between its
    two nodes with exclusive or and hands the result to both users, or
    leaves both without a key when no path exists. The adversary sees the
    keys of the wiretapped edges that are edges of the graph. The run is
    sound when every pair ends with two equal keys. */
module Krp {
  import opened Wrappers
  import opened Bits
  import opened Graphs
  import opened ShortestPath

  type Key = nat

  /** Two users at `node1` and `node2` and the keys they end up holding
      (`None` before the run, and when the run finds no path). */
  datatype UserPair = UserPair(node1: nat, node2: nat, k1: Option<Key>, k2: Option<Key>)

  /** `UserPair(node1, node2)` as constructed: no keys yet. */
  function NewUserPair(node1: nat, node2: nat): (up: UserPair)
    ensures up.node1 == node1 && up.node2 == node2 && up.k1.None? && up.k2.None?
  {
    UserPair(node1, node2, None, None)
  }

  /** An adversary listening on a set of edges. */
  datatype Adversary = Adversary(wiretappedEdges: set<Edge>)

  /** The `NodeNotFound` that `nx.shortest_path` raises for an endpoint
      outside the graph, with the pair's two nodes; `simulate_krp` does not
      catch it. */
  datatype SimError = MissingNode(node1: nat, node2: nat)

  /** The dictionary `simulate_krp` returns, without its log; the observed
      keys, which the source only writes to the log, are kept as a field. */
  datatype KrpResult = KrpResult(
    graph: Graph,
    userPairs: seq<UserPair>,
    adversary: Adversary,
    observedKeys: map<Edge, Key>,
    sound: bool,
    secrecy: bool)

  /** One key of `keyLength` bits for every edge of the graph and for
      nothing else, as the draw at krp.py:76-78 produces. */
  predicate ValidLocalKeys(g: Graph, keyLength: nat, localKeys: map<Edge, Key>) {
    localKeys.Keys == g.edges && forall e :: e in localKeys ==> localKeys[e] < Pow2(keyLength)
  }

  /** Every step of `path` is an edge with a local key. */
  ghost predicate PathKeyed(localKeys: map<Edge, Key>, path: seq<nat>) {
    forall i :: 0 <= i < |path| - 1 ==> Canon(path[i], path[i + 1]) in localKeys
  }

  lemma PathsAreKeyed(g: Graph, keyLength: nat, localKeys: map<Edge, Key>, path: seq<nat>, s: nat, t: nat)
    requires ValidLocalKeys(g, keyLength, localKeys) && IsPath(g, path, s, t)
    ensures PathKeyed(localKeys, path)
  {
  }

  /** The relay key of krp.py:86-89: starting from 0, exclusive or with the
      key of each step's edge `(min, max)` in path order. */
  function PathKey(localKeys: map<Edge, Key>, path: seq<nat>): Key
    requires PathKeyed(localKeys, path)
    decreases |path|
  {
    if |path| < 2 then 0
    else Xor(PathKey(localKeys, path[..|path| - 1]), localKeys[Canon(path[|path| - 2], path[|path| - 1])])
  }

  /** Folding keys of `keyLength` bits gives a key of `keyLength` bits. */
  lemma {:induction false} PathKeyBound(g: Graph, keyLength: nat, localKeys: map<Edge, Key>, path: seq<nat>)
    requires ValidLocalKeys(g, keyLength, localKeys) && PathKeyed(localKeys, path)
    ensures PathKey(localKeys, path) < Pow2(keyLength)
    decreases |path|
  {
    if |path| >= 2 {
      var init := path[..|path| - 1];
      assert PathKeyed(localKeys, init);
      PathKeyBound(g, keyLength, localKeys, init);
      XorBound(PathKey(localKeys, init), localKeys[Canon(path[|path| - 2], path[|path| - 1])], keyLength);
    } else {
      assert PathKey(localKeys, path) == 0;
    }
  }

  /** The fold can as well start from the first edge. */
  lemma {:induction false} PathKeyFront(localKeys: map<Edge, Key>, path: seq<nat>)
    requires PathKeyed(localKeys, path) && |path| >= 2
    ensures PathKeyed(localKeys, path[1..])
    ensures PathKey(localKeys, path) == Xor(localKeys[Canon(path[0], path[1])], PathKey(localKeys, path[1..]))
    decreases |path|
  {
    var first := localKeys[Canon(path[0], path[1])];
    assert PathKeyed(localKeys, path[1..]);
    if |path| == 2 {
      assert path[1..][..0] == [] by {}
      XorZero(first);
    } else {
      var init := path[..|path| - 1];
      var last := localKeys[Canon(path[|path| - 2], path[|path| - 1])];
      assert PathKeyed(localKeys, init);
      PathKeyFront(localKeys, init);
      assert init[1..] == path[1..][..|path| - 2];
      XorAssoc(first, PathKey(localKeys, init[1..]), last);
    }
  }

  /** Every step of the reversed path has a local key too. */
  lemma ReverseKeyed(localKeys: map<Edge, Key>, path: seq<nat>)
    requires PathKeyed(localKeys, path)
    ensures PathKeyed(localKeys, Reverse(path))
  {
    var rev := Reverse(path);
    forall i | 0 <= i < |rev| - 1 ensures Canon(rev[i], rev[i + 1]) in localKeys {
      assert Canon(rev[i], rev[i + 1]) == Canon(path[|path| - 2 - i], path[|path| - 1 - i]);
    }
  }

  /** The user at the far end, folding the keys from its own side, derives
      the same key: the fold does not depend on the direction of travel. */
  lemma {:induction false} PathKeyReverse(localKeys: map<Edge, Key>, path: seq<nat>)
    requires PathKeyed(localKeys, path)
    ensures PathKeyed(localKeys, Reverse(path))
    ensures PathKey(localKeys, Reverse(path)) == PathKey(localKeys, path)
    decreases |path|
  {
    ReverseKeyed(localKeys, path);
    if |path| >= 2 {
      var rev := Reverse(path);
      var tail := path[1..];
      PathKeyFront(localKeys, path);
      PathKeyReverse(localKeys, tail);
      assert rev[..|rev| - 1] == Reverse(tail);
      assert Canon(rev[|rev| - 2], rev[|rev| - 1]) == Canon(path[0], path[1]);
      XorComm(PathKey(localKeys, Reverse(tail)), localKeys[Canon(path[0], path[1])]);
    }
  }

  /** A pair with an endpoint outside the graph. */
  predicate Misses(g: Graph, up: UserPair) {
    up.node1 !in g.nodes || up.node2 !in g.nodes
  }

  /** krp.py:84-94 for one pair: both users get the relay key of a shortest
      path, or both get `None` when there is none; an endpoint outside the
      graph is an error. */
  function RelayPair(g: Graph, keyLength: nat, localKeys: map<Edge, Key>, up: UserPair): (r: Result<UserPair, SimError>)
    requires WellFormed(g) && ValidLocalKeys(g, keyLength, localKeys)
    ensures r.Failure? <==> Misses(g, up)
    ensures r.Failure? ==> r.error == MissingNode(up.node1, up.node2)
    ensures r.Success? ==> r.value.node1 == up.node1 && r.value.node2 == up.node2 && r.value.k1 == r.value.k2
  {
    var found := ShortestPath.ShortestPath(g, up.node1, up.node2);
    if found.Failure? && found.error.NodeNotFound? then Failure(MissingNode(up.node1, up.node2))
    else if found.Failure? then Success(up.(k1 := None, k2 := None))
    else
      var path := found.value;
      PathsAreKeyed(g, keyLength, localKeys, path, up.node1, up.node2);
      PathKeyBound(g, keyLength, localKeys, path);
      var key := PathKey(localKeys, path);
      Success(up.(k1 := Some(key), k2 := Some(key)))
  }

  /** Both key slots are overwritten (krp.py:90, krp.py:93), so the keys a
      pair holds before the run never affect its outcome: relaying it is
      relaying the fresh pair on the same nodes. */
  lemma RelayPairIgnoresKeys(g: Graph, keyLength: nat, localKeys: map<Edge, Key>, up: UserPair)
    requires WellFormed(g) && ValidLocalKeys(g, keyLength, localKeys)
    ensures RelayPair(g, keyLength, localKeys, up) == RelayPair(g, keyLength, localKeys, NewUserPair(up.node1, up.node2))
  {
  }

  /** A pair inside the graph gets a key exactly when its nodes are
      connected. */
  lemma RelayPairConnected(g: Graph, keyLength: nat, localKeys: map<Edge, Key>, up: UserPair)
    requires WellFormed(g) && ValidLocalKeys(g, keyLength, localKeys) && !Misses(g, up)
    ensures RelayPair(g, keyLength, localKeys, up).value.k1.Some? <==> Connected(g, up.node1, up.node2)
  {
    var found := ShortestPath.ShortestPath(g, up.node1, up.node2);
    assert found.Success? <==> Connected(g, up.node1, up.node2);
  }

  /** The key a pair gets is below `2^keyLength` and is the fold of the
      local keys along a shortest path between its nodes. */
  lemma RelayPairKey(g: Graph, keyLength: nat, localKeys: map<Edge, Key>, up: UserPair)
    requires WellFormed(g) && ValidLocalKeys(g, keyLength, localKeys) && !Misses(g, up)
    requires RelayPair(g, keyLength, localKeys, up).value.k1.Some?
    ensures var key := RelayPair(g, keyLength, localKeys, up).value.k1.value;
            && key < Pow2(keyLength)
            && exists path :: IsShortestPath(g, path, up.node1, up.node2) && PathKeyed(localKeys, path)
                              && key == PathKey(localKeys, path)
  {
    var path := ShortestPath.ShortestPath(g, up.node1, up.node2).value;
    PathsAreKeyed(g, keyLength, localKeys, path, up.node1, up.node2);
    PathKeyBound(g, keyLength, localKeys, path);
  }

  lemma RelayAlongOnlyShortestPath(g: Graph, keyLength: nat, localKeys: map<Edge, Key>, up: UserPair, path: seq<nat>)
    requires WellFormed(g) && ValidLocalKeys(g, keyLength, localKeys)
    requires IsShortestPath(g, path, up.node1, up.node2)
    requires forall q :: IsShortestPath(g, q, up.node1, up.node2) ==> q == path
    ensures PathKeyed(localKeys, path)
    ensures RelayPair(g, keyLength, localKeys, up)
            == Success(up.(k1 := Some(PathKey(localKeys, path)), k2 := Some(PathKey(localKeys, path))))
  {
    PathsAreKeyed(g, keyLength, localKeys, path, up.node1, up.node2);
  }

  /** Each pair relayed on its own, in order. */
  function Relays(g: Graph, keyLength: nat, localKeys: map<Edge, Key>, ups: seq<UserPair>): (rs: seq<Result<UserPair, SimError>>)
    requires WellFormed(g) && ValidLocalKeys(g, keyLength, localKeys)
    ensures |rs| == |ups|
  {
    seq(|ups|, i requires 0 <= i < |ups| => RelayPair(g, keyLength, localKeys, ups[i]))
  }

  /** krp.py:82-94: the pairs in order; the first pair with an endpoint
      outside the graph aborts the run with its error, and otherwise the
      `i`-th pair of the run is the `i`-th pair relayed on its own. */
  function RelayAll(g: Graph, keyLength: nat, localKeys: map<Edge, Key>, ups: seq<UserPair>): (r: Result<seq<UserPair>, SimError>)
    requires WellFormed(g) && ValidLocalKeys(g, keyLength, localKeys)
    ensures r.Failure? <==> exists i :: 0 <= i < |ups| && Misses(g, ups[i])
    ensures r.Success? ==> |r.value| == |ups|
    ensures r.Success? ==> forall i :: 0 <= i < |ups| ==>
              RelayPair(g, keyLength, localKeys, ups[i]) == Success(r.value[i])
  {
    var rs := Relays(g, keyLength, localKeys, ups);
    assert forall i :: 0 <= i < |ups| ==> rs[i] == RelayPair(g, keyLength, localKeys, ups[i]);
    AllSuccess(rs)
  }

  /** The error that aborts the run names the first pair with an endpoint
      outside the graph. */
  lemma RelayAllFirstError(g: Graph, keyLength: nat, localKeys: map<Edge, Key>, ups: seq<UserPair>)
    requires WellFormed(g) && ValidLocalKeys(g, keyLength, localKeys)
    requires RelayAll(g, keyLength, localKeys, ups).Failure?
    ensures exists i :: 0 <= i < |ups| && Misses(g, ups[i])
                        && (forall j :: 0 <= j < i ==> !Misses(g, ups[j]))
                        && RelayAll(g, keyLength, localKeys, ups).error == MissingNode(ups[i].node1, ups[i].node2)
  {
    var rs := Relays(g, keyLength, localKeys, ups);
    var i :| 0 <= i < |rs| && rs[i] == Failure(AllSuccess(rs).error) && forall j :: 0 <= j < i ==> rs[j].Success?;
    assert rs[i] == RelayPair(g, keyLength, localKeys, ups[i]);
    forall j | 0 <= j < i ensures !Misses(g, ups[j]) {
      assert rs[j] == RelayPair(g, keyLength, localKeys, ups[j]);
    }
  }

  /** krp.py:97: the local keys of the wiretapped edges that carry one. */
  function ObservedKeys(localKeys: map<Edge, Key>, adversary: Adversary): map<Edge, Key> {
    map e | e in adversary.wiretappedEdges && e in localKeys :: localKeys[e]
  }

  /** Wiretapping a non-edge reveals nothing: the adversary sees exactly what
      it would see wiretapping only the graph's edges among its choice, and
      each observed key is the edge's local key. */
  lemma ObservedKeysOnlyFromGraph(g: Graph, keyLength: nat, localKeys: map<Edge, Key>, adversary: Adversary)
    requires ValidLocalKeys(g, keyLength, localKeys)
    ensures ObservedKeys(localKeys, adversary).Keys == adversary.wiretappedEdges * g.edges
    ensures ObservedKeys(localKeys, adversary) == ObservedKeys(localKeys, Adversary(adversary.wiretappedEdges * g.edges))
    ensures forall e :: e in ObservedKeys(localKeys, adversary) ==> ObservedKeys(localKeys, adversary)[e] == localKeys[e]
  {
  }

  /** Wiretapping more edges never hides a key seen before. */
  lemma ObservedKeysMonotone(localKeys: map<Edge, Key>, a: Adversary, b: Adversary)
    requires a.wiretappedEdges <= b.wiretappedEdges
    ensures ObservedKeys(localKeys, a).Keys <= ObservedKeys(localKeys, b).Keys
    ensures forall e :: e in ObservedKeys(localKeys, a) ==> ObservedKeys(localKeys, b)[e] == ObservedKeys(localKeys, a)[e]
  {
  }

  /** krp.py:101: every pair ends with two equal keys, neither `None`. */
  predicate AllSound(ups: seq<UserPair>) {
    forall i :: 0 <= i < |ups| ==> ups[i].k1 == ups[i].k2 && ups[i].k1.Some?
  }

  /** krp.py:63-116 without the log and the printing. */
  function SimulateKrp(g: Graph, userPairs: seq<UserPair>, adversary: Adversary, keyLength: nat,
                       localKeys: map<Edge, Key>): (r: Result<KrpResult, SimError>)
    requires WellFormed(g) && ValidLocalKeys(g, keyLength, localKeys)
    ensures r.Failure? <==> exists i :: 0 <= i < |userPairs| && Misses(g, userPairs[i])
    ensures r.Success? ==> r.value.graph == g && r.value.adversary == adversary
    ensures r.Success? ==> |r.value.userPairs| == |userPairs|
    ensures r.Success? ==> forall i :: 0 <= i < |userPairs| ==>
              RelayPair(g, keyLength, localKeys, userPairs[i]) == Success(r.value.userPairs[i])
    ensures r.Success? ==> (r.value.sound <==>
              forall i :: 0 <= i < |userPairs| ==> Connected(g, userPairs[i].node1, userPairs[i].node2))
    ensures r.Success? ==> r.value.secrecy
    ensures r.Success? ==> r.value.observedKeys.Keys == adversary.wiretappedEdges * g.edges
    ensures r.Success? ==> forall e :: e in r.value.observedKeys ==> r.value.observedKeys[e] == localKeys[e]
  {
    match RelayAll(g, keyLength, localKeys, userPairs)
    case Failure(e) => Failure(e)
    case Success(pairs) =>
      ObservedKeysOnlyFromGraph(g, keyLength, localKeys, adversary);
      assert AllSound(pairs) <==> forall i :: 0 <= i < |userPairs| ==> Connected(g, userPairs[i].node1, userPairs[i].node2) by {
        forall i | 0 <= i < |userPairs| ensures pairs[i].k1 == pairs[i].k2
          && (pairs[i].k1.Some? <==> Connected(g, userPairs[i].node1, userPairs[i].node2)) {
          assert RelayPair(g, keyLength, localKeys, userPairs[i]) == Success(pairs[i]);
          RelayPairConnected(g, keyLength, localKeys, userPairs[i]);
        }
      }
      Success(KrpResult(g, pairs, adversary, ObservedKeys(localKeys, adversary), AllSound(pairs), true))
  }

  /** A run with one pair whose nodes are in the graph: the pair's relay
      outcome, the observed keys, soundness exactly when the pair got a
      key, and secrecy. */
  lemma RunOfOnePair(g: Graph, up: UserPair, adversary: Adversary, keyLength: nat, localKeys: map<Edge, Key>)
    requires WellFormed(g) && ValidLocalKeys(g, keyLength, localKeys) && !Misses(g, up)
    ensures RelayPair(g, keyLength, localKeys, up).Success?
    ensures var p := RelayPair(g, keyLength, localKeys, up).value;
            SimulateKrp(g, [up], adversary, keyLength, localKeys)
            == Success(KrpResult(g, [p], adversary, ObservedKeys(localKeys, adversary), p.k1.Some?, true))
  {
    var p := RelayPair(g, keyLength, localKeys, up).value;
    assert [up][0] == up && [up][1..] == [] && [p] + [] == [p];
    assert RelayAll(g, keyLength, localKeys, []) == Success([]);
    assert RelayAll(g, keyLength, localKeys, [up]) == Success([p]);
    assert p.k1 == p.k2 && [p][0] == p;
    assert AllSound([p]) == p.k1.Some?;
  }

  /** Only the concrete key values depend on the random draw: two runs with
      different local keys fail alike or agree on soundness, secrecy and
      on which pairs hold keys. */
  lemma VerdictIndependentOfDraw(g: Graph, userPairs: seq<UserPair>, adversary: Adversary, keyLength: nat,
                                 keys1: map<Edge, Key>, keys2: map<Edge, Key>)
    requires WellFormed(g) && ValidLocalKeys(g, keyLength, keys1) && ValidLocalKeys(g, keyLength, keys2)
    ensures var r1, r2 := SimulateKrp(g, userPairs, adversary, keyLength, keys1), SimulateKrp(g, userPairs, adversary, keyLength, keys2);
            && r1.Success? == r2.Success?
            && (r1.Success? ==> r1.value.sound == r2.value.sound && r1.value.secrecy == r2.value.secrecy
                                && r1.value.observedKeys.Keys == r2.value.observedKeys.Keys
                                && forall i :: 0 <= i < |userPairs| ==>
                                     r1.value.userPairs[i].k1.Some? == r2.value.userPairs[i].k1.Some?)
  {
    var r1, r2 := SimulateKrp(g, userPairs, adversary, keyLength, keys1), SimulateKrp(g, userPairs, adversary, keyLength, keys2);
    if r1.Success? && r2.Success? {
      forall i | 0 <= i < |userPairs|
        ensures r1.value.userPairs[i].k1.Some? == r2.value.userPairs[i].k1.Some?
      {
        RelayPairConnected(g, keyLength, keys1, userPairs[i]);
        RelayPairConnected(g, keyLength, keys2, userPairs[i]);
      }
    }
  }
}
