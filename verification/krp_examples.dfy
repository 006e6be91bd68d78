/** The scenarios of test_krp.py, stated for every draw of the local keys. */
module KrpExamples {
  import opened Wrappers
  import opened Bits
  import opened Graphs
  import opened Krp
  import Enumeration

  /** The graph built from the edges (0,1) and (1,2), i.e. `nx.path_graph(3)`. */
  function Path3(): (g: Graph)
    ensures WellFormed(g)
  {
    Graph({0, 1, 2}, {(0, 1), (1, 2)})
  }

  /** `nx.path_graph(4)`: 0-1-2-3. */
  function Path4(): (g: Graph)
    ensures WellFormed(g)
  {
    Graph({0, 1, 2, 3}, {(0, 1), (1, 2), (2, 3)})
  }

  /** Nodes 0, 1, 2 with the single edge (0,1). */
  function Split3(): (g: Graph)
    ensures WellFormed(g)
  {
    Graph({0, 1, 2}, {(0, 1)})
  }

  lemma Path4Connected()
    ensures Connected(Path4(), 0, 3)
  {
    assert IsPath(Path4(), [0, 1, 2, 3], 0, 3);
  }

  /** The only shortest path from 0 to 2 in `Path3()` is 0-1-2. */
  lemma Path3ShortestPath(path: seq<nat>)
    requires IsShortestPath(Path3(), path, 0, 2)
    ensures path == [0, 1, 2]
  {
    var g := Path3();
    assert IsPath(g, [0, 1, 2], 0, 2);
    assert |path| <= 3;
    assert |path| != 1;
    assert |path| != 2;
    assert Adjacent(g, 0, path[1]);
  }

  /** Folding the keys along 0-1-2. */
  lemma PathKeyOfPath3(localKeys: map<Edge, Key>)
    requires (0, 1) in localKeys && (1, 2) in localKeys
    ensures PathKeyed(localKeys, [0, 1, 2])
    ensures PathKey(localKeys, [0, 1, 2]) == Xor(localKeys[(0, 1)], localKeys[(1, 2)])
  {
    var path: seq<nat> := [0, 1, 2];
    assert path[..2][..1] == [0];
    assert PathKey(localKeys, path[..2]) == Xor(0, localKeys[(0, 1)]);
    XorComm(0, localKeys[(0, 1)]);
    XorZero(localKeys[(0, 1)]);
  }

  /** The pair (0,2) on 0-1-2 gets the exclusive or of the two edge keys. */
  lemma RelayOnPath3(keyLength: nat, localKeys: map<Edge, Key>)
    requires ValidLocalKeys(Path3(), keyLength, localKeys)
    ensures RelayPair(Path3(), keyLength, localKeys, NewUserPair(0, 2))
            == Success(UserPair(0, 2, Some(Xor(localKeys[(0, 1)], localKeys[(1, 2)])), Some(Xor(localKeys[(0, 1)], localKeys[(1, 2)]))))
  {
    var path: seq<nat> := [0, 1, 2];
    assert IsShortestPath(Path3(), path, 0, 2) by {
      forall q | IsPath(Path3(), q, 0, 2) ensures |path| <= |q| {
        assert |q| != 1;
        assert |q| != 2;
      }
    }
    forall q | IsShortestPath(Path3(), q, 0, 2) ensures q == path {
      Path3ShortestPath(q);
    }
    RelayAlongOnlyShortestPath(Path3(), keyLength, localKeys, NewUserPair(0, 2), path);
    PathKeyOfPath3(localKeys);
  }

  /** test_krp.py:14-23: on 0-1-2 the pair (0,2) gets two equal keys of two
      bits, the exclusive or of the two edge keys, and the run is sound. */
  lemma SoundOnConnectedGraph(localKeys: map<Edge, Key>)
    requires ValidLocalKeys(Path3(), 2, localKeys)
    ensures var r := SimulateKrp(Path3(), [NewUserPair(0, 2)], Adversary({}), 2, localKeys);
            && r.Success? && r.value.sound
            && r.value.userPairs[0].k1.Some? && r.value.userPairs[0].k1 == r.value.userPairs[0].k2
            && r.value.userPairs[0].k1.value == Xor(localKeys[(0, 1)], localKeys[(1, 2)])
            && r.value.userPairs[0].k1.value < 4
  {
    assert (0, 1) in localKeys && (1, 2) in localKeys;
    var key := Xor(localKeys[(0, 1)], localKeys[(1, 2)]);
    assert Pow2(2) == 4;
    XorBound(localKeys[(0, 1)], localKeys[(1, 2)], 2);
    RelayOnPath3(2, localKeys);
    var p := UserPair(0, 2, Some(key), Some(key));
    assert RelayPair(Path3(), 2, localKeys, NewUserPair(0, 2)).value == p;
    RunOfOnePair(Path3(), NewUserPair(0, 2), Adversary({}), 2, localKeys);
    assert SimulateKrp(Path3(), [NewUserPair(0, 2)], Adversary({}), 2, localKeys)
           == Success(KrpResult(Path3(), [p], Adversary({}), ObservedKeys(localKeys, Adversary({})), true, true));
  }

  /** test_krp.py:25-34: with node 2 cut off the pair (0,2) gets no key and
      the run is not sound. */
  lemma UnsoundWithoutPath(localKeys: map<Edge, Key>)
    requires ValidLocalKeys(Split3(), 2, localKeys)
    ensures var r := SimulateKrp(Split3(), [NewUserPair(0, 2)], Adversary({}), 2, localKeys);
            r.Success? && !r.value.sound && r.value.userPairs[0].k1.None? && r.value.userPairs[0].k2.None?
  {
    ClosedSetSeparates(Split3(), {0, 1}, 0, 2);
  }

  /** test_krp.py:36-43: wiretapping every edge shows the adversary every
      local key. */
  lemma AdversarySeesWiretappedKeys(localKeys: map<Edge, Key>)
    requires ValidLocalKeys(Path3(), 2, localKeys)
    ensures var r := SimulateKrp(Path3(), [NewUserPair(0, 2)], Adversary(Path3().edges), 2, localKeys);
            r.Success? && r.value.observedKeys == localKeys
  {
  }

  /** test_krp.py:45-52: on 0-1-2-3 with the middle edge wiretapped the run
      is sound and reports secrecy. */
  lemma SecrecyReportedOnLongerPath(localKeys: map<Edge, Key>)
    requires ValidLocalKeys(Path4(), 1, localKeys)
    ensures var r := SimulateKrp(Path4(), [NewUserPair(0, 3)], Adversary({(1, 2)}), 1, localKeys);
            r.Success? && r.value.sound && r.value.secrecy && r.value.observedKeys.Keys == {(1, 2)}
  {
    var adversary := Adversary({(1, 2)});
    RunOfOnePair(Path4(), NewUserPair(0, 3), adversary, 1, localKeys);
    Path4Connected();
  }

  /** Wiretapping both edges of 0-1-2 reveals every local key. */
  lemma ObservedAllOfPath3(localKeys: map<Edge, Key>)
    requires localKeys.Keys == Path3().edges
    ensures ObservedKeys(localKeys, Adversary({(0, 1), (1, 2)})) == localKeys
  {
  }

  /** test_krp.py:54-61 as the code behaves: the adversary wiretaps the
      whole path and sees both keys the relay key is folded from, yet the
      run still reports secrecy. */
  lemma WiretappedPathStillReportsSecrecy(localKeys: map<Edge, Key>)
    requires ValidLocalKeys(Path3(), 1, localKeys)
    ensures var r := SimulateKrp(Path3(), [NewUserPair(0, 2)], Adversary({(0, 1), (1, 2)}), 1, localKeys);
            && r.Success? && r.value.sound && r.value.secrecy
            && r.value.observedKeys.Keys == {(0, 1), (1, 2)}
            && r.value.userPairs[0].k1 == Some(Xor(r.value.observedKeys[(0, 1)], r.value.observedKeys[(1, 2)]))
  {
    var adversary := Adversary({(0, 1), (1, 2)});
    RunOfOnePair(Path3(), NewUserPair(0, 2), adversary, 1, localKeys);
    RelayOnPath3(1, localKeys);
    ObservedAllOfPath3(localKeys);
  }

  /** A pair naming a node outside the graph aborts the run, as the
      uncaught `NodeNotFound` of networkx does. */
  lemma MissingNodeAborts(localKeys: map<Edge, Key>)
    requires ValidLocalKeys(Path3(), 2, localKeys)
    ensures SimulateKrp(Path3(), [NewUserPair(0, 2), NewUserPair(0, 5)], Adversary({}), 2, localKeys).Failure?
  {
    assert Misses(Path3(), [NewUserPair(0, 2), NewUserPair(0, 5)][1]);
  }

  /** test_krp.py:6-12: two classes of graphs on two nodes, four on three. */
  method EnumerationCounts() returns (two: nat, three: nat)
    ensures two == 2 && three == 4
  {
    var graphs2 := Enumeration.EnumerateAllGraphs(2);
    var graphs3 := Enumeration.EnumerateAllGraphs(3);
    two, three := |graphs2|, |graphs3|;
  }
}
