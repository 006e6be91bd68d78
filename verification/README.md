# Key Relay Protocol harness, modelled in Dafny

`krp.py` is a small harness for the Key Relay Protocol. It does two things:

- `enumerate_all_graphs(n)` lists one graph per isomorphism class of simple
  graphs on the nodes `0 .. n-1`. It tries every subset of the `n(n-1)/2`
  possible edges in `itertools` order and keeps a graph only when no kept
  graph is isomorphic to it.
- `simulate_krp` runs one round of the protocol on a graph:
  - every edge draws a local key of `key_length` bits;
  - every user pair takes a shortest path between its two nodes and folds
    the local keys along it with exclusive or, and both users receive the
    result (`None` for both when no path exists);
  - the adversary sees the local keys of the wiretapped edges;
  - the run is *sound* when every pair holds two equal keys, neither `None`.
    *Secrecy* is reported as the constant `True`.

The model is organised as follows:

| module | file | what it holds |
|---|---|---|
| `Graphs` | `graphs.dfy` | graphs as a node set and a set of edges stored as `(a, b)` with `a < b`; paths, connectivity, shortest paths |
| `ShortestPath` | `shortest_path.dfy` | `nx.shortest_path` as a breadth-first search by levels, with the networkx error cases |
| `Bits` | `bits.dfy` | Python's `^` on non-negative integers and the `2^L` bound of `getrandbits(L)` |
| `Permutations`, `Isomorphism` | `permutations.dfy`, `isomorphism.dfy` | relabellings of `0 .. n-1`; `nx.is_isomorphic` as "some relabelling maps one edge set onto the other", with a decision procedure that tries them all |
| `Enumeration` | `enumeration.dfy` | `itertools.combinations`, `itertools.product` and the loop of `enumerate_all_graphs` |
| `SmallGraphs` | `small_graphs.dfy` | the number of isomorphism classes on at most three nodes |
| `Krp` | `krp.dfy` | `UserPair`, `Adversary`, the relay key, `simulate_krp` |
| `KrpExamples` | `krp_examples.dfy` | the scenarios of `test_krp.py`, stated for every draw of the local keys |
| `Collections`, `Wrappers` | `collections.dfy`, `wrappers.dfy` | sequence and set helpers; `Option` and `Result`, and running a sequence of steps that may raise |

Other modelling choices:

- The random draw at krp.py:76-78 is an input, `localKeys`. `ValidLocalKeys`
  asks that it holds one key below `2^keyLength` for every edge and for
  nothing else.
- `simulate_krp` mutates the user pairs it is given. The model returns new
  pairs instead, in a `KrpResult`.
- `nx.shortest_path` raises `NodeNotFound` for an endpoint that is not in the
  graph, and `simulate_krp` catches only `NetworkXNoPath`. Such a run
  therefore ends in `Failure(MissingNode(node1, node2))`, naming the first
  pair that misses the graph.

## Model

| member | source | states |
|---|---|---|
| Enumeration.AllPairs | krp.py:47-48 | the pairs `(i, j)` with `0 <= i < j < n`, each exactly once, `n(n-1)/2` of them |
| Enumeration.PairsFromContents | krp.py:48 | the pairs listed from first element `i` on are exactly those with `i <= a < b < n`, without repetition, `(n-i)(n-i-1)/2` of them |
| Enumeration.Product | krp.py:49 | `product([0, 1], repeat=m)` lists every 0/1 vector of length `m` exactly once, `2^m` of them |
| Enumeration.SelectProperties | krp.py:50 | the edges a flag vector selects are possible edges, and two different flag vectors select different edge sets |
| Enumeration.SelectIndicator | krp.py:50 | the flag vector of any set of possible edges selects exactly that set |
| Enumeration.Candidates | krp.py:49-53 | `2^(n(n-1)/2)` candidate graphs on the nodes `0 .. n-1`; every edge set on those nodes is among them, and no edge set appears twice |
| Enumeration.KeepRepresents | krp.py:54-56 | after one pass the tried graph is isomorphic to a kept graph, and every edge set represented before still is |
| Enumeration.KeepNew | krp.py:54-56 | a pass appends a graph only when no kept graph is isomorphic to it, so no kept graph is isomorphic to an earlier one |
| Enumeration.KeepRepresentatives | krp.py:49-56 | the kept graphs are candidates, none is isomorphic to an earlier one, and every candidate is isomorphic to a kept graph |
| Enumeration.KeptPairwise | krp.py:54-57 | since isomorphism is symmetric, no two kept graphs are isomorphic |
| Enumeration.KeptComplete | krp.py:49-57 | every candidate being represented, every graph on `0 .. n-1` is isomorphic to a kept graph |
| Enumeration.EnumerateAllGraphs | krp.py:40-57 | the result is a complete list of pairwise non-isomorphic graphs on `0 .. n-1`, each a candidate; for `n <= 3` it has `n(n-1)/2 + 1` graphs |
| Isomorphism.IsoCheck | krp.py:55 | the decision procedure answers true exactly when some relabelling of `0 .. n-1` maps the first edge set onto the second |
| Isomorphism.IsoReflexive | krp.py:55 | every graph is isomorphic to itself |
| Isomorphism.IsoSymmetric | krp.py:55 | isomorphism is symmetric |
| Isomorphism.IsoTransitive | krp.py:55 | isomorphism is transitive |
| Isomorphism.IsoInvariants | krp.py:55 | a graph isomorphic to one on `0 .. n-1` lives on `0 .. n-1` and has as many edges |
| Isomorphism.RenameCard | krp.py:55 | a relabelling loses no edge |
| Permutations.Perms | krp.py:55 | the relabellings tried are exactly the one-to-one maps of `0 .. n-1` onto itself |
| Permutations.PermIffMultiset | krp.py:55 | a one-to-one relabelling of `0 .. n-1` is exactly a rearrangement of `0 .. n-1` |
| SmallGraphs.ClassCount | test_krp.py:7-12 | a complete list of pairwise non-isomorphic graphs on `n <= 3` nodes has `n(n-1)/2 + 1` members, so 2 for two nodes and 4 for three |
| SmallGraphs.ToRep3 | test_krp.py:10-12 | a graph on three nodes is isomorphic to the one fixed representative with as many edges |
| KrpExamples.EnumerationCounts | test_krp.py:6-12 | `enumerate_all_graphs(2)` has 2 graphs and `enumerate_all_graphs(3)` has 4 |
| Graphs.Canon | krp.py:88 | `tuple(sorted((u, v)))` has the same two endpoints, smaller first |
| Graphs.ShortestPathSimple | krp.py:85 | a shortest path never visits a node twice |
| Graphs.ReversePath | krp.py:85 | a path walked backwards joins the same nodes in the other direction |
| ShortestPath.ShortestPath | krp.py:85 | `NodeNotFound` exactly when an endpoint is missing, `NoPath` exactly when the endpoints are not connected, and otherwise a path with as few nodes as any path between them |
| ShortestPath.BackIsPath | krp.py:85 | the path read back from the breadth-first levels walks along edges of the graph from the source to the target |
| ShortestPath.ReachComplete | krp.py:85 | the end of every path from the source is found on the level given by the path's number of steps |
| Bits.XorBitAt | krp.py:89 | bit `i` of `a ^ b` is set exactly when bit `i` is set in one of `a` and `b` but not in both, for every `i` |
| Bits.XorBound | krp.py:78 | the exclusive or of two keys of `k` bits has `k` bits |
| Bits.XorZero | krp.py:86 | 0 is the neutral element of `^` |
| Bits.XorSelf | krp.py:89 | `a ^ a == 0` |
| Bits.XorComm | krp.py:89 | `^` is commutative |
| Bits.XorAssoc | krp.py:89 | `^` is associative |
| Krp.PathsAreKeyed | krp.py:87-89 | every step of a path in the graph has a local key, so the lookup cannot fail |
| Krp.PathKeyBound | krp.py:86-89 | the relay key of a path is below `2^keyLength` |
| Krp.PathKeyFront | krp.py:86-89 | folding from the first edge or from the last gives the same key |
| Krp.PathKeyReverse | krp.py:86-89 | the reversed path has the same relay key |
| Krp.RelayPair | krp.py:84-94 | a pair fails with `MissingNode(node1, node2)` (the uncaught `NodeNotFound`) exactly when an endpoint is missing; otherwise it keeps its nodes and both users hold the same value |
| Krp.RelayPairIgnoresKeys | krp.py:84-94 | both key slots of a pair are overwritten, so the keys it holds before the run never change its outcome: relaying it is relaying the fresh pair on the same nodes |
| Krp.RelayPairConnected | krp.py:85-93 | a pair inside the graph gets a key exactly when its nodes are connected |
| Krp.RelayPairKey | krp.py:85-90 | the key a pair gets is below `2^keyLength` and is the fold of the local keys along a shortest path between its nodes |
| Krp.RelayAlongOnlyShortestPath | krp.py:85-90 | when only one shortest path exists, both users hold the fold of the local keys along it |
| Wrappers.AllSuccess | krp.py:82-94 | a loop whose steps may raise: it fails exactly when some step fails, with the error of the first failing step; otherwise it yields every step's value, in order |
| Krp.RelayAll | krp.py:82-94 | the run over all pairs fails exactly when some pair misses the graph; otherwise it has one entry per pair, and the `i`-th entry is the `i`-th pair relayed on its own |
| Krp.RelayAllFirstError | krp.py:82-85 | the error names the first pair with an endpoint outside the graph |
| Krp.ObservedKeysOnlyFromGraph | krp.py:97 | the adversary sees exactly the wiretapped edges that are graph edges, each with its local key; wiretapping a non-edge changes nothing |
| Krp.ObservedKeysMonotone | krp.py:97 | wiretapping more edges never hides a key seen before |
| Krp.SimulateKrp | krp.py:63-116 | fails exactly when some pair misses the graph; otherwise keeps graph and adversary, relays every pair, is sound exactly when every pair's nodes are connected, reports secrecy, and observes exactly the wiretapped graph edges with their local keys |
| Krp.RunOfOnePair | krp.py:82-112 | a run with one pair inside the graph returns that pair's relay outcome, the observed keys, soundness exactly when the pair got a key, and secrecy |
| Krp.VerdictIndependentOfDraw | krp.py:76-102 | two draws of the local keys lead to the same success, soundness, secrecy, observed edges and key presence for every pair |
| KrpExamples.SoundOnConnectedGraph | test_krp.py:14-23 | on 0-1-2 the pair (0,2) holds two equal keys, the exclusive or of the two edge keys, below 4; the run is sound |
| KrpExamples.UnsoundWithoutPath | test_krp.py:25-34 | with node 2 cut off, the pair (0,2) holds no key and the run is not sound |
| KrpExamples.AdversarySeesWiretappedKeys | test_krp.py:36-43 | wiretapping every edge shows the adversary every local key |
| KrpExamples.SecrecyReportedOnLongerPath | test_krp.py:45-52 | on 0-1-2-3 with the middle edge wiretapped, the run is sound, reports secrecy and observes only that edge |
| KrpExamples.WiretappedPathStillReportsSecrecy | test_krp.py:54-61 | with the whole path 0-1-2 wiretapped, the run is sound and reports secrecy, although the relay key is the exclusive or of the two observed keys |
| KrpExamples.MissingNodeAborts | krp.py:84-92 | a pair naming a node outside the graph aborts the run |

## Left out

- The min-cut check and the secrecy check over GF(2) are not in the code. `simulate_krp` sets `secrecy = True` as a placeholder (krp.py:102). The model follows the code.
  - test_krp.py:54-61 expects secrecy to fail when the whole path is wiretapped. The code does not meet that assertion: `KrpExamples.WiretappedPathStillReportsSecrecy` proves the run reports secrecy there, although the adversary holds both keys the relay key is folded from.
  - The documented verdict record, with its min-cut result and adversary edge count, does not exist in the code either. The model returns what the code returns.
- `random.getrandbits` is not modelled. The drawn keys are the input `localKeys`, constrained only by their number of bits.
- A negative `key_length` makes `getrandbits` raise `ValueError`. Key lengths are `nat` here.
- Tie-breaking among shortest paths is networkx's own and is not modelled.
  - The model walks back from the target to the smallest-labelled neighbour one level closer to the source.
  - Every contract about the relay key holds for some shortest path. `RelayAlongOnlyShortestPath` pins the key exactly when the shortest path is unique.
- Edges are stored as `(a, b)` with `a < b`, the form krp.py:88 looks keys up under.
  - krp.py:77-78 keys the local keys by `G.edges()`, which reports an edge as `(v, u)` when `v` was added to the graph first.
  - In that case the lookup at krp.py:89 raises `KeyError`. The graphs built at krp.py:51-53, and those in the tests, never trigger this.
  - An adversary that names an edge in the other order at krp.py:97 sees nothing for it, in both the code and the model.
- On a `NodeNotFound` the source has already written keys into the earlier pairs before the exception escapes. The model returns only the error.
- The adversary's observations at krp.py:97 are a list in iteration order of a Python set, and go only into the log. The model keeps them as a map from edge to key in the result.
- The log and its printing (krp.py:74, 79, 91, 94, 98, 111-115), the `__main__` block (krp.py:122-132) and the other files of the repository are not modelled. Those files are users.py, butterfly_network.py and the PDF extraction scripts.
- Graph nodes are non-negative integers, as in every graph the code and its tests build.
- Graphs have no self-loops (`WellFormed`). networkx accepts an edge `(v, v)`: krp.py:77-78 would draw a key for it and krp.py:97 would show it to an adversary that wiretaps it. No graph the code or its tests build has one.
- A negative `n_nodes` makes krp.py:47-49 enumerate one empty graph. `EnumerateAllGraphs` takes a `nat`, so that case is not expressible; no caller passes a negative count.
