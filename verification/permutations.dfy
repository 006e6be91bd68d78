/** Relabellings of the nodes `0 .. n-1`. A permutation is written as the
    sequence of new labels: node `i` becomes `p[i]`. `Perms(n)` lists every
    permutation, which makes "some relabelling maps one graph onto the
    other" decidable. */
module Permutations {
  import opened Collections

  /** `p` relabels `0 .. n-1` one-to-one onto `0 .. n-1`. */
  predicate IsPerm(p: seq<nat>, n: nat) {
    |p| == n && (forall i :: 0 <= i < n ==> p[i] < n) && Distinct(p)
  }

  /** `xs` without its `i`-th element. */
  function Remove(xs: seq<nat>, i: nat): (r: seq<nat>)
    requires i < |xs|
    ensures |r| == |xs| - 1
    ensures multiset(r) == multiset(xs) - multiset{xs[i]}
  {
    assert xs == xs[..i] + [xs[i]] + xs[i + 1..];
    xs[..i] + xs[i + 1..]
  }

  /** Every ordering of the elements of `xs`. */
  function PermsOf(xs: seq<nat>): seq<seq<nat>>
    decreases |xs|, 1
  {
    if |xs| == 0 then [[]] else PermsFrom(xs, 0)
  }

  /** The orderings of `xs` that start with one of `xs[i..]`. */
  function PermsFrom(xs: seq<nat>, i: nat): seq<seq<nat>>
    requires i <= |xs|
    decreases |xs|, 0, |xs| - i
  {
    if i == |xs| then []
    else Cons(xs[i], PermsOf(Remove(xs, i))) + PermsFrom(xs, i + 1)
  }

  lemma {:induction false} PermsOfSound(xs: seq<nat>, q: seq<nat>)
    requires q in PermsOf(xs)
    ensures multiset(q) == multiset(xs)
    decreases |xs|, 1
  {
    if |xs| > 0 {
      PermsFromSound(xs, 0, q);
    }
  }

  lemma {:induction false} PermsFromSound(xs: seq<nat>, i: nat, q: seq<nat>)
    requires i <= |xs| && q in PermsFrom(xs, i)
    ensures multiset(q) == multiset(xs)
    decreases |xs|, 0, |xs| - i
  {
    var head := Cons(xs[i], PermsOf(Remove(xs, i)));
    if q in head {
      var k :| 0 <= k < |head| && head[k] == q;
      PermsOfSound(Remove(xs, i), PermsOf(Remove(xs, i))[k]);
      assert q == [xs[i]] + PermsOf(Remove(xs, i))[k];
    } else {
      PermsFromSound(xs, i + 1, q);
    }
  }

  /** Orderings starting with `xs[i]` are listed from any earlier start on. */
  lemma {:induction false} PermsFromIncludes(xs: seq<nat>, j: nat, i: nat, q: seq<nat>)
    requires j <= i < |xs|
    requires q in Cons(xs[i], PermsOf(Remove(xs, i)))
    ensures q in PermsFrom(xs, j)
    decreases i - j
  {
    if j < i {
      PermsFromIncludes(xs, j + 1, i, q);
    }
  }

  lemma {:induction false} PermsOfComplete(xs: seq<nat>, q: seq<nat>)
    requires multiset(q) == multiset(xs)
    ensures q in PermsOf(xs)
    decreases |xs|
  {
    assert |q| == |multiset(q)| == |xs|;
    if |xs| == 0 {
      assert q == [];
    } else {
      assert q[0] in multiset(xs);
      var i :| 0 <= i < |xs| && xs[i] == q[0];
      var rest := Remove(xs, i);
      assert q == [q[0]] + q[1..];
      assert multiset(q[1..]) == multiset(rest);
      PermsOfComplete(rest, q[1..]);
      var k :| 0 <= k < |PermsOf(rest)| && PermsOf(rest)[k] == q[1..];
      assert Cons(xs[i], PermsOf(rest))[k] == q;
      PermsFromIncludes(xs, 0, i, q);
    }
  }

  /** A one-to-one relabelling of `0 .. n-1` is exactly a rearrangement of
      `0, 1, ..., n-1`. */
  lemma PermIffMultiset(p: seq<nat>, n: nat)
    ensures IsPerm(p, n) <==> multiset(p) == multiset(Range(n))
  {
    RangeDistinctness(n);
    if IsPerm(p, n) {
      assert Elems(p) <= RangeSet(n);
      DistinctCard(p);
      RangeSetCard(n);
      SubsetCard(Elems(p), RangeSet(n));
      DistinctSameElems(p, Range(n));
    }
    if multiset(p) == multiset(Range(n)) {
      assert |p| == |multiset(p)| == n;
      forall i | 0 <= i < n ensures p[i] < n {
        assert p[i] in multiset(Range(n));
      }
      forall i, j | 0 <= i < j < |p| ensures p[i] != p[j] {
        if p[i] == p[j] {
          RepeatedMultiplicity(p, i, j);
          DistinctMultiplicity(Range(n), p[i]);
          assert false;
        }
      }
    }
  }

  lemma RangeDistinctness(n: nat)
    ensures Distinct(Range(n))
    ensures RangeSet(n) == Elems(Range(n))
  {
  }

  /** Every relabelling of `0 .. n-1`, each exactly as `IsPerm` describes. */
  function Perms(n: nat): (r: seq<seq<nat>>)
    ensures forall p :: p in r <==> IsPerm(p, n)
  {
    var r := PermsOf(Range(n));
    assert forall p :: p in r <==> IsPerm(p, n) by {
      forall p ensures p in r <==> IsPerm(p, n) {
        PermIffMultiset(p, n);
        if p in r {
          PermsOfSound(Range(n), p);
        }
        if IsPerm(p, n) {
          PermsOfComplete(Range(n), p);
        }
      }
    }
    r
  }

  /** A permutation reaches every label. */
  lemma PermCovers(p: seq<nat>, n: nat, v: nat)
    requires IsPerm(p, n) && v < n
    ensures v in p
  {
    PermIffMultiset(p, n);
    assert Range(n)[v] == v;
    assert v in multiset(Range(n));
  }

  /** The position of `v` in `p`. */
  function IndexOf(p: seq<nat>, v: nat): (i: nat)
    requires v in p
    ensures i < |p| && p[i] == v
  {
    if p[0] == v then 0 else 1 + IndexOf(p[1..], v)
  }

  /** The relabelling that undoes `p`. */
  function Inverse(p: seq<nat>, n: nat): (q: seq<nat>)
    requires IsPerm(p, n)
    ensures IsPerm(q, n)
    ensures forall i :: 0 <= i < n ==> q[p[i]] == i && p[q[i]] == i
  {
    assert forall v :: 0 <= v < n ==> v in p by {
      forall v | 0 <= v < n ensures v in p {
        PermCovers(p, n, v);
      }
    }
    var q := seq(n, v requires 0 <= v < n => IndexOf(p, v));
    assert forall i :: 0 <= i < n ==> q[p[i]] == i by {
      forall i | 0 <= i < n ensures q[p[i]] == i {
        assert p[q[p[i]]] == p[i];
      }
    }
    q
  }

  /** Relabelling by `p` and then by `q`. */
  function Compose(p: seq<nat>, q: seq<nat>, n: nat): (r: seq<nat>)
    requires IsPerm(p, n) && IsPerm(q, n)
    ensures IsPerm(r, n)
    ensures forall i :: 0 <= i < n ==> r[i] == q[p[i]]
  {
    seq(n, i requires 0 <= i < n => q[p[i]])
  }
}
