/** Finite-collection facts shared by the graph modules: ranges of node
    labels, duplicate-free sequences and the cardinality lemmas the
    counting arguments rest on. */
module Collections {

  /** No element occurs twice in `s`. */
  predicate Distinct<T(==)>(s: seq<T>) {
    forall i, j :: 0 <= i < j < |s| ==> s[i] != s[j]
  }

  /** The elements of `s` as a set. */
  function Elems<T>(s: seq<T>): set<T> {
    set x | x in s
  }

  /** The labels `0, 1, ..., n-1` in increasing order (Python's `range(n)`). */
  function Range(n: nat): (r: seq<nat>)
    ensures |r| == n
    ensures forall i :: 0 <= i < n ==> r[i] == i
  {
    seq(n, i => i)
  }

  /** The labels `0 .. n-1` as a set. */
  function RangeSet(n: nat): (r: set<nat>)
    ensures forall x: nat :: x in r <==> x < n
  {
    var rs := Range(n);
    forall x: nat | x < n ensures x in Elems(rs) {
      assert rs[x] == x;
    }
    Elems(rs)
  }

  lemma RangeSetCard(n: nat)
    ensures |RangeSet(n)| == n
  {
    DistinctCard(Range(n));
  }

  /** A sequence whose values are exactly `0 .. m` takes `m + 1` distinct values. */
  lemma ValuesUpTo(s: seq<nat>, m: nat)
    requires forall x :: x in s ==> x <= m
    requires forall x: nat :: x <= m ==> x in s
    ensures |Elems(s)| == m + 1
  {
    var r := RangeSet(m + 1);
    assert Elems(s) <= r by {
      forall x | x in Elems(s) ensures x in r {
        assert x in s;
      }
    }
    assert r <= Elems(s) by {
      forall x | x in r ensures x in Elems(s) {
        assert x in s;
      }
    }
    assert Elems(s) == r;
    RangeSetCard(m + 1);
  }

  /** A duplicate-free sequence has as many distinct elements as positions. */
  lemma {:induction false} DistinctCard<T>(s: seq<T>)
    requires Distinct(s)
    ensures |Elems(s)| == |s|
  {
    if |s| > 0 {
      DistinctCard(s[1..]);
      assert Elems(s) == {s[0]} + Elems(s[1..]);
      assert s[0] !in Elems(s[1..]);
    }
  }

  /** Cardinality is monotone under inclusion, and a subset of equal size is the whole set. */
  lemma SubsetCard<T>(a: set<T>, b: set<T>)
    requires a <= b
    ensures |a| <= |b|
    ensures |a| == |b| ==> a == b
  {
    assert b == a + (b - a);
    assert a * (b - a) == {};
  }

  /** Every size up to `|s|` is the size of some subset of `s`. */
  lemma {:induction false} SubsetOfSize<T>(s: set<T>, k: nat)
    requires k <= |s|
    ensures exists e :: e <= s && |e| == k
  {
    if k == 0 {
      var e: set<T> := {};
      assert e <= s && |e| == 0;
    } else {
      var x :| x in s;
      SubsetOfSize(s - {x}, k - 1);
      var e :| e <= s - {x} && |e| == k - 1;
      assert e + {x} <= s && |e + {x}| == k;
    }
  }

  /** In a duplicate-free sequence every element occurs exactly once. */
  lemma {:induction false} DistinctMultiplicity<T>(s: seq<T>, x: T)
    requires Distinct(s)
    ensures multiset(s)[x] == if x in s then 1 else 0
  {
    if |s| > 0 {
      assert s == [s[0]] + s[1..];
      DistinctMultiplicity(s[1..], x);
      assert s[0] !in s[1..];
    }
  }

  /** An element found at two positions occurs at least twice. */
  lemma RepeatedMultiplicity<T>(s: seq<T>, i: nat, j: nat)
    requires i < j < |s| && s[i] == s[j]
    ensures multiset(s)[s[i]] >= 2
  {
    assert s == s[..i] + [s[i]] + s[i + 1..j] + [s[j]] + s[j + 1..];
  }

  /** Two duplicate-free sequences with the same elements are rearrangements of each other. */
  lemma DistinctSameElems<T>(a: seq<T>, b: seq<T>)
    requires Distinct(a) && Distinct(b) && Elems(a) == Elems(b)
    ensures multiset(a) == multiset(b)
  {
    forall x ensures multiset(a)[x] == multiset(b)[x] {
      DistinctMultiplicity(a, x);
      DistinctMultiplicity(b, x);
      assert x in a <==> x in Elems(a);
      assert x in b <==> x in Elems(b);
    }
  }

  /** `x` put in front of every sequence of `qs`. */
  function Cons<T>(x: T, qs: seq<seq<T>>): (r: seq<seq<T>>)
    ensures |r| == |qs|
    ensures forall k :: 0 <= k < |qs| ==> r[k] == [x] + qs[k]
  {
    seq(|qs|, k requires 0 <= k < |qs| => [x] + qs[k])
  }

  /** `m` is an element of `s` no larger than any other. */
  predicate IsLeast(s: set<nat>, m: nat) {
    m in s && forall x :: x in s ==> m <= x
  }

  /** Every non-empty set of labels has a least element. */
  lemma {:induction false} MinExists(s: set<nat>)
    requires s != {}
    ensures exists m :: IsLeast(s, m)
  {
    var y :| y in s;
    if s != {y} {
      MinExists(s - {y});
      var m :| IsLeast(s - {y}, m);
      var least := if y < m then y else m;
      forall x | x in s ensures least <= x {
        if x != y {
          assert x in s - {y};
        }
      }
      assert IsLeast(s, least);
    } else {
      assert IsLeast(s, y);
    }
  }

  /** The least element of a non-empty set of labels. */
  function Min(s: set<nat>): (m: nat)
    requires s != {}
    ensures m in s
  {
    MinExists(s);
    var m :| IsLeast(s, m); m
  }
}
