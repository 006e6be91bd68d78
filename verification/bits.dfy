/** Python's `^` on non-negative integers, written out bit by bit, and the
    bound on keys drawn by `random.getrandbits(L)`: every such key is below
    `2^L`. */
module Bits {

  /** `2^k`. */
  function Pow2(k: nat): (r: nat)
    ensures r >= 1
  {
    if k == 0 then 1 else 2 * Pow2(k - 1)
  }

  /** Bitwise exclusive or of two non-negative integers: the lowest bits
      are combined by parity and the remaining bits recursively. */
  function Xor(a: nat, b: nat): nat
    decreases a + b
  {
    if a == 0 && b == 0 then 0
    else 2 * Xor(a / 2, b / 2) + (a % 2 + b % 2) % 2
  }

  /** The lowest bit of `a ^ b` is the parity of the lowest bits, and the
      remaining bits are the exclusive or of the remaining bits. */
  lemma XorBits(a: nat, b: nat)
    ensures Xor(a, b) % 2 == (a % 2 + b % 2) % 2
    ensures Xor(a, b) / 2 == Xor(a / 2, b / 2)
  {
  }

  /** Bit `i` of `x`. */
  function Bit(x: nat, i: nat): nat {
    (x / Pow2(i)) % 2
  }

  /** Python's `^` bit by bit: bit `i` of `a ^ b` is set exactly when
      bit `i` is set in one of `a` and `b` but not in both. */
  lemma {:induction false} XorBitAt(a: nat, b: nat, i: nat)
    ensures Bit(Xor(a, b), i) == (Bit(a, i) + Bit(b, i)) % 2
  {
    XorBits(a, b);
    if i == 0 {
      BitZero(Xor(a, b));
      BitZero(a);
      BitZero(b);
    } else {
      XorBitAt(a / 2, b / 2, i - 1);
      ShiftDown(Xor(a, b), i);
      ShiftDown(a, i);
      ShiftDown(b, i);
    }
  }

  /** Bit 0 of `x` is its parity. */
  lemma BitZero(x: nat)
    ensures Bit(x, 0) == x % 2
  {
    assert Pow2(0) == 1;
  }

  /** Bit `i` of `x` is bit `i - 1` of `x / 2`. */
  lemma ShiftDown(x: nat, i: nat)
    requires i > 0
    ensures Bit(x, i) == Bit(x / 2, i - 1)
  {
    var p := Pow2(i - 1);
    var h := x / 2;
    var q := h / p;
    var r := h % p;
    assert h == p * q + r;
    assert x == 2 * h + x % 2;
    assert x == (2 * p) * q + (2 * r + x % 2) by {
      assert 2 * (p * q) == (2 * p) * q;
    }
    DivUnique(x, 2 * p, q, 2 * r + x % 2);
  }

  /** The quotient is the only `q` with `x == d * q + r` and `0 <= r < d`. */
  lemma DivUnique(x: nat, d: nat, q: nat, r: nat)
    requires d > 0 && x == d * q + r && r < d
    ensures x / d == q
  {
    var q0 := x / d;
    assert d * q0 + x % d == d * q + r;
    if q0 > q {
      MulStrict(d, q0, q);
      assert false;
    } else if q0 < q {
      MulStrict(d, q, q0);
      assert false;
    }
  }

  /** A larger multiple of `d` exceeds a smaller one by at least `d`. */
  lemma {:induction false} MulStrict(d: nat, a: nat, b: nat)
    requires a > b
    ensures d * a >= d * b + d
    decreases a - b
  {
    if a > b + 1 {
      MulStrict(d, a - 1, b);
      assert d * a == d * (a - 1) + d;
    } else {
      assert d * a == d * b + d;
    }
  }

  /** Exclusive or keeps values of `k` bits within `k` bits. */
  lemma {:induction false} XorBound(a: nat, b: nat, k: nat)
    requires a < Pow2(k) && b < Pow2(k)
    ensures Xor(a, b) < Pow2(k)
  {
    if k > 0 && !(a == 0 && b == 0) {
      XorBound(a / 2, b / 2, k - 1);
    }
  }

  lemma {:induction false} XorZero(a: nat)
    ensures Xor(a, 0) == a && Xor(0, a) == a
  {
    if a > 0 {
      XorZero(a / 2);
    }
  }

  lemma {:induction false} XorSelf(a: nat)
    ensures Xor(a, a) == 0
  {
    if a > 0 {
      XorSelf(a / 2);
    }
  }

  lemma {:induction false} XorComm(a: nat, b: nat)
    ensures Xor(a, b) == Xor(b, a)
    decreases a + b
  {
    if !(a == 0 && b == 0) {
      XorComm(a / 2, b / 2);
    }
  }

  /** The bit-level step of associativity: numbers whose lowest bits are
      combined by parity and whose upper bits agree are equal. */
  lemma AssocStep(a: nat, b: nat, c: nat, ab: nat, bc: nat, lhs: nat, rhs: nat)
    requires ab % 2 == (a % 2 + b % 2) % 2
    requires bc % 2 == (b % 2 + c % 2) % 2
    requires lhs % 2 == (ab % 2 + c % 2) % 2
    requires rhs % 2 == (a % 2 + bc % 2) % 2
    requires lhs / 2 == rhs / 2
    ensures lhs == rhs
  {
  }

  lemma {:induction false} XorAssoc(a: nat, b: nat, c: nat)
    ensures Xor(Xor(a, b), c) == Xor(a, Xor(b, c))
    decreases a + b + c
  {
    if !(a == 0 && b == 0 && c == 0) {
      var ab, bc := Xor(a, b), Xor(b, c);
      XorBits(a, b);
      XorBits(b, c);
      XorBits(ab, c);
      XorBits(a, bc);
      XorAssoc(a / 2, b / 2, c / 2);
      AssocStep(a, b, c, ab, bc, Xor(ab, c), Xor(a, bc));
    }
  }
}
