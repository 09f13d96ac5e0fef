/** Python's integer bit operations on non-negative integers, as the BITM
    codec uses them: `1 << k`, `(v >> k) & 1` and `v | m`.
    Everything is written with division and multiplication by 2 so that the
    solver stays in linear arithmetic. */
module Bits {

  /** `1 << k`. */
  function Pow2(k: nat): (p: nat)
    ensures p >= 1
  {
    if k == 0 then 1 else 2 * Pow2(k - 1)
  }

  /** `(a >> k) & 1 == 1`: bit `k` of `a`, least significant bit first.
      A number with bit `k` set is at least `1 << k`. */
  predicate TestBit(a: nat, k: nat)
    ensures TestBit(a, k) ==> Pow2(k) <= a
  {
    if k == 0 then a % 2 == 1 else TestBit(a / 2, k - 1)
  }

  /** `a | b` on non-negative integers, built bit by bit from the least
      significant end. It lies between the larger operand and the sum. */
  function Or(a: nat, b: nat): (r: nat)
    ensures a <= r && b <= r && r <= a + b
    decreases a + b
  {
    if a == 0 && b == 0 then 0
    else 2 * Or(a / 2, b / 2) + (if a % 2 == 1 || b % 2 == 1 then 1 else 0)
  }

  lemma Pow2Values()
    ensures Pow2(8) == 0x100 && Pow2(32) == 0x1_0000_0000
  {
    assert Pow2(8) == 0x100;
    assert Pow2(16) == 0x1_0000;
    assert Pow2(24) == 0x100_0000;
    assert Pow2(32) == 0x1_0000_0000;
  }

  lemma {:induction false} Pow2Increasing(m: nat, n: nat)
    requires m < n
    ensures Pow2(m) < Pow2(n)
  {
    if m + 1 < n {
      Pow2Increasing(m, n - 1);
    }
  }

  /** The recursive `TestBit` is the shift-and-mask of the source:
      `(a >> k) & 1` is `(a / 2^k) % 2`. */
  lemma {:induction false} TestBitIsShiftAndMask(a: nat, k: nat)
    ensures TestBit(a, k) == ((a / Pow2(k)) % 2 == 1)
  {
    if k > 0 {
      TestBitIsShiftAndMask(a / 2, k - 1);
      DivHalf(a, Pow2(k - 1));
    }
  }

  /** `(a / 2) / p == a / (2 * p)`. */
  lemma DivHalf(a: nat, p: nat)
    requires p >= 1
    ensures (a / 2) / p == a / (2 * p)
  {
    var q, r := a / (2 * p), a % (2 * p);
    assert a == 2 * p * q + r;
    assert a / 2 == p * q + r / 2;
    assert r / 2 < p;
    DivUnique(a / 2, p, q, r / 2);
  }

  lemma DivUnique(a: nat, p: nat, q: nat, r: nat)
    requires p >= 1 && r < p && a == p * q + r
    ensures a / p == q
  {
    var q', r' := a / p, a % p;
    assert p * q' + r' == p * q + r;
    if q' < q {
      MulMonotone(p, q' + 1, q);
    } else if q' > q {
      MulMonotone(p, q + 1, q');
    }
  }

  lemma MulMonotone(p: nat, m: nat, n: nat)
    requires m <= n
    ensures p * m <= p * n
  {
  }

  lemma {:induction false} ZeroHasNoBits(k: nat)
    ensures !TestBit(0, k)
  {
    if k > 0 {
      ZeroHasNoBits(k - 1);
    }
  }

  /** `1 << s` has exactly bit `s` set. */
  lemma {:induction false} Pow2Bits(s: nat, t: nat)
    ensures TestBit(Pow2(s), t) <==> s == t
  {
    if s == 0 {
      if t > 0 {
        ZeroHasNoBits(t - 1);
      }
    } else if t > 0 {
      Pow2Bits(s - 1, t - 1);
    }
  }

  /** Bit `k` of `a | b` is set exactly when it is set in `a` or in `b`. */
  lemma {:induction false} OrBits(a: nat, b: nat, k: nat)
    ensures TestBit(Or(a, b), k) <==> TestBit(a, k) || TestBit(b, k)
    decreases a + b
  {
    if a == 0 && b == 0 {
      ZeroHasNoBits(k);
    } else if k > 0 {
      OrBits(a / 2, b / 2, k - 1);
    }
  }

  /** `a | b` stays below `2^n` when both operands do: the result of `|=`
      on a 32-bit array item still fits the item. */
  lemma {:induction false} OrBound(a: nat, b: nat, n: nat)
    requires a < Pow2(n) && b < Pow2(n)
    ensures Or(a, b) < Pow2(n)
    decreases a + b
  {
    if (a != 0 || b != 0) && n > 0 {
      OrBound(a / 2, b / 2, n - 1);
    }
  }

  /** A number below `2^n` has no bit at or above position `n`. */
  lemma {:induction false} BitsBelow(a: nat, n: nat, t: nat)
    requires a < Pow2(n) && n <= t
    ensures !TestBit(a, t)
  {
    if n == 0 {
      ZeroHasNoBits(t);
    } else {
      BitsBelow(a / 2, n - 1, t - 1);
    }
  }

  /** Conversely, a number with no bit at or above `n` is below `2^n`. */
  lemma {:induction false} BoundFromBits(a: nat, n: nat)
    requires forall t: nat | n <= t :: !TestBit(a, t)
    ensures a < Pow2(n)
  {
    if n == 0 {
      forall t: nat ensures TestBit(a, t) == TestBit(0, t) {
        ZeroHasNoBits(t);
      }
      BitsExtensional(a, 0);
    } else {
      forall t: nat | n - 1 <= t
        ensures !TestBit(a / 2, t)
      {
        assert !TestBit(a, t + 1);
      }
      BoundFromBits(a / 2, n - 1);
    }
  }

  /** Two numbers with the same bits are equal. */
  lemma {:induction false} BitsExtensional(a: nat, b: nat)
    requires forall t: nat :: TestBit(a, t) == TestBit(b, t)
    ensures a == b
    decreases a + b
  {
    if a != 0 || b != 0 {
      assert TestBit(a, 0) == TestBit(b, 0);
      forall t: nat ensures TestBit(a / 2, t) == TestBit(b / 2, t) {
        assert TestBit(a, t + 1) == TestBit(b, t + 1);
      }
      BitsExtensional(a / 2, b / 2);
    }
  }

  /** `2^n - 1` has exactly the bits below `n`. */
  lemma {:induction false} AllOnesBits(n: nat, t: nat)
    ensures TestBit(Pow2(n) - 1, t) <==> t < n
  {
    if n == 0 {
      ZeroHasNoBits(t);
    } else if t > 0 {
      AllOnesBits(n - 1, t - 1);
    }
  }
}
