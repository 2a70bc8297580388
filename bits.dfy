/** Bitwise operations on non-negative integers, written out arithmetically, and the
    loop that counts set bits by clearing the lowest one. */
module Bits {

  function Pow2(k: nat): (r: nat)
    ensures r >= 1
  {
    if k == 0 then 1 else 2 * Pow2(k - 1)
  }

  /** Bit `k` of `n` is set. */
  predicate Bit(n: nat, k: nat) {
    if k == 0 then n % 2 == 1 else Bit(n / 2, k - 1)
  }

  /** Bitwise and (`&` of two non-negative ints). */
  function And(a: nat, b: nat): nat {
    if a == 0 || b == 0 then 0
    else 2 * And(a / 2, b / 2) + (if a % 2 == 1 && b % 2 == 1 then 1 else 0)
  }

  /** Bitwise or (`|` of two non-negative ints). */
  function Or(a: nat, b: nat): nat
    decreases a + b
  {
    if a == 0 && b == 0 then 0
    else 2 * Or(a / 2, b / 2) + (if a % 2 == 1 || b % 2 == 1 then 1 else 0)
  }

  /** The number of set bits of `n`. */
  function BitCount(n: nat): nat {
    if n == 0 then 0 else n % 2 + BitCount(n / 2)
  }

  /** The value of the lowest set bit of `n`. */
  function LowBit(n: nat): nat
    requires n > 0
  {
    if n % 2 == 1 then 1 else 2 * LowBit(n / 2)
  }

  /** The number of set bits of `n` among bits `lo` .. `hi - 1`. */
  function CountBits(n: nat, lo: nat, hi: nat): nat
    decreases hi - lo
  {
    if lo >= hi then 0 else (if Bit(n, lo) then 1 else 0) + CountBits(n, lo + 1, hi)
  }

  /** `popcount`: repeatedly clear the lowest set bit, counting the steps. */
  method Popcount(n: int) returns (count: int)
    requires n >= 0
    ensures count == BitCount(n)
  {
    count := 0;
    var m: nat := n;
    while m != 0
      invariant count + BitCount(m) == BitCount(n)
      decreases m
    {
      count := count + 1;
      ClearLowestBit(m);
      m := And(m, m - 1);
    }
  }

  lemma {:induction false} AndSelf(a: nat)
    ensures And(a, a) == a
  {
    if a != 0 {
      AndSelf(a / 2);
    }
  }

  lemma BitCountDouble(a: nat)
    ensures BitCount(2 * a) == BitCount(a)
  {
  }

  /** `n & (n - 1)` is `n` with its lowest set bit cleared, so it has one set bit fewer. */
  lemma {:induction false} ClearLowestBit(n: nat)
    requires n > 0
    ensures And(n, n - 1) == n - LowBit(n)
    ensures 1 <= LowBit(n) <= n
    ensures BitCount(And(n, n - 1)) + 1 == BitCount(n)
  {
    if n % 2 == 1 {
      if n > 1 {
        AndSelf(n / 2);
        assert (n - 1) / 2 == n / 2;
        assert And(n, n - 1) == 2 * (n / 2);
        BitCountDouble(n / 2);
      }
    } else {
      var m := n / 2;
      ClearLowestBit(m);
      assert (n - 1) / 2 == m - 1;
      assert And(n, n - 1) == 2 * And(m, m - 1);
      BitCountDouble(And(m, m - 1));
    }
  }

  lemma {:induction false} OrHalf(a: nat, b: nat)
    ensures Or(a, b) / 2 == Or(a / 2, b / 2)
    ensures Or(a, b) % 2 == (if a % 2 == 1 || b % 2 == 1 then 1 else 0)
  {
  }

  lemma {:induction false} AndHalf(a: nat, b: nat)
    ensures And(a, b) / 2 == And(a / 2, b / 2)
    ensures And(a, b) % 2 == (if a % 2 == 1 && b % 2 == 1 then 1 else 0)
  {
    if a == 0 || b == 0 {
      AndZero(a / 2, b / 2);
    }
  }

  lemma {:induction false} AndZero(a: nat, b: nat)
    requires a == 0 || b == 0
    ensures And(a, b) == 0
  {
  }

  /** A bit of `a | b` is set exactly when it is set in `a` or in `b`. */
  lemma {:induction false} BitOr(a: nat, b: nat, k: nat)
    ensures Bit(Or(a, b), k) <==> Bit(a, k) || Bit(b, k)
  {
    OrHalf(a, b);
    if k > 0 {
      BitOr(a / 2, b / 2, k - 1);
    }
  }

  lemma {:induction false} BitZero(k: nat)
    ensures !Bit(0, k)
  {
    if k > 0 {
      BitZero(k - 1);
    }
  }

  /** Two numbers with the same bits are equal. */
  lemma {:induction false} BitsDetermine(a: nat, b: nat)
    requires forall k: nat :: Bit(a, k) == Bit(b, k)
    ensures a == b
    decreases a + b
  {
    assert Bit(a, 0) == Bit(b, 0);
    if a != 0 || b != 0 {
      forall k: nat
        ensures Bit(a / 2, k) == Bit(b / 2, k)
      {
        assert Bit(a, k + 1) == Bit(b, k + 1);
      }
      BitsDetermine(a / 2, b / 2);
    }
  }

  /** Or is commutative. */
  lemma OrComm(a: nat, b: nat)
    ensures Or(a, b) == Or(b, a)
  {
    forall k: nat
      ensures Bit(Or(a, b), k) == Bit(Or(b, a), k)
    {
      BitOr(a, b, k);
      BitOr(b, a, k);
    }
    BitsDetermine(Or(a, b), Or(b, a));
  }

  /** Or of two `w`-bit numbers is a `w`-bit number. */
  lemma {:induction false} OrBound(a: nat, b: nat, w: nat)
    requires a < Pow2(w) && b < Pow2(w)
    ensures Or(a, b) < Pow2(w)
  {
    if w == 0 {
      assert a == 0 && b == 0;
    } else if a != 0 || b != 0 {
      OrBound(a / 2, b / 2, w - 1);
    }
  }

  lemma {:induction false} CountBitsShift(n: nat, lo: nat, hi: nat)
    ensures CountBits(n, lo + 1, hi + 1) == CountBits(n / 2, lo, hi)
    decreases hi - lo
  {
    if lo < hi {
      CountBitsShift(n, lo + 1, hi);
    }
  }

  /** Bits 0 .. k of `n` are its lowest bit and bits 0 .. k - 1 of `n / 2`. */
  lemma CountBitsLowest(n: nat, k: nat)
    ensures CountBits(n, 0, k + 1) == n % 2 + CountBits(n / 2, 0, k)
  {
    CountBitsShift(n, 0, k);
  }

  /** The popcount of a `w`-bit number counts its bits 0 .. w - 1. */
  lemma {:induction false} BitCountBelow(n: nat, w: nat)
    requires n < Pow2(w)
    ensures BitCount(n) == CountBits(n, 0, w)
  {
    if w == 0 {
      assert n == 0;
    } else {
      BitCountBelow(n / 2, w - 1);
      CountBitsShift(n, 0, w - 1);
    }
  }

  lemma {:induction false} CountBitsOfZero(lo: nat, hi: nat)
    ensures CountBits(0, lo, hi) == 0
    decreases hi - lo
  {
    if lo < hi {
      BitZero(lo);
      CountBitsOfZero(lo + 1, hi);
    }
  }

  /** Masking with `2^w - 1` keeps exactly bits 0 .. w - 1. */
  lemma {:induction false} LowMaskCount(n: nat, w: nat)
    ensures BitCount(And(n, Pow2(w) - 1)) == CountBits(n, 0, w)
  {
    if w == 0 {
    } else if n == 0 {
      CountBitsOfZero(0, w);
    } else {
      var m := And(n, Pow2(w) - 1);
      LowMaskHalf(w);
      AndHalf(n, Pow2(w) - 1);
      assert m / 2 == And(n / 2, Pow2(w - 1) - 1) && m % 2 == n % 2;
      LowMaskCount(n / 2, w - 1);
      CountBitsLowest(n, w - 1);
      assert BitCount(m) == m % 2 + BitCount(m / 2);
    }
  }

  /** `2^w - 1` for w > 0 is odd, and halving it gives `2^(w-1) - 1`. */
  lemma LowMaskHalf(w: nat)
    requires w > 0
    ensures (Pow2(w) - 1) / 2 == Pow2(w - 1) - 1 && (Pow2(w) - 1) % 2 == 1
  {
  }

  /** Setting more bits never lowers the number of set bits in a range. */
  lemma {:induction false} CountBitsOrMono(a: nat, b: nat, lo: nat, hi: nat)
    ensures CountBits(a, lo, hi) <= CountBits(Or(a, b), lo, hi)
    decreases hi - lo
  {
    if lo < hi {
      BitOr(a, b, lo);
      CountBitsOrMono(a, b, lo + 1, hi);
    }
  }
}
