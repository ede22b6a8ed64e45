/** Bitwise operations on the non-negative numbers that Java `int` patterns
    stand for when read unsigned, defined bit by bit from the lowest. Only
    halving and doubling appear, so every proof stays within linear
    arithmetic. */
module NatBits {
  import opened JavaInt

  /** `a >>> k`: the bits of `a` from position `k` up. */
  function Shr(a: nat, k: nat): nat {
    if k == 0 then a else Shr(a / 2, k - 1)
  }

  /** The low `k` bits of `a`. */
  function LowBits(a: nat, k: nat): nat {
    if k == 0 then 0 else 2 * LowBits(a / 2, k - 1) + a % 2
  }

  /** Exponents add. */
  lemma {:induction false} Pow2Add(j: nat, k: nat)
    ensures Pow2(j + k) == Pow2(j) * Pow2(k)
    decreases j
  {
    if j > 0 {
      Pow2Add(j - 1, k);
      assert Pow2(j + k) == 2 * Pow2(j - 1 + k);
    }
  }

  /** A number is its high bits above its low bits. */
  lemma {:induction false} Split(a: nat, k: nat)
    ensures a == Shr(a, k) * Pow2(k) + LowBits(a, k)
    ensures LowBits(a, k) < Pow2(k)
    decreases k
  {
    if k > 0 {
      Split(a / 2, k - 1);
      assert Shr(a / 2, k - 1) * (2 * Pow2(k - 1)) == 2 * (Shr(a / 2, k - 1) * Pow2(k - 1));
    }
  }

  /** Below `2^k` nothing is left from position `k` up. */
  lemma {:induction false} ShrSmall(a: nat, k: nat)
    requires a < Pow2(k)
    ensures Shr(a, k) == 0
    decreases k
  {
    if k > 0 {
      ShrSmall(a / 2, k - 1);
    }
  }

  /** Shifting by `j` and then by `k` shifts by `j + k`. */
  lemma {:induction false} ShrShr(a: nat, j: nat, k: nat)
    ensures Shr(Shr(a, j), k) == Shr(a, j + k)
    decreases j
  {
    if j > 0 {
      ShrShr(a / 2, j - 1, k);
    }
  }

  /** A number below `2^(j + k)` shifted right by `j` is below `2^k`. */
  lemma {:induction false} ShrBound(a: nat, j: nat, k: nat)
    requires a < Pow2(j + k)
    ensures Shr(a, j) < Pow2(k)
    decreases j
  {
    if j > 0 {
      assert Pow2(j + k) == 2 * Pow2(j - 1 + k);
      ShrBound(a / 2, j - 1, k);
    }
  }

  /** The low `k` bits are the remainder modulo `2^k`. */
  lemma LowBitsIsRemainder(a: nat, k: nat)
    ensures LowBits(a, k) == a % Pow2(k)
  {
    Split(a, k);
    DivModUnique(a, Pow2(k), Shr(a, k), LowBits(a, k));
  }

  /** The high bits are the quotient by `2^k`. */
  lemma ShrIsQuotient(a: nat, k: nat)
    ensures Shr(a, k) == a / Pow2(k)
  {
    Split(a, k);
    DivModUnique(a, Pow2(k), Shr(a, k), LowBits(a, k));
  }

  /** Quotient and remainder are the only pair that rebuilds `x`. */
  lemma DivModUnique(x: int, d: int, q: int, r: int)
    requires d > 0 && x == q * d + r && 0 <= r < d
    ensures x / d == q && x % d == r
  {
    var t := q - x / d;
    assert d * t == x % d - r;
    if t >= 1 {
      MulAtLeast(d, t);
    } else if t <= -1 {
      MulAtLeast(d, -t);
    }
  }

  /** A positive multiple of `d` is at least `d`. */
  lemma MulAtLeast(d: int, t: int)
    requires d > 0 && t >= 1
    ensures d * t >= d
  {
    assert d * t == d * (t - 1) + d;
  }

  /** A number below `2^k` is its own low `k` bits. */
  lemma LowBitsSmall(a: nat, k: nat)
    requires a < Pow2(k)
    ensures LowBits(a, k) == a
  {
    Split(a, k);
    ShrSmall(a, k);
  }

  // ---------------------------------------------------------------------
  // xor

  /** `a ^ b`, bit by bit. */
  function BitXor(a: nat, b: nat): nat
    decreases a + b
  {
    if a == 0 && b == 0 then 0
    else 2 * BitXor(a / 2, b / 2) + (if a % 2 != b % 2 then 1 else 0)
  }

  /** The lowest bit and the rest, whether or not both are zero. */
  lemma XorStep(a: nat, b: nat)
    ensures BitXor(a, b) == 2 * BitXor(a / 2, b / 2) + (if a % 2 != b % 2 then 1 else 0)
  {
  }

  /** Zero is the identity of `^`. */
  lemma {:induction false} XorZero(a: nat)
    ensures BitXor(a, 0) == a
    decreases a
  {
    if a > 0 {
      XorZero(a / 2);
    }
  }

  /** `(a ^ b) ^ b == a`. */
  lemma {:induction false} XorCancel(a: nat, b: nat)
    ensures BitXor(BitXor(a, b), b) == a
    decreases a + b
  {
    if a != 0 || b != 0 {
      XorStep(BitXor(a, b), b);
      XorCancel(a / 2, b / 2);
    }
  }

  /** Two numbers below `2^k` have their `^` below `2^k`. */
  lemma {:induction false} XorBound(a: nat, b: nat, k: nat)
    requires a < Pow2(k) && b < Pow2(k)
    ensures BitXor(a, b) < Pow2(k)
    decreases k
  {
    if k > 0 && (a != 0 || b != 0) {
      XorBound(a / 2, b / 2, k - 1);
    }
  }

  /** Shifting right commutes with `^`. */
  lemma {:induction false} XorShr(a: nat, b: nat, k: nat)
    ensures Shr(BitXor(a, b), k) == BitXor(Shr(a, k), Shr(b, k))
    decreases k
  {
    if k > 0 {
      XorStep(a, b);
      XorShr(a / 2, b / 2, k - 1);
    }
  }

  /** Keeping the low bits commutes with `^`. */
  lemma {:induction false} XorLowBits(a: nat, b: nat, k: nat)
    ensures LowBits(BitXor(a, b), k) == BitXor(LowBits(a, k), LowBits(b, k))
    decreases k
  {
    if k > 0 {
      var x, la, lb := BitXor(a, b), LowBits(a, k), LowBits(b, k);
      XorStep(a, b);
      assert x / 2 == BitXor(a / 2, b / 2) && x % 2 == (if a % 2 != b % 2 then 1 else 0);
      assert la / 2 == LowBits(a / 2, k - 1) && la % 2 == a % 2;
      assert lb / 2 == LowBits(b / 2, k - 1) && lb % 2 == b % 2;
      XorLowBits(a / 2, b / 2, k - 1);
      XorStep(la, lb);
    }
  }

  // ---------------------------------------------------------------------
  // and

  /** `a & b`, bit by bit; never more than either operand. */
  function BitAnd(a: nat, b: nat): (r: nat)
    ensures r <= a && r <= b
  {
    if a == 0 || b == 0 then 0
    else 2 * BitAnd(a / 2, b / 2) + (if a % 2 == 1 && b % 2 == 1 then 1 else 0)
  }

  /** Masking with `2^k - 1` keeps the low `k` bits. */
  lemma {:induction false} AndLowBits(a: nat, k: nat)
    ensures BitAnd(a, Pow2(k) - 1) == LowBits(a, k)
    decreases k
  {
    if k > 0 && a > 0 {
      AndLowBits(a / 2, k - 1);
    } else if k > 0 {
      LowBitsZero(k);
    }
  }

  /** Zero has no bits. */
  lemma {:induction false} LowBitsZero(k: nat)
    ensures LowBits(0, k) == 0
    decreases k
  {
    if k > 0 {
      LowBitsZero(k - 1);
    }
  }
}
