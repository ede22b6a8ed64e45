/** The 32-bit arithmetic of `MyHashMap`: the spreading of hash codes and
    `tableSizeFor`. A hash is the unsigned reading of its 32-bit pattern,
    a number below `2^32`; `tableSizeFor` works on the pattern itself. */
module HashBits {
  import opened Wrappers
  import opened NatBits
  import opened JavaInt

  /** A Java `int` of the bit operations below is its 32-bit pattern; the
      sign is the top bit. */
  predicate Negative(x: bv32) {
    x >= 0x8000_0000
  }

  const DEFAULT_INITIAL_CAPACITY: bv32 := 16
  const MAXIMUM_CAPACITY: bv32 := 0x4000_0000
  const DEFAULT_LOAD_FACTOR: real := 0.75
  const TREEIFY_THRESHOLD: int := 8

  // ---------------------------------------------------------------------
  // hash

  /** The number of distinct Java `int` patterns. */
  const WORD: nat := 0x1_0000_0000

  /** `2^32` by doubling is `WORD`. */
  lemma Pow2Of32()
    ensures Pow2(32) == WORD && Pow2(16) == 0x1_0000
  {
    Pow2Add(8, 8);
    Pow2Add(16, 16);
  }

  /** `h ^ (h >>> 16)` on the unsigned reading `h` of a hash code. */
  function Spread(h: nat): (r: nat)
    requires h < WORD
    ensures r < WORD
    ensures Shr(r, 16) == Shr(h, 16)
    ensures LowBits(r, 16) == BitXor(LowBits(h, 16), Shr(h, 16))
  {
    var hi := Shr(h, 16);
    Pow2Of32();
    SpreadHalves(h);
    BitXor(h, hi)
  }

  /** The high half of `h ^ (h >>> 16)` is the high half of `h`, and its low
      half is the two halves of `h` combined by `^`. */
  lemma SpreadHalves(h: nat)
    requires h < Pow2(32)
    ensures BitXor(h, Shr(h, 16)) < Pow2(32)
    ensures Shr(BitXor(h, Shr(h, 16)), 16) == Shr(h, 16)
    ensures LowBits(BitXor(h, Shr(h, 16)), 16) == BitXor(LowBits(h, 16), Shr(h, 16))
  {
    var hi := Shr(h, 16);
    ShrBound(h, 16, 16);
    Pow2Monotone(16, 32);
    XorBound(h, hi, 32);
    XorShr(h, hi, 16);
    ShrShr(h, 16, 16);
    ShrSmall(h, 32);
    XorZero(hi);
    XorLowBits(h, hi, 16);
    LowBitsSmall(hi, 16);
  }

  /** `hash(key)`: 0 for a null key, else the spread hash code, read
      unsigned. The key's `hashCode` is the parameter `hashCode`. */
  function Hash<K>(hashCode: K -> bv32, key: Option<K>): (r: nat)
    ensures r < WORD
    ensures key.None? ==> r == 0
    ensures key.Some? ==> Shr(r, 16) == Shr(hashCode(key.value) as int, 16)
    ensures key.Some? ==>
      LowBits(r, 16) == BitXor(LowBits(hashCode(key.value) as int, 16), Shr(hashCode(key.value) as int, 16))
  {
    if key.None? then 0 else Spread(hashCode(key.value) as int)
  }

  /** Spreading twice gives the hash code back. */
  lemma SpreadInvolution(h: nat)
    requires h < WORD
    ensures Spread(Spread(h)) == h
  {
    XorCancel(h, Shr(h, 16));
  }

  /** Different hash codes give different hashes. */
  lemma SpreadInjective(a: nat, b: nat)
    requires a < WORD && b < WORD
    ensures Spread(a) == Spread(b) ==> a == b
  {
    SpreadInvolution(a);
    SpreadInvolution(b);
  }

  // ---------------------------------------------------------------------
  // tableSizeFor

  /** Below `2^30` the smear is one less than a power of two, at least `n`,
      and its top bit is the top bit of `n`. */
  lemma SmearBelow(n: bv32)
    ensures n < 0x4000_0000 ==> n <= Smear(n) < 0x4000_0000 && (Smear(n) + 1) & Smear(n) == 0
    ensures 0 < n < 0x4000_0000 ==> Smear(n) >> 1 < n
  {
  }

  /** From `2^30` up the smear fills every bit below the sign, or all 32. */
  lemma SmearHigh(n: bv32)
    ensures Negative(n) ==> Smear(n) == 0xffff_ffff
    ensures 0x4000_0000 <= n < 0x8000_0000 ==> Smear(n) == 0x7fff_ffff
  {
  }

  /** `tableSizeFor(cap)`: smear `cap - 1` (wrapping at 32 bits), then 1 if
      the result is negative, `MAXIMUM_CAPACITY` if it is at least that,
      else one more than it. Non-positive capacities other than
      `Integer.MIN_VALUE` give 1; `MIN_VALUE - 1` wraps to `MAX_VALUE`, so
      `MIN_VALUE` gives the cap, like every capacity above the cap. */
  function TableSizeFor(cap: bv32): (r: bv32)
    ensures cap == 0 || cap > 0x8000_0000 ==> r == 1
    ensures cap == 0x8000_0000 ==> r == MAXIMUM_CAPACITY
    ensures MAXIMUM_CAPACITY < cap < 0x8000_0000 ==> r == MAXIMUM_CAPACITY
    ensures 1 <= r <= MAXIMUM_CAPACITY && IsPowerOfTwo(r)
  {
    var n := Smear(cap - 1);
    SmearHigh(cap - 1);
    SmearBelow(cap - 1);
    if Negative(n) then 1
    else if n >= MAXIMUM_CAPACITY then MAXIMUM_CAPACITY
    else n + 1
  }

  /** Of two powers of two, the smaller is at most half the larger. */
  lemma PowerOfTwoBelow(p: bv32, r: bv32)
    requires IsPowerOfTwo(p) && IsPowerOfTwo(r) && p < r
    ensures p <= r >> 1
  {
  }

  /** For a capacity from 1 to `MAXIMUM_CAPACITY`, `tableSizeFor` is the
      least power of two that is at least the capacity. */
  lemma TableSizeForLeastPowerOfTwo(cap: bv32)
    ensures 1 <= cap <= MAXIMUM_CAPACITY ==> cap <= TableSizeFor(cap)
    ensures 1 <= cap <= MAXIMUM_CAPACITY ==>
      forall p :: IsPowerOfTwo(p) && cap <= p ==> TableSizeFor(cap) <= p
  {
    if 1 <= cap <= MAXIMUM_CAPACITY {
      SmearBelow(cap - 1);
      forall p | IsPowerOfTwo(p) && cap <= p
        ensures TableSizeFor(cap) <= p
      {
        if p < TableSizeFor(cap) {
          PowerOfTwoBelow(p, TableSizeFor(cap));
        }
      }
    }
  }
}
