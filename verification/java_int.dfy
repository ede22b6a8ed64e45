/** Java `int` arithmetic: 32-bit two's complement values, the wrap-around of
    `+`, `-` and `*`, and the signed reading of a `bv32`. */
module JavaInt {

  const MIN_VALUE: int := -0x8000_0000
  const MAX_VALUE: int := 0x7fff_ffff

  /** A value a Java `int` can hold. */
  predicate IsInt32(x: int) {
    MIN_VALUE <= x <= MAX_VALUE
  }

  /** The Java `int` that an exact integer result wraps to. */
  function Wrap(x: int): (r: int)
    ensures IsInt32(r)
    ensures IsInt32(x) ==> r == x
    ensures (r - x) % 0x1_0000_0000 == 0
  {
    var m := x % 0x1_0000_0000;
    if m <= MAX_VALUE then m else m - 0x1_0000_0000
  }

  /** The signed value of a 32-bit pattern. */
  function Signed(b: bv32): (r: int)
    ensures MIN_VALUE <= r <= MAX_VALUE
    ensures (r < 0) == (b >= 0x8000_0000)
  {
    var n := b as int;
    assert b < 0x8000_0000 <==> n < 0x8000_0000;
    if n < 0x8000_0000 then n else n - 0x1_0000_0000
  }

  /** Java `<<`: the distance is taken modulo 32. */
  function Shl(x: bv32, d: bv32): bv32 {
    x << (d & 31)
  }

  /** Java `>>>` (logical shift right): the distance is taken modulo 32. */
  function Ushr(x: bv32, d: bv32): bv32 {
    x >> (d & 31)
  }

  /** Java `>>` (arithmetic shift right): the sign bit is copied into the
      vacated positions; the distance is taken modulo 32. */
  function Sar(x: bv32, d: bv32): bv32 {
    var s := d & 31;
    if x < 0x8000_0000 then x >> s else (x >> s) | !(0xffff_ffff >> s)
  }

  /** A pattern with exactly one bit set. */
  predicate IsPowerOfTwo(x: bv32) {
    x != 0 && x & (x - 1) == 0
  }

  /** `n |= n >>> 1; ... n |= n >>> 16`, as `tableSizeFor` and
      `highestOneBit` do it: every bit below the highest set bit
      of `n` turned on. */
  function Smear(n: bv32): bv32 {
    var n1 := n | (n >> 1);
    var n2 := n1 | (n1 >> 2);
    var n4 := n2 | (n2 >> 4);
    var n8 := n4 | (n4 >> 8);
    n8 | (n8 >> 16)
  }

  /** Two to the power `k`. */
  function Pow2(k: nat): (r: nat)
    ensures r >= 1
  {
    if k == 0 then 1 else 2 * Pow2(k - 1)
  }

  /** Powers of two grow with the exponent. */
  lemma {:induction false} Pow2Monotone(a: nat, b: nat)
    requires a <= b
    ensures Pow2(a) <= Pow2(b)
    decreases b
  {
    if a < b {
      Pow2Monotone(a, b - 1);
    }
  }
}
