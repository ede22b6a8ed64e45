/** The bit operations of `MyInteger` on Java `int` values, each value taken
    as its 32-bit two's complement pattern: `x < 0x8000_0000` is a
    non-negative int, the rest are negative. Counts (leading zeros, trailing
    zeros, set bits) are returned as patterns of small non-negative ints. */
module IntegerBits {
  import opened JavaInt

  // ---------------------------------------------------------------------
  // Highest and lowest set bit

  /** `highestOneBit`: copy the top set bit into every lower position with
      arithmetic shifts, then subtract the logical half, which leaves the
      top bit alone. Its meaning is stated by `HighestOneBitIsTop`. */
  function HighestOneBit(i: bv32): bv32 {
    var i5 := SignedSmear(i);
    i5 - Ushr(i5, 1)
  }

  /** The five `i |= (i >> k)` steps of `highestOneBit`, with Java's
      arithmetic `>>`; `Smear` is the same with logical shifts. */
  function SignedSmear(i: bv32): bv32 {
    var i1 := i | Sar(i, 1);
    var i2 := i1 | Sar(i1, 2);
    var i3 := i2 | Sar(i2, 4);
    var i4 := i3 | Sar(i3, 8);
    i4 | Sar(i4, 16)
  }

  /** `r` is the top set bit of `i`: a single bit, set in `i`, with
      nothing of `i` at or above the next position. */
  predicate IsTopBit(i: bv32, r: bv32) {
    IsPowerOfTwo(r) && i & r == r && i >> 1 < r
  }

  /** For a negative `i` the arithmetic shifts fill every position, so the
      pattern is all ones; otherwise they agree with the logical ones. */
  lemma SignedSmearIs(i: bv32)
    ensures SignedSmear(i) == if i < 0x8000_0000 then Smear(i) else 0xffff_ffff
  {
  }

  lemma TopIsSetInSmear(n: bv32)
    ensures n & (Smear(n) - (Smear(n) >> 1)) == Smear(n) - (Smear(n) >> 1)
  {
  }

  lemma HighestOneBitOfNegative(i: bv32)
    requires 0x8000_0000 <= i
    ensures HighestOneBit(i) == 0x8000_0000
  {
  }

  lemma HighestOneBitOfNonNegative(i: bv32)
    requires i < 0x8000_0000
    ensures HighestOneBit(i) == Smear(i) - (Smear(i) >> 1)
  {
    SignedSmearIs(i);
  }

  lemma HighestOneBitIsSet(i: bv32)
    ensures i & HighestOneBit(i) == HighestOneBit(i)
  {
    if i < 0x8000_0000 {
      HighestOneBitOfNonNegative(i);
      TopIsSetInSmear(i);
    } else {
      HighestOneBitOfNegative(i);
    }
  }

  lemma HighestOneBitIsPowerOfTwo(i: bv32)
    ensures i != 0 ==> IsPowerOfTwo(HighestOneBit(i))
  {
    if 0x8000_0000 <= i {
      HighestOneBitOfNegative(i);
    } else if i != 0 {
      HighestOneBitIsPowerOfTwoSmall(i);
    }
  }

  lemma HighestOneBitIsPowerOfTwoSmall(i: bv32)
    requires 0 < i < 0x8000_0000
    ensures IsPowerOfTwo(HighestOneBit(i))
  {
  }

  lemma HighestOneBitIsHighest(i: bv32)
    ensures i != 0 ==> i >> 1 < HighestOneBit(i)
  {
    if i < 0x8000_0000 {
      HighestOneBitIsHighestSmall(i);
    } else {
      HighestOneBitOfNegative(i);
    }
  }

  lemma HighestOneBitIsHighestSmall(i: bv32)
    requires i < 0x8000_0000
    ensures i != 0 ==> i >> 1 < HighestOneBit(i)
  {
  }

  /** `highestOneBit` is zero for zero and otherwise the top set bit. */
  lemma HighestOneBitIsTop(i: bv32)
    ensures i == 0 ==> HighestOneBit(i) == 0
    ensures i != 0 ==> IsTopBit(i, HighestOneBit(i))
  {
    HighestOneBitIsSet(i);
    HighestOneBitIsPowerOfTwo(i);
    HighestOneBitIsHighest(i);
  }

  /** `lowestOneBit`: `i & -i`, the lowest set bit of `i`, and zero exactly
      for zero. */
  function LowestOneBit(i: bv32): (r: bv32)
    ensures r == 0 <==> i == 0
    ensures i != 0 ==> IsPowerOfTwo(r) && i & r == r && i & (r - 1) == 0
  {
    i & -i
  }

  // ---------------------------------------------------------------------
  // Counting zeros

  /** Exactly `n` zero bits lie above the highest set bit of `i`:
      shifting right by `31 - n` leaves exactly 1. */
  predicate HasLeadingZeros(i: bv32, n: bv32) {
    n < 32 && i >> (31 - n) == 1
  }

  /** `numberOfLeadingZeros`: 32 for zero; otherwise a binary search that
      shifts the known-zero top halves away, starting the count at one and
      returning one less. */
  function NumberOfLeadingZeros(i: bv32): (r: bv32)
    ensures r == 32 <==> i == 0
    ensures i != 0 ==> HasLeadingZeros(i, r)
  {
    if i == 0 then 32
    else
      var n0: bv32 := 1;
      var (n1, i1) := if Ushr(i, 16) == 0 then (n0 + 16, Shl(i, 16)) else (n0, i);
      var (n2, i2) := if Ushr(i1, 24) == 0 then (n1 + 8, Shl(i1, 8)) else (n1, i1);
      var (n3, i3) := if Ushr(i2, 28) == 0 then (n2 + 4, Shl(i2, 4)) else (n2, i2);
      var (n4, i4) := if Ushr(i3, 30) == 0 then (n3 + 2, Shl(i3, 2)) else (n3, i3);
      var n5 := if Ushr(i4, 31) == 0 then n4 + 1 else n4;
      n5 - 1
  }

  /** Exactly `n` zero bits lie below the lowest set bit of `i`: shifting
      left by `31 - n` leaves only the sign bit. */
  predicate HasTrailingZeros(i: bv32, n: bv32) {
    n < 32 && i << (31 - n) == 0x8000_0000
  }

  /** `numberOfTrailingZeros`: 32 for zero; otherwise a binary search from
      31 down that keeps the low half whenever it is non-zero. The result
      `r` is the number of zero bits below the lowest set bit: shifting left
      by `31 - r` leaves only the sign bit. */
  function NumberOfTrailingZeros(i: bv32): (r: bv32)
    ensures r == 32 <==> i == 0
    ensures i != 0 ==> HasTrailingZeros(i, r)
  {
    if i == 0 then 32
    else
      var n0: bv32 := 31;
      var (n1, i1) := if Shl(i, 16) != 0 then (n0 - 16, Shl(i, 16)) else (n0, i);
      var (n2, i2) := if Shl(i1, 8) != 0 then (n1 - 8, Shl(i1, 8)) else (n1, i1);
      var (n3, i3) := if Shl(i2, 4) != 0 then (n2 - 4, Shl(i2, 4)) else (n2, i2);
      var (n4, i4) := if Shl(i3, 2) != 0 then (n3 - 2, Shl(i3, 2)) else (n3, i3);
      n4 - Ushr(Shl(i4, 1), 31)
  }

  /** The highest set bit sits below as many zeros as
      `numberOfLeadingZeros` counts. */
  lemma HighestOneBitLeadingZeros(i: bv32)
    ensures i != 0 ==> HighestOneBit(i) == 0x8000_0000 >> NumberOfLeadingZeros(i)
  {
    if i != 0 {
      HighestOneBitIsTop(i);
      TopBitAtLeadingZeros(i, HighestOneBit(i));
    }
  }

  lemma TopBitAtLeadingZeros(i: bv32, r: bv32)
    requires IsTopBit(i, r)
    ensures r == 0x8000_0000 >> NumberOfLeadingZeros(i)
  {
    TopBitAt(i, r, NumberOfLeadingZeros(i));
  }

  /** A top bit is where a leading-zero count puts it. */
  lemma TopBitAt(i: bv32, r: bv32, n: bv32)
    requires IsTopBit(i, r)
    requires HasLeadingZeros(i, n)
    ensures r == 0x8000_0000 >> n
  {
  }

  /** The lowest set bit sits above as many zeros as
      `numberOfTrailingZeros` counts. */
  lemma LowestOneBitTrailingZeros(i: bv32)
    ensures i != 0 ==> LowestOneBit(i) == 1 << NumberOfTrailingZeros(i)
  {
    if i != 0 {
      LowBitAt(i, LowestOneBit(i), NumberOfTrailingZeros(i));
    }
  }

  /** A lowest set bit is where a trailing-zero count puts it. */
  lemma LowBitAt(i: bv32, r: bv32, n: bv32)
    requires IsPowerOfTwo(r) && i & r == r && i & (r - 1) == 0
    requires HasTrailingZeros(i, n)
    ensures r == 1 << n
  {
  }

  // ---------------------------------------------------------------------
  // Counting set bits

  /** `bitCount`: pairwise sums of bits in 2-, 4- and 8-bit fields, then the
      bytes folded together and the low six bits kept. At most 32, zero
      exactly for zero, and one exactly for a single bit. */
  function BitCount(i: bv32): (r: bv32)
    ensures r <= 32
    ensures r == 0 <==> i == 0
  {
    var i1 := i - (Ushr(i, 1) & 0x5555_5555);
    var i2 := (i1 & 0x3333_3333) + (Ushr(i1, 2) & 0x3333_3333);
    var i3 := (i2 + Ushr(i2, 4)) & 0x0f0f_0f0f;
    var i4 := i3 + Ushr(i3, 8);
    var i5 := i4 + Ushr(i4, 16);
    i5 & 0x3f
  }

  /** Exactly the patterns with one set bit have a count of one. */
  lemma BitCountOne(i: bv32)
    ensures BitCount(i) == 1 <==> IsPowerOfTwo(i)
  {
  }

  // ---------------------------------------------------------------------
  // Rotations

  /** `rotateLeft`: `(i << distance) | (i >>> -distance)`. Java takes both
      distances modulo 32, so for a reduced distance `d` other than zero
      the bits shifted out at the top come back `32 - d` places lower. */
  function RotateLeft(i: bv32, distance: bv32): bv32 {
    Shl(i, distance) | Ushr(i, -distance)
  }

  /** `rotateRight`: `(i >>> distance) | (i << -distance)`, the bits shifted
      out at the bottom coming back at the top. */
  function RotateRight(i: bv32, distance: bv32): bv32 {
    Ushr(i, distance) | Shl(i, -distance)
  }

  /** A distance that is a multiple of 32 leaves the value alone. */
  lemma RotateByMultipleOf32(i: bv32, distance: bv32)
    requires distance & 31 == 0
    ensures RotateLeft(i, distance) == i && RotateRight(i, distance) == i
  {
  }

  lemma RotateInverseShort(i: bv32, distance: bv32)
    requires 0 < distance & 31 < 16
    ensures RotateRight(RotateLeft(i, distance), distance) == i
  {
  }

  lemma RotateInverseLong(i: bv32, distance: bv32)
    requires 16 <= distance & 31
    ensures RotateRight(RotateLeft(i, distance), distance) == i
  {
  }

  /** Rotating right by the distance just rotated left by restores the
      value. */
  lemma RotateInverse(i: bv32, distance: bv32)
    ensures RotateRight(RotateLeft(i, distance), distance) == i
  {
    if distance & 31 == 0 {
      RotateByMultipleOf32(i, distance);
    } else if distance & 31 < 16 {
      RotateInverseShort(i, distance);
    } else {
      RotateInverseLong(i, distance);
    }
  }

  /** A left rotation is a right rotation by the negated distance. */
  lemma RotateLeftIsRightNegated(i: bv32, distance: bv32)
    ensures RotateLeft(i, distance) == RotateRight(i, -distance)
  {
  }

  // ---------------------------------------------------------------------
  // Reversing bits

  /** `reverse`: swap adjacent bits, then adjacent pairs, then adjacent
      nibbles, then the four bytes end for end. */
  function Reverse(i: bv32): bv32 {
    var i1 := ((i & 0x5555_5555) << 1) | ((i >> 1) & 0x5555_5555);
    var i2 := ((i1 & 0x3333_3333) << 2) | ((i1 >> 2) & 0x3333_3333);
    var i3 := ((i2 & 0x0f0f_0f0f) << 4) | ((i2 >> 4) & 0x0f0f_0f0f);
    (i3 << 24) | ((i3 & 0xff00) << 8) | ((i3 >> 8) & 0xff00) | (i3 >> 24)
  }

  /** Bit `j` goes to position `31 - j`. */
  lemma ReverseSingleBit(j: bv32)
    requires j < 32
    ensures Reverse((1 as bv32) << j) == 0x8000_0000 >> j
  {
  }

  /** Reversing twice gives the value back. */
  lemma ReverseInvolution(i: bv32)
    ensures Reverse(Reverse(i)) == i
  {
  }

  /** `reverse` acts on each bit separately. */
  lemma ReverseOr(a: bv32, b: bv32)
    ensures Reverse(a | b) == Reverse(a) | Reverse(b)
  {
  }

  /** Where `myReverse` puts bit `j` of its input (given as `bit`, the
      input masked to that bit): `31 - 2j` places left for the low half,
      `2j - 31` places right for the high half. */
  function Place(bit: bv32, j: bv32): bv32 {
    if j >= 16 then Ushr(bit, (j << 1) - 31) else Shl(bit, 31 - (j << 1))
  }

  /** The low `j` bits of `i`. */
  function Low(i: bv32, j: bv32): bv32
    requires j <= 32
  {
    i & (((1 as bv32) << j) - 1)
  }

  lemma ReversePlacesBit(i: bv32, j: bv32)
    requires j < 32
    ensures Reverse(((1 as bv32) << j) & i) == Place(((1 as bv32) << j) & i, j)
  {
  }

  lemma LowGrows(i: bv32, j: bv32)
    requires j < 32
    ensures Low(i, j + 1) == Low(i, j) | (((1 as bv32) << j) & i)
  {
  }

  /** One more bit of the input reversed is one more bit placed. */
  lemma ReverseLowStep(i: bv32, j: bv32)
    requires j < 32
    ensures Reverse(Low(i, j + 1)) == Reverse(Low(i, j)) | Place(((1 as bv32) << j) & i, j)
  {
    ReversePlacesBit(i, j);
    LowGrows(i, j);
    ReverseOr(Low(i, j), ((1 as bv32) << j) & i);
  }

  lemma LowAll(i: bv32)
    ensures Low(i, 32) == i
  {
  }

  /** One pass of `myReverse`'s loop: bit `j` moved to its mirror position
      and or-ed into the total, and the mask moved up. */
  method MyReverseStep(i: bv32, j: bv32, tot: bv32, mask: bv32) returns (tot': bv32, mask': bv32)
    requires j < 32 && mask == 1 << j && tot == Reverse(Low(i, j))
    ensures mask' == 1 << (j + 1) && tot' == Reverse(Low(i, j + 1))
  {
    var temp := mask & i;
    if j >= 16 {
      temp := Ushr(temp, (j << 1) - 31);
    } else {
      temp := Shl(temp, 31 - (j << 1));
    }
    ReverseLowStep(i, j);
    tot' := tot | temp;
    mask' := mask << 1;
  }

  /** `myReverse`: the bit-at-a-time loop computes what `reverse`
      computes. */
  method MyReverse(i: bv32) returns (tot: bv32)
    ensures tot == Reverse(i)
  {
    tot := 0;
    var mask: bv32 := 1;
    var j: bv32 := 0;
    while j < 32
      invariant j <= 32
      invariant mask == 1 << j
      invariant tot == Reverse(Low(i, j))
    {
      tot, mask := MyReverseStep(i, j, tot, mask);
      j := j + 1;
    }
    LowAll(i);
  }

  // ---------------------------------------------------------------------
  // Sign and bytes

  /** `signum`: `(i >> 31) | (-i >>> 31)`, giving -1, 0 or 1. */
  function Signum(i: bv32): (r: bv32)
    ensures i == 0 ==> r == 0
    ensures 0 < i < 0x8000_0000 ==> r == 1
    ensures 0x8000_0000 <= i ==> r == 0xffff_ffff
  {
    Sar(i, 31) | Ushr(-i, 31)
  }

  /** `signum` agrees with the sign of the value the pattern stands for. */
  lemma SignumIsSign(i: bv32)
    ensures Signed(Signum(i)) == if Signed(i) < 0 then -1 else if Signed(i) == 0 then 0 else 1
  {
    SignOfSigned(i);
    SignedOfSigns();
  }

  /** Only the zero pattern stands for zero. */
  lemma SignOfSigned(i: bv32)
    ensures Signed(i) == 0 <==> i == 0
  {
  }

  lemma SignedOfSigns()
    ensures Signed(0) == 0 && Signed(1) == 1 && Signed(0xffff_ffff) == -1
  {
  }

  /** `reverseBytes`: the four bytes in the opposite order, each byte's
      bits left in place. */
  function ReverseBytes(i: bv32): bv32 {
    Ushr(i, 24) | (Sar(i, 8) & 0x0000_ff00) | (Shl(i, 8) & 0x00ff_0000) | Shl(i, 24)
  }

  /** The byte at position `k` (0 lowest) of a pattern. */
  function ByteAt(i: bv32, k: bv32): bv32
    requires k < 4
  {
    (i >> (k << 3)) & 0xff
  }

  /** Byte `k` of the result is byte `3 - k` of the input. */
  lemma ReverseBytesMovesBytes(i: bv32, k: bv32)
    requires k < 4
    ensures ByteAt(ReverseBytes(i), k) == ByteAt(i, 3 - k)
  {
    if k == 0 {
      ReverseBytesLowByte(i);
    } else if k == 1 {
      ReverseBytesSecondByte(i);
    } else if k == 2 {
      ReverseBytesThirdByte(i);
    } else {
      ReverseBytesHighByte(i);
    }
  }

  lemma ReverseBytesLowByte(i: bv32)
    ensures ByteAt(ReverseBytes(i), 0) == ByteAt(i, 3)
  {
  }

  lemma ReverseBytesSecondByte(i: bv32)
    ensures ByteAt(ReverseBytes(i), 1) == ByteAt(i, 2)
  {
  }

  lemma ReverseBytesThirdByte(i: bv32)
    ensures ByteAt(ReverseBytes(i), 2) == ByteAt(i, 1)
  {
  }

  lemma ReverseBytesHighByte(i: bv32)
    ensures ByteAt(ReverseBytes(i), 3) == ByteAt(i, 0)
  {
  }

  /** Reversing the bytes twice gives the value back. */
  lemma ReverseBytesInvolution(i: bv32)
    ensures ReverseBytes(ReverseBytes(i)) == i
  {
  }
}
