/** The radix renderings of `MyInteger`: `toString(int)` with its helpers
    `stringSize` and `getChars`, and `formatUnsignedInt` for the power-of-two
    radixes. Java `int` values are Dafny `int`s within `IsInt32`; where the
    source relies on wrap-around (the multiply by 52429) it is written out. */
module IntegerDecimal {
  import opened JavaInt
  import opened NatBits

  // ---------------------------------------------------------------------
  // Numerals

  /** The largest radix `digits` has characters for. */
  const MAX_RADIX: nat := 36

  /** `digits[k]`: '0' to '9' and then 'a' to 'z' for the values 0 to 35. */
  function Digit(k: nat): char
    requires k < MAX_RADIX
  {
    if k < 10 then ('0' as int + k) as char else ('a' as int + k - 10) as char
  }

  /** The numeral of `v` in base `radix`, most significant digit first,
      without leading zeros ("0" for zero). */
  function Numeral(v: nat, radix: nat): (s: seq<char>)
    requires 2 <= radix <= MAX_RADIX
    decreases v
  {
    if v < radix then [Digit(v)] else Numeral(v / radix, radix) + [Digit(v % radix)]
  }

  /** The digits above the last one: nothing for a number below the radix. */
  function Leading(v: nat, radix: nat): seq<char>
    requires 2 <= radix <= MAX_RADIX
  {
    if v == 0 then [] else Numeral(v, radix)
  }

  /** The decimal rendering of an integer: a minus sign before the numeral
      of its magnitude. */
  function Decimal(i: int): seq<char> {
    if i < 0 then ['-'] + Numeral(-i, 10) else Numeral(i, 10)
  }

  /** The value of a digit character, the inverse of `Digit`. */
  function DigitValue(c: char): nat {
    if '0' <= c <= '9' then c as int - '0' as int
    else if 'a' <= c <= 'z' then c as int - 'a' as int + 10
    else 0
  }

  /** The number a string of digits stands for in base `radix`. */
  function ValueOf(s: seq<char>, radix: nat): nat {
    if |s| == 0 then 0 else ValueOf(s[..|s| - 1], radix) * radix + DigitValue(s[|s| - 1])
  }

  /** Reading an optional minus sign and then decimal digits. */
  function ParseDecimal(s: seq<char>): int {
    if |s| > 0 && s[0] == '-' then 0 - ValueOf(s[1..], 10) else ValueOf(s, 10)
  }

  lemma DigitValueOfDigit(k: nat)
    requires k < MAX_RADIX
    ensures DigitValue(Digit(k)) == k
  {
  }

  /** Quotient and remainder by a radix, and where they lie. */
  lemma DivideByRadix(v: nat, radix: nat)
    requires 2 <= radix
    ensures v == v / radix * radix + v % radix && v % radix < radix
    ensures v < radix <==> v / radix == 0
    ensures v >= radix ==> v / radix < v
  {
  }

  /** Reading a numeral gives back the number. */
  lemma {:induction false} ValueOfNumeral(v: nat, radix: nat)
    requires 2 <= radix <= MAX_RADIX
    ensures ValueOf(Numeral(v, radix), radix) == v
    decreases v
  {
    var s := Numeral(v, radix);
    DivideByRadix(v, radix);
    if v < radix {
      DigitValueOfDigit(v);
      assert s[..|s| - 1] == [];
    } else {
      var q, r := v / radix, v % radix;
      ValueOfNumeral(q, radix);
      assert s[..|s| - 1] == Numeral(q, radix);
      DigitValueOfDigit(r);
    }
  }

  /** A numeral starts with a digit, and with zero only if it is "0". */
  lemma {:induction false} NumeralNoLeadingZero(v: nat, radix: nat)
    requires 2 <= radix <= MAX_RADIX
    ensures |Numeral(v, radix)| >= 1
    ensures Numeral(v, radix)[0] == '0' <==> v == 0
    ensures Numeral(v, radix)[0] != '-'
    decreases v
  {
    DivideByRadix(v, radix);
    if v >= radix {
      NumeralNoLeadingZero(v / radix, radix);
    }
  }

  /** The decimal rendering reads back as the integer. */
  lemma DecimalRoundTrip(i: int)
    ensures ParseDecimal(Decimal(i)) == i
  {
    if i < 0 {
      ValueOfNumeral(-i, 10);
      assert Decimal(i)[1..] == Numeral(-i, 10);
    } else {
      ValueOfNumeral(i, 10);
      NumeralNoLeadingZero(i, 10);
    }
  }

  /** The last digit comes off the end: what is left is the numeral of the
      quotient, or nothing. */
  lemma NumeralLast(v: nat, radix: nat)
    requires 2 <= radix <= MAX_RADIX
    ensures Numeral(v, radix) == Leading(v / radix, radix) + [Digit(v % radix)]
  {
    DivideByRadix(v, radix);
  }

  // ---------------------------------------------------------------------
  // stringSize

  /** Ten to the power `k`. */
  function Pow10(k: nat): (r: nat)
    ensures r >= 1
  {
    if k == 0 then 1 else 10 * Pow10(k - 1)
  }

  /** A decimal numeral has at most `k` digits exactly when the number is
      below `10^k`. */
  lemma {:induction false} NumeralLength(v: nat, k: nat)
    requires 1 <= k
    ensures |Numeral(v, 10)| <= k <==> v < Pow10(k)
    decreases v
  {
    if v >= 10 {
      NumeralNoLeadingZero(v / 10, 10);
      if k > 1 {
        NumeralLength(v / 10, k - 1);
      }
    }
  }

  /** `sizeTable`: the largest number of each decimal length up to nine
      digits, then `Integer.MAX_VALUE`. */
  const SIZE_TABLE: seq<int> := [9, 99, 999, 9999, 99999, 999999, 9999999, 99999999, 999999999, MAX_VALUE]

  /** Entry `j` is `10^(j + 1) - 1`, except the last, which is the largest
      `int` and still below `10^10`. */
  lemma SizeTableEntry(j: nat)
    requires j < |SIZE_TABLE|
    ensures j < 9 ==> SIZE_TABLE[j] == Pow10(j + 1) - 1
    ensures SIZE_TABLE[j] < Pow10(j + 1)
  {
    assert Pow10(10) == 10 * Pow10(9);
  }

  /** `stringSize(x)`: the first length whose table entry is at least `x`,
      plus one. For a non-negative `x` that is the number of its decimal
      digits; a negative `x` gives 1. */
  method StringSize(x: int) returns (size: int)
    requires IsInt32(x)
    ensures 0 <= x ==> size == |Numeral(x, 10)|
    ensures x < 0 ==> size == 1
  {
    var i := 0;
    while x > SIZE_TABLE[i]
      invariant 0 <= i < |SIZE_TABLE|
      invariant i > 0 ==> x >= Pow10(i)
      decreases |SIZE_TABLE| - i
    {
      SizeTableEntry(i);
      i := i + 1;
    }
    size := i + 1;
    if 0 <= x {
      SizeTableEntry(i);
      NumeralLength(x, size);
      if i > 0 {
        NumeralLength(x, i);
      }
    }
  }

  // ---------------------------------------------------------------------
  // getChars

  /** `DigitTens` and `DigitOnes`: the tens and the units digit of each
      number below 100. */
  const DIGIT_TENS: seq<char> := seq(100, r requires 0 <= r < 100 => Digit(r / 10))
  const DIGIT_ONES: seq<char> := seq(100, r requires 0 <= r < 100 => Digit(r % 10))

  /** Java's `x >>> k` on an `int`: the 32-bit pattern read unsigned and
      shifted right. */
  function UnsignedShr(x: int, k: nat): nat
    requires IsInt32(x)
  {
    Shr(x % 0x1_0000_0000, k)
  }

  /** `(i * 52429) >>> 19` is `i / 10` below 65536: the product may
      overflow an `int`, but the unsigned reading recovers it, and
      `52429 / 2^19` is close enough to a tenth. */
  lemma DivideByTen(i: int)
    requires 0 <= i < 65536
    ensures UnsignedShr(Wrap(i * 52429), 19) == i / 10
  {
    var p := i * 52429;
    ProductFits(i);
    UnsignedOfWrap(p);
    ShrIsQuotient(p, 19);
    Pow2Add(8, 8);
    Pow2Add(16, 3);
    TenthByMultiply(i);
  }

  /** `i * 52429` stays below `2^32` for `i` below 65536. */
  lemma ProductFits(i: int)
    requires 0 <= i < 65536
    ensures 0 <= i * 52429 < 0x1_0000_0000
  {
  }

  /** A value below `2^32` is the unsigned reading of the `int` it wraps
      to. */
  lemma UnsignedOfWrap(p: int)
    requires 0 <= p < 0x1_0000_0000
    ensures Wrap(p) % 0x1_0000_0000 == p
  {
    var w := Wrap(p);
    DivModUnique(w - p + p, 0x1_0000_0000, (w - p) / 0x1_0000_0000, p);
  }

  /** `52429 / 2^19` is close enough to a tenth below 65536. */
  lemma TenthByMultiply(i: int)
    requires 0 <= i < 65536
    ensures (i * 52429) / 524288 == i / 10
  {
    var q, r := i / 10, i % 10;
    assert i * 52429 == 524288 * q + (2 * q + 52429 * r);
    DivModUnique(i * 52429, 524288, q, 2 * q + 52429 * r);
  }

  /** One pass of the first loop of `getChars`: `q = i / 100` and
      `r = i - ((q << 6) + (q << 5) + (q << 2))`, the last two digits. The
      shifts are multiplications that cannot overflow, `q` being below
      `2^25`. */
  method TwoDigits(i: int) returns (q: int, r: int)
    requires 65536 <= i <= MAX_VALUE
    ensures q == i / 100 && r == i % 100
  {
    q := i / 100;
    r := i - (q * 64 + q * 32 + q * 4);
  }

  /** One pass of the second loop: `q = (i * 52429) >>> 19` and
      `r = i - ((q << 3) + (q << 1))`, the last digit. */
  method OneDigit(i: int) returns (q: int, r: int)
    requires 0 <= i < 65536
    ensures q == i / 10 && r == i % 10
  {
    q := UnsignedShr(Wrap(i * 52429), 19);
    DivideByTen(i);
    r := i - (q * 8 + q * 2);
  }

  /** The last two digits come off together. */
  lemma NumeralLastTwo(v: nat)
    requires v >= 100
    ensures Numeral(v, 10) == Numeral(v / 100, 10) + [DIGIT_TENS[v % 100], DIGIT_ONES[v % 100]]
  {
    var a, b, c := v / 100, (v / 10) % 10, v % 10;
    DivModUnique(v / 10, 10, a, b);
    DivModUnique(v % 100, 10, b, c);
  }

  /** `buf[--charPos] = c`: the character before the written stretch. */
  lemma WriteBefore(b: seq<char>, p: int, end: int, c: char)
    requires 0 < p <= end <= |b|
    ensures |b[p - 1 := c]| == |b|
    ensures b[p - 1 := c][p - 1..end] == [c] + b[p..end]
    ensures b[p - 1 := c][..p - 1] == b[..p - 1]
    ensures b[p - 1 := c][end..] == b[end..]
  {
  }

  /** One pass of the first loop of `getChars`: the last two digits of
      `n` written before position `charPos`, and `n` replaced by `n / 100`. */
  method WriteTwoDigits(n: int, charPos: int, index: int, buf: seq<char>) returns (q: int, buf': seq<char>)
    requires 65536 <= n <= MAX_VALUE && 2 <= charPos <= index <= |buf|
    ensures 0 <= q <= MAX_VALUE && q == n / 100
    ensures |buf'| == |buf| && buf'[..charPos - 2] == buf[..charPos - 2] && buf'[index..] == buf[index..]
    ensures Numeral(n, 10) + buf[charPos..index] == Numeral(q, 10) + buf'[charPos - 2..index]
  {
    var r;
    q, r := TwoDigits(n);
    NumeralLastTwo(n);
    WriteBefore(buf, charPos, index, DIGIT_ONES[r]);
    buf' := buf[charPos - 1 := DIGIT_ONES[r]];
    WriteBefore(buf', charPos - 1, index, DIGIT_TENS[r]);
    buf' := buf'[charPos - 2 := DIGIT_TENS[r]];
  }

  /** One pass of the second loop: the last digit of `n` written before
      position `charPos`, and `n` replaced by `n / 10`. */
  method WriteOneDigit(n: int, charPos: int, index: int, buf: seq<char>) returns (q: int, buf': seq<char>)
    requires 0 <= n < 65536 && 1 <= charPos <= index <= |buf|
    ensures 0 <= q && q == n / 10
    ensures |buf'| == |buf| && buf'[..charPos - 1] == buf[..charPos - 1] && buf'[index..] == buf[index..]
    ensures Numeral(n, 10) + buf[charPos..index] == Leading(q, 10) + buf'[charPos - 1..index]
  {
    var r;
    q, r := OneDigit(n);
    NumeralLast(n, 10);
    WriteBefore(buf, charPos, index, Digit(r));
    buf' := buf[charPos - 1 := Digit(r)];
  }

  /** The first loop of `getChars`: two digits at a time while `n` is at
      least 65536, ending before `charPos`. `n` is left below 65536 and the
      digits written so far and the numeral of `n` still make up the
      numeral of the starting `n`. */
  method WriteDigitPairs(n: int, charPos: int, index: int, buf: seq<char>)
    returns (n': int, charPos': int, buf': seq<char>)
    requires 0 <= n <= MAX_VALUE && |Numeral(n, 10)| <= charPos <= index <= |buf|
    ensures 0 <= n' < 65536 && |Numeral(n', 10)| <= charPos' <= charPos
    ensures charPos - charPos' == |Numeral(n, 10)| - |Numeral(n', 10)|
    ensures |buf'| == |buf| && buf'[..charPos'] == buf[..charPos'] && buf'[index..] == buf[index..]
    ensures Numeral(n, 10) + buf[charPos..index] == Numeral(n', 10) + buf'[charPos'..index]
  {
    n', charPos', buf' := n, charPos, buf;
    while n' >= 65536
      invariant 0 <= n' <= MAX_VALUE && |Numeral(n', 10)| <= charPos' <= charPos
      invariant charPos - charPos' == |Numeral(n, 10)| - |Numeral(n', 10)|
      invariant |buf'| == |buf| && buf'[..charPos'] == buf[..charPos'] && buf'[index..] == buf[index..]
      invariant Numeral(n, 10) + buf[charPos..index] == Numeral(n', 10) + buf'[charPos'..index]
    {
      NumeralLastTwo(n');
      ghost var before := buf';
      n', buf' := WriteTwoDigits(n', charPos', index, buf');
      assert buf'[..charPos' - 2] == before[..charPos'][..charPos' - 2];
      charPos' := charPos' - 2;
    }
  }

  /** The second loop of `getChars`: one digit at a time until `n` is used
      up, ending before `charPos`. */
  method WriteDigits(n: int, charPos: int, index: int, buf: seq<char>)
    returns (charPos': int, buf': seq<char>)
    requires 0 <= n < 65536 && |Numeral(n, 10)| <= charPos <= index <= |buf|
    ensures charPos' == charPos - |Numeral(n, 10)|
    ensures |buf'| == |buf| && buf'[..charPos'] == buf[..charPos'] && buf'[index..] == buf[index..]
    ensures Numeral(n, 10) + buf[charPos..index] == buf'[charPos'..index]
  {
    var m := n;
    charPos', buf' := charPos, buf;
    while true
      invariant 0 <= m < 65536 && |Numeral(m, 10)| <= charPos' <= charPos
      invariant charPos - charPos' == |Numeral(n, 10)| - |Numeral(m, 10)|
      invariant |buf'| == |buf| && buf'[..charPos'] == buf[..charPos'] && buf'[index..] == buf[index..]
      invariant Numeral(n, 10) + buf[charPos..index] == Numeral(m, 10) + buf'[charPos'..index]
      decreases m
    {
      NumeralLast(m, 10);
      NumeralNoLeadingZero(m / 10, 10);
      ghost var before := buf';
      m, buf' := WriteOneDigit(m, charPos', index, buf');
      assert buf'[..charPos' - 1] == before[..charPos'][..charPos' - 1];
      charPos' := charPos' - 1;
      if m == 0 {
        break;
      }
    }
  }

  /** `getChars(i, index, buf)`: writes the decimal rendering of `i` so that
      it ends just before `index`, two digits at a time while the magnitude
      is at least 65536, then one at a time, then the sign. The callers
      guarantee room for it and never pass `Integer.MIN_VALUE`, whose
      negation overflows. */
  method GetChars(i: int, index: int, buf: seq<char>) returns (buf': seq<char>)
    requires IsInt32(i) && i != MIN_VALUE
    requires |Decimal(i)| <= index <= |buf|
    ensures |buf'| == |buf|
    ensures buf'[..index - |Decimal(i)|] == buf[..index - |Decimal(i)|]
    ensures buf'[index - |Decimal(i)|..index] == Decimal(i)
    ensures buf'[index..] == buf[index..]
  {
    var charPos := index;
    var sign := '\0';
    var n := i;
    if n < 0 {
      sign := '-';
      n := -n;
    }
    assert Decimal(i) == (if i < 0 then ['-'] else []) + Numeral(n, 10);
    assert buf[index..index] == [];
    var c1, b1;
    n, c1, b1 := WriteDigitPairs(n, charPos, index, buf);
    charPos, buf' := WriteDigits(n, c1, index, b1);
    assert buf'[..charPos] == b1[..c1][..charPos] == buf[..charPos];
    if sign != '\0' {
      WriteBefore(buf', charPos, index, sign);
      assert buf[..charPos - 1] == buf[..charPos][..charPos - 1];
      charPos := charPos - 1;
      buf' := buf'[charPos := sign];
    }
  }

  // ---------------------------------------------------------------------
  // toString(int)

  /** The rendering of `Integer.MIN_VALUE`, which `toString` returns as a
      constant. */
  lemma MinValueDecimal()
    ensures Decimal(MIN_VALUE) == "-2147483648"
  {
    assert Numeral(2, 10) == "2";
    assert Numeral(21, 10) == "21";
    assert Numeral(214, 10) == "214";
    assert Numeral(2147, 10) == "2147";
    assert Numeral(21474, 10) == "21474";
    assert Numeral(214748, 10) == "214748";
    assert Numeral(2147483, 10) == "2147483";
    assert Numeral(21474836, 10) == "21474836";
    assert Numeral(214748364, 10) == "214748364";
    assert Numeral(2147483648, 10) == "2147483648";
  }

  /** `toString(i)`: the constant for `Integer.MIN_VALUE`; otherwise a
      buffer of `stringSize(-i) + 1` characters for a negative `i` and
      `stringSize(i)` for the rest, filled by `getChars`. */
  method ToString(i: int) returns (s: seq<char>)
    requires IsInt32(i)
    ensures s == Decimal(i)
  {
    if i == MIN_VALUE {
      MinValueDecimal();
      return "-2147483648";
    }
    var size;
    if i < 0 {
      size := StringSize(-i);
      size := size + 1;
    } else {
      size := StringSize(i);
    }
    var buf := seq(size, _ => '\0');
    s := GetChars(i, size, buf);
    assert s == s[0..size];
  }

  // ---------------------------------------------------------------------
  // formatUnsignedInt

  /** One digit of the power-of-two radix: `val & mask` is the remainder by
      the radix and `val >>>= shift` the quotient. */
  lemma RadixDigitStep(v: nat, shift: nat)
    ensures BitAnd(v, Pow2(shift) - 1) == v % Pow2(shift)
    ensures Shr(v, shift) == v / Pow2(shift)
  {
    AndLowBits(v, shift);
    LowBitsIsRemainder(v, shift);
    ShrIsQuotient(v, shift);
  }

  /** One pass of the loop of `formatUnsignedInt`:
      `buf[offset + --charPos] = digits[val & mask]` and `val >>>= shift`,
      with `pos` standing for `offset + charPos`. */
  method FormatDigit(v: nat, shift: nat, mask: nat, buf: seq<char>, pos: int, end: int) returns (v': nat, buf': seq<char>)
    requires 1 <= shift <= 5 && 2 <= Pow2(shift) <= 32 && mask == Pow2(shift) - 1
    requires 0 < pos <= end <= |buf|
    ensures v' == v / Pow2(shift)
    ensures |buf'| == |buf| && buf'[..pos - 1] == buf[..pos - 1] && buf'[end..] == buf[end..]
    ensures Numeral(v, Pow2(shift)) + buf[pos..end] == Leading(v', Pow2(shift)) + buf'[pos - 1..end]
  {
    RadixDigitStep(v, shift);
    NumeralLast(v, Pow2(shift));
    WriteBefore(buf, pos, end, Digit(BitAnd(v, mask)));
    buf' := buf[pos - 1 := Digit(BitAnd(v, mask))];
    v' := Shr(v, shift);
  }

  /** The radixes `2^shift` for shifts 1 to 5 have digits. */
  lemma RadixBounds(shift: nat)
    requires 1 <= shift <= 5
    ensures 2 <= Pow2(shift) <= 32
  {
    Pow2Monotone(shift, 5);
    Pow2Monotone(1, shift);
  }

  /** The radix `2^shift` of a shift from 1 to 5. */
  function Radix(shift: nat): (r: nat)
    requires 1 <= shift <= 5
    ensures 2 <= r <= 32
  {
    RadixBounds(shift);
    Pow2(shift)
  }

  /** `formatUnsignedInt(val, shift, buf, offset, len)`: the digits of the
      unsigned value `val` in radix `2^shift`, written right to left ending
      at `offset + len` by a `do`-`while` loop that stops when the value is
      used up or the `len` positions are full. Returns the position of the
      last digit written: `len` less the number of digits when they fit,
      else 0 with only the low `len` digits written. The source calls it
      with shifts up to 5, whose digits `digits` holds. */
  method FormatUnsignedInt(val: nat, shift: nat, buf: seq<char>, offset: int, len: int)
    returns (buf': seq<char>, charPos: int)
    requires val < 0x1_0000_0000 && 1 <= shift <= 5
    requires 0 <= offset && 1 <= len && offset + len <= |buf|
    ensures 0 <= charPos < len && |buf'| == |buf|
    ensures buf'[..offset + charPos] == buf[..offset + charPos]
    ensures buf'[offset + len..] == buf[offset + len..]
    ensures var d := Numeral(val, Radix(shift));
      if |d| <= len then charPos == len - |d| && buf'[offset + charPos..offset + len] == d
      else charPos == 0 && buf'[offset..offset + len] == d[|d| - len..]
  {
    RadixBounds(shift);
    var radix := Pow2(shift);
    var mask := radix - 1;
    ghost var d := Numeral(val, radix);
    var v := val;
    charPos := len;
    buf' := buf;
    while true
      invariant 1 <= charPos <= len && |buf'| == |buf|
      invariant buf'[..offset + charPos] == buf[..offset + charPos]
      invariant buf'[offset + len..] == buf[offset + len..]
      invariant d == Numeral(v, radix) + buf'[offset + charPos..offset + len]
      decreases charPos
    {
      ghost var before := buf';
      v, buf' := FormatDigit(v, shift, mask, buf', offset + charPos, offset + len);
      assert buf'[..offset + charPos - 1] == before[..offset + charPos - 1];
      charPos := charPos - 1;
      if !(v != 0 && charPos > 0) {
        break;
      }
    }
    if v != 0 {
      NumeralNoLeadingZero(v, radix);
    }
  }
}
