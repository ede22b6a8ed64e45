/** The `java.util.Arrays` and `System.arraycopy` calls that the string
    classes make, on `char[]` arrays given by their contents. Each is a loop
    over the array that throws what the Java library throws for bad
    arguments. A `seq` is a value, so a copy from an array into itself reads
    the array as it was before the copy, which is what `arraycopy` promises
    for overlapping ranges. */
module JavaArrays {
  import opened Wrappers

  /** The char a new array holds in a position nothing was written to. */
  const NUL: char := '\0'

  function Min(a: int, b: int): int {
    if a <= b then a else b
  }

  function Max(a: int, b: int): int {
    if a <= b then b else a
  }

  /** `n` NUL chars. */
  function Zeros(n: nat): (r: seq<char>)
    ensures |r| == n
    ensures forall k :: 0 <= k < n ==> r[k] == NUL
  {
    seq(n, _ => NUL)
  }

  /** `new char[n]`: `n` NUL chars, or `NegativeArraySizeException`. */
  function NewArray(n: int): (r: Result<seq<char>>)
    ensures r.Ok? <==> 0 <= n
    ensures r.Err? ==> r.error == NegativeArraySize
    ensures r.Ok? ==> r.value == Zeros(n)
  {
    if n < 0 then Err(NegativeArraySize) else Ok(Zeros(n))
  }

  /** `Arrays.copyOf(original, newLength)`: a new array of `newLength` chars
      that starts with as much of `original` as fits and is NUL after the
      end of `original`; `NegativeArraySizeException` for a negative
      length. */
  method CopyOf(original: seq<char>, newLength: int) returns (r: Result<seq<char>>)
    ensures r.Ok? <==> 0 <= newLength
    ensures r.Err? ==> r.error == NegativeArraySize
    ensures r.Ok? ==> |r.value| == newLength
    ensures r.Ok? ==> r.value[..Min(|original|, newLength)] == original[..Min(|original|, newLength)]
    ensures r.Ok? ==> forall k :: |original| <= k < newLength ==> r.value[k] == NUL
  {
    if newLength < 0 {
      return Err(NegativeArraySize);
    }
    var copy: seq<char> := [];
    var k := 0;
    while k < newLength
      invariant 0 <= k <= newLength && |copy| == k
      invariant forall j :: 0 <= j < k && j < |original| ==> copy[j] == original[j]
      invariant forall j :: |original| <= j < k ==> copy[j] == NUL
    {
      copy := copy + [if k < |original| then original[k] else NUL];
      k := k + 1;
    }
    return Ok(copy);
  }

  /** `Arrays.copyOfRange(original, from, to)`: a new array of `to - from`
      chars holding `original` from `from` on, NUL past its end;
      `IllegalArgumentException` when `from > to`, and
      `ArrayIndexOutOfBoundsException` when `from` lies outside the array. */
  method CopyOfRange(original: seq<char>, from: int, to: int) returns (r: Result<seq<char>>)
    ensures r.Ok? <==> 0 <= from <= |original| && from <= to
    ensures from > to ==> r == Err(IllegalArgument)
    ensures from <= to && (from < 0 || |original| < from) ==> r == Err(ArrayIndexOutOfBounds)
    ensures r.Ok? ==> |r.value| == to - from
    ensures r.Ok? ==> r.value[..Min(|original|, to) - from] == original[from..Min(|original|, to)]
    ensures r.Ok? ==> forall k :: |original| - from <= k < to - from ==> r.value[k] == NUL
  {
    if from > to {
      return Err(IllegalArgument);
    }
    if from < 0 || |original| < from {
      return Err(ArrayIndexOutOfBounds);
    }
    var copy: seq<char> := [];
    var k := 0;
    while k < to - from
      invariant 0 <= k <= to - from && |copy| == k
      invariant forall j :: 0 <= j < k && from + j < |original| ==> copy[j] == original[from + j]
      invariant forall j :: |original| - from <= j < k ==> copy[j] == NUL
    {
      copy := copy + [if from + k < |original| then original[from + k] else NUL];
      k := k + 1;
    }
    return Ok(copy);
  }

  /** The range `[pos, pos + length)` lies inside an array of `size` chars. */
  predicate InRange(pos: int, length: int, size: int) {
    0 <= pos && 0 <= length && pos + length <= size
  }

  /** `System.arraycopy(src, srcPos, dest, destPos, length)`: `dest` with
      `length` chars of `src` from `srcPos` written over it from `destPos`,
      and nothing else changed; `ArrayIndexOutOfBoundsException` when
      either range leaves its array or a position or the length is
      negative. */
  method ArrayCopy(src: seq<char>, srcPos: int, dest: seq<char>, destPos: int, length: int)
    returns (r: Result<seq<char>>)
    ensures r.Ok? <==> InRange(srcPos, length, |src|) && InRange(destPos, length, |dest|)
    ensures r.Err? ==> r.error == ArrayIndexOutOfBounds
    ensures r.Ok? ==> |r.value| == |dest|
    ensures r.Ok? ==> r.value[..destPos] == dest[..destPos]
    ensures r.Ok? ==> r.value[destPos..destPos + length] == src[srcPos..srcPos + length]
    ensures r.Ok? ==> r.value[destPos + length..] == dest[destPos + length..]
  {
    if !(InRange(srcPos, length, |src|) && InRange(destPos, length, |dest|)) {
      return Err(ArrayIndexOutOfBounds);
    }
    var out := dest;
    var k := 0;
    while k < length
      invariant 0 <= k <= length && |out| == |dest|
      invariant forall j :: 0 <= j < destPos ==> out[j] == dest[j]
      invariant forall j :: destPos <= j < destPos + k ==> out[j] == src[j - destPos + srcPos]
      invariant forall j :: destPos + k <= j < |dest| ==> out[j] == dest[j]
    {
      out := out[destPos + k := src[srcPos + k]];
      k := k + 1;
    }
    return Ok(out);
  }

  /** `Arrays.fill(a, from, to, c)`: `a` with every position of
      `[from, to)` set to `c` and nothing else changed;
      `IllegalArgumentException` when `from > to`, and
      `ArrayIndexOutOfBoundsException` when the range leaves the array. */
  method Fill(a: seq<char>, from: int, to: int, c: char) returns (r: Result<seq<char>>)
    ensures r.Ok? <==> 0 <= from <= to <= |a|
    ensures from > to ==> r == Err(IllegalArgument)
    ensures from <= to && (from < 0 || |a| < to) ==> r == Err(ArrayIndexOutOfBounds)
    ensures r.Ok? ==> |r.value| == |a|
    ensures r.Ok? ==> r.value[..from] == a[..from] && r.value[to..] == a[to..]
    ensures r.Ok? ==> forall k :: from <= k < to ==> r.value[k] == c
  {
    if from > to {
      return Err(IllegalArgument);
    }
    if from < 0 || |a| < to {
      return Err(ArrayIndexOutOfBounds);
    }
    var out := a;
    var k := from;
    while k < to
      invariant from <= k <= to && |out| == |a|
      invariant forall j :: 0 <= j < from ==> out[j] == a[j]
      invariant forall j :: from <= j < k ==> out[j] == c
      invariant forall j :: k <= j < |a| ==> out[j] == a[j]
    {
      out := out[k := c];
      k := k + 1;
    }
    return Ok(out);
  }
}
