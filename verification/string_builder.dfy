/** `MyAbstractStringBuilder`: a `char[]` buffer `value` of which the first
    `count` chars are the content. Every operation returns the new state of
    the builder, or the exception it throws; on an exception the model
    keeps no state, so a buffer Java grew before it threw is not
    observed. `int` arithmetic on counts and capacities wraps at 32 bits as
    in Java. */
module StringBuilderModel {
  import opened Wrappers
  import opened JavaInt
  import opened JavaArrays

  /** The array (its length is the capacity) and the count. */
  datatype Builder = Builder(value: seq<char>, count: int)

  /** The count lies within the array, and the array within what a Java
      array can hold. */
  predicate Valid(b: Builder) {
    0 <= b.count <= |b.value| <= MAX_VALUE
  }

  /** The chars the builder holds. */
  function Content(b: Builder): seq<char>
    requires Valid(b)
  {
    b.value[..b.count]
  }

  /** `capacity()`: the length of the array. */
  function Capacity(b: Builder): nat {
    |b.value|
  }

  /** `length()`: the number of chars held. */
  function Length(b: Builder): (r: int)
    requires Valid(b)
    ensures r == |Content(b)|
  {
    b.count
  }

  /** `MyAbstractStringBuilder(capacity)`: an empty builder whose array
      holds `capacity` chars; `NegativeArraySizeException` for a negative
      capacity. */
  function NewBuilder(capacity: int): (r: Result<Builder>)
    requires IsInt32(capacity)
    ensures r.Ok? <==> 0 <= capacity
    ensures r.Err? ==> r.error == NegativeArraySize
    ensures r.Ok? ==> Valid(r.value) && Content(r.value) == [] && Capacity(r.value) == capacity
  {
    var a := NewArray(capacity);
    if a.Err? then Err(a.error) else Ok(Builder(a.value, 0))
  }

  // ---------------------------------------------------------------------
  // Capacity

  /** The capacity `expandCapacity(min)` allocates when the array holds
      `capacity` chars: twice the capacity plus two, or `min` when the
      wrapped difference says `min` is more; a negative outcome becomes
      `Integer.MAX_VALUE`, or `OutOfMemoryError` when `min` is itself
      negative. */
  function NewCapacity(capacity: int, min: int): Result<int>
    requires 0 <= capacity <= MAX_VALUE && IsInt32(min)
  {
    var doubled := Wrap(capacity * 2 + 2);
    var n := if Wrap(doubled - min) < 0 then min else doubled;
    if n < 0 then
      if min < 0 then Err(OutOfMemory) else Ok(MAX_VALUE)
    else Ok(n)
  }

  /** What `expandCapacity` promises: without overflow the new capacity is
      `max(2 * capacity + 2, min)`; when doubling overflows a non-negative
      `min` still fits, in `min` or `Integer.MAX_VALUE` chars; only a
      negative `min` throws, and one always does once doubling overflows.
      The result never exceeds `Integer.MAX_VALUE`. */
  lemma NewCapacityCases(capacity: int, min: int)
    requires 0 <= capacity <= MAX_VALUE && IsInt32(min)
    ensures NewCapacity(capacity, min).Err? ==> NewCapacity(capacity, min).error == OutOfMemory && min < 0
    ensures NewCapacity(capacity, min).Ok? ==> 0 <= NewCapacity(capacity, min).value <= MAX_VALUE
    ensures 0 <= min && 2 * capacity + 2 <= MAX_VALUE ==>
      NewCapacity(capacity, min) == Ok(Max(2 * capacity + 2, min))
    ensures 0 <= min && MAX_VALUE < 2 * capacity + 2 && capacity < MAX_VALUE ==>
      NewCapacity(capacity, min) == Ok(min) || NewCapacity(capacity, min) == Ok(MAX_VALUE)
    ensures min < 0 && MAX_VALUE < 2 * capacity + 2 && capacity < MAX_VALUE ==>
      NewCapacity(capacity, min) == Err(OutOfMemory)
    ensures min < MIN_VALUE + capacity && capacity < MAX_VALUE ==>
      NewCapacity(capacity, min) == Err(OutOfMemory)
  {
    var doubled := Wrap(capacity * 2 + 2);
    if 2 * capacity + 2 <= MAX_VALUE {
      assert doubled == 2 * capacity + 2;
      if min < MIN_VALUE + capacity {
        assert Wrap(doubled - min) == doubled - min - 0x1_0000_0000;
      }
    } else if capacity < MAX_VALUE {
      assert doubled == 2 * capacity + 2 - 0x1_0000_0000;
      assert doubled < 0;
    }
  }

  /** `b2` is `b` grown for a minimum `min`: the same count, room for `min`
      chars, the old array at the front and NUL after it, and a capacity of
      `max(2 * capacity + 2, min)` unless doubling overflowed. */
  predicate Grown(b: Builder, b2: Builder, min: int) {
    && b2.count == b.count
    && |b.value| <= |b2.value|
    && min <= |b2.value| <= MAX_VALUE
    && b2.value[..|b.value|] == b.value
    && (forall k :: |b.value| <= k < |b2.value| ==> b2.value[k] == NUL)
    && (2 * |b.value| + 2 <= MAX_VALUE ==> |b2.value| == Max(2 * |b.value| + 2, min))
    && (MAX_VALUE < 2 * |b.value| + 2 ==> |b2.value| == min || |b2.value| == MAX_VALUE)
  }

  /** Growing keeps the content. */
  lemma GrownKeepsContent(b: Builder, b2: Builder, min: int)
    requires Valid(b) && Grown(b, b2, min)
    ensures Valid(b2) && Content(b2) == Content(b)
  {
    assert b2.value[..b.count] == b2.value[..|b.value|][..b.count];
  }

  /** `expandCapacity(min)`: a copy of the array into a new one of the
      capacity `NewCapacity` settles on. */
  method ExpandCapacity(b: Builder, min: int) returns (r: Result<Builder>)
    requires |b.value| <= MAX_VALUE && IsInt32(min)
    ensures r.Err? ==> r.error == OutOfMemory && min < 0
    ensures r.Ok? ==> r.value.count == b.count && |r.value.value| <= MAX_VALUE
    ensures 0 <= min && |b.value| < min ==> r.Ok? && Grown(b, r.value, min)
    ensures min < 0 && MAX_VALUE < 2 * |b.value| + 2 && |b.value| < MAX_VALUE ==> r == Err(OutOfMemory)
    ensures min < MIN_VALUE + |b.value| && |b.value| < MAX_VALUE ==> r == Err(OutOfMemory)
  {
    NewCapacityCases(|b.value|, min);
    var n := NewCapacity(|b.value|, min);
    if n.Err? {
      return Err(n.error);
    }
    var copy := CopyOf(b.value, n.value);
    r := Ok(Builder(copy.value, b.count));
    if 0 <= min && |b.value| < min {
      assert |b.value| < MAX_VALUE;
      assert Min(|b.value|, n.value) == |b.value|;
    }
  }

  /** `ensureCapacityInternal(min)`: grows only when the wrapped difference
      `min - capacity` is positive. A minimum the array already meets
      leaves the builder as it is; a larger one grows it; a minimum that
      overflowed to a negative number far enough below the capacity throws
      `OutOfMemoryError`. */
  method EnsureCapacityInternal(b: Builder, min: int) returns (r: Result<Builder>)
    requires |b.value| <= MAX_VALUE && IsInt32(min)
    ensures r.Ok? ==> r.value.count == b.count && |r.value.value| <= MAX_VALUE
    ensures MIN_VALUE + |b.value| <= min <= |b.value| ==> r == Ok(b)
    ensures |b.value| < min ==> r.Ok? && Grown(b, r.value, min)
    ensures min < MIN_VALUE + |b.value| && |b.value| < MAX_VALUE ==> r == Err(OutOfMemory)
  {
    if min < MIN_VALUE + |b.value| {
      assert Wrap(min - |b.value|) == min - |b.value| + 0x1_0000_0000;
    }
    if Wrap(min - |b.value|) > 0 {
      r := ExpandCapacity(b, min);
    } else {
      r := Ok(b);
    }
  }

  /** `ensureCapacity(min)`: ignores a non-positive minimum, never shrinks,
      and grows exactly when the minimum exceeds the capacity. */
  method EnsureCapacity(b: Builder, min: int) returns (r: Builder)
    requires Valid(b) && IsInt32(min)
    ensures min <= Capacity(b) ==> r == b
    ensures Capacity(b) < min ==> Grown(b, r, min)
    ensures Valid(r) && Content(r) == Content(b) && Capacity(b) <= Capacity(r)
  {
    r := b;
    if min > 0 {
      var e := EnsureCapacityInternal(b, min);
      r := e.value;
      if Capacity(b) < min {
        GrownKeepsContent(b, r, min);
      }
    }
  }

  /** `trimToSize()`: the capacity becomes the count; the content stays. */
  method TrimToSize(b: Builder) returns (r: Builder)
    requires Valid(b)
    ensures Valid(r) && Capacity(r) == b.count && Content(r) == Content(b)
  {
    r := b;
    if b.count < |b.value| {
      var copy := CopyOf(b.value, b.count);
      r := Builder(copy.value, b.count);
    }
  }

  // ---------------------------------------------------------------------
  // Length and single chars

  /** `setLength(n)`: a negative length throws
      `StringIndexOutOfBoundsException`; otherwise the length becomes `n`,
      a shorter content is cut to its first `n` chars and a longer one is
      padded with NUL, and the capacity never shrinks. */
  method SetLength(b: Builder, n: int) returns (r: Result<Builder>)
    requires Valid(b) && IsInt32(n)
    ensures r.Ok? <==> 0 <= n
    ensures r.Err? ==> r.error == StringIndexOutOfBounds
    ensures r.Ok? ==> Valid(r.value) && Length(r.value) == n && Capacity(b) <= Capacity(r.value)
    ensures r.Ok? && n <= b.count ==> Content(r.value) == Content(b)[..n]
    ensures r.Ok? && b.count < n ==> Content(r.value) == Content(b) + Zeros(n - b.count)
  {
    if n < 0 {
      return Err(StringIndexOutOfBounds);
    }
    var e := EnsureCapacityInternal(b, n);
    var grown := e.value;
    if |b.value| < n {
      GrownKeepsContent(b, grown, n);
    }
    assert grown.value[..b.count] == b.value[..b.count];
    var v := grown.value;
    if b.count < n {
      var f := Fill(v, b.count, n, NUL);
      v := f.value;
      assert v[..n] == Content(b) + Zeros(n - b.count) by {
        assert v[..b.count] == grown.value[..b.count];
      }
    } else {
      assert v[..n] == Content(b)[..n];
    }
    return Ok(Builder(v, n));
  }

  /** `charAt(index)`: the char at `index` of the content;
      `StringIndexOutOfBoundsException` outside `[0, count)`. */
  function CharAt(b: Builder, index: int): (r: Result<char>)
    requires Valid(b)
    ensures r.Ok? <==> 0 <= index < Length(b)
    ensures r.Err? ==> r.error == StringIndexOutOfBounds
    ensures r.Ok? ==> r.value == Content(b)[index]
  {
    if index < 0 || index >= b.count then Err(StringIndexOutOfBounds)
    else Ok(b.value[index])
  }

  /** `setCharAt(index, ch)` as written: its guard rejects only
      `index > count`, so `index == count` passes, and the store then
      writes the array slot just past the content (or throws
      `ArrayIndexOutOfBoundsException` when the array is full). Below the
      count it replaces exactly the char at `index`; at the count the
      content does not change. */
  function SetCharAt(b: Builder, index: int, ch: char): (r: Result<Builder>)
    requires Valid(b)
    ensures r.Ok? <==> 0 <= index <= b.count && index < Capacity(b)
    ensures index < 0 || b.count < index ==> r == Err(StringIndexOutOfBounds)
    ensures index == b.count == Capacity(b) ==> r == Err(ArrayIndexOutOfBounds)
    ensures r.Ok? ==> Valid(r.value) && Length(r.value) == Length(b) && Capacity(r.value) == Capacity(b)
    ensures r.Ok? && index < b.count ==> Content(r.value) == Content(b)[index := ch]
    ensures r.Ok? && index == b.count ==> Content(r.value) == Content(b)
  {
    if index < 0 || index > b.count then Err(StringIndexOutOfBounds)
    else if index >= |b.value| then Err(ArrayIndexOutOfBounds)
    else
      var v := b.value[index := ch];
      assert v[..b.count] == if index < b.count then b.value[..b.count][index := ch] else b.value[..b.count];
      Ok(Builder(v, b.count))
  }

  /** The guard lets `setCharAt(count, ch)` through on an empty builder with
      room: the call returns normally, yet the char is not part of the
      content and `charAt(count)` still throws. */
  lemma SetCharAtPastContent()
    ensures var b := Builder(Zeros(16), 0);
      && SetCharAt(b, 0, 'x').Ok?
      && Content(SetCharAt(b, 0, 'x').value) == []
      && CharAt(SetCharAt(b, 0, 'x').value, 0).Err?
  {
    var b := Builder(Zeros(16), 0);
    assert Valid(b);
  }

  /** `setCharAt(index, ch)` with the guard `index >= count`, as for
      `charAt`: defined exactly on `[0, count)`, where it replaces the char
      at `index` and nothing else. */
  function SetCharAtChecked(b: Builder, index: int, ch: char): (r: Result<Builder>)
    requires Valid(b)
    ensures r.Ok? <==> 0 <= index < Length(b)
    ensures r.Err? ==> r.error == StringIndexOutOfBounds
    ensures r.Ok? ==> Valid(r.value) && Capacity(r.value) == Capacity(b)
    ensures r.Ok? ==> Content(r.value) == Content(b)[index := ch]
  {
    if index < 0 || index >= b.count then Err(StringIndexOutOfBounds)
    else
      var v := b.value[index := ch];
      assert v[..b.count] == b.value[..b.count][index := ch];
      Ok(Builder(v, b.count))
  }

  /** After the checked `setCharAt(i, ch)`, `charAt(i)` gives `ch` and every
      other position gives what it gave before. */
  lemma {:induction false} CharAtAfterSetCharAt(b: Builder, i: int, ch: char, j: int)
    requires Valid(b) && 0 <= i < Length(b)
    ensures CharAt(SetCharAtChecked(b, i, ch).value, j) == if j == i then Ok(ch) else CharAt(b, j)
  {
    var b2 := SetCharAtChecked(b, i, ch).value;
    if 0 <= j < Length(b) {
      assert Content(b2)[j] == Content(b)[i := ch][j];
    }
  }

  // ---------------------------------------------------------------------
  // Append

  /** `b2` is `b` with `s` appended: a valid builder whose content is the
      old content followed by `s`, in an array at least as large. */
  predicate Appended(b: Builder, b2: Builder, s: seq<char>)
    requires Valid(b)
  {
    Valid(b2) && Length(b2) == Length(b) + |s| && Content(b2) == Content(b) + s
    && Capacity(b) <= Capacity(b2)
  }

  /** The store `value[index] = ch`, which throws
      `ArrayIndexOutOfBoundsException` outside the array. */
  function Store(value: seq<char>, index: int, ch: char): (r: Result<seq<char>>)
    ensures r.Ok? <==> 0 <= index < |value|
    ensures r.Err? ==> r.error == ArrayIndexOutOfBounds
    ensures r.Ok? ==> r.value == value[index := ch]
  {
    if 0 <= index < |value| then Ok(value[index := ch]) else Err(ArrayIndexOutOfBounds)
  }

  /** `ensureCapacityInternal(count + min)` for an exact `count + min` above
      `Integer.MAX_VALUE`: the wrapped sum either leaves the array as it is
      or throws, and the result is never large enough. */
  lemma OverflowedMinimum(b: Builder, extra: int)
    requires Valid(b) && 0 <= extra <= MAX_VALUE && MAX_VALUE < b.count + extra
    ensures Wrap(b.count + extra) == b.count + extra - 0x1_0000_0000
    ensures Wrap(b.count + extra) <= |b.value|
  {
  }

  /** `appendNull()`: makes room for four more chars, then stores
      `'n'`, `'u'`, `'l'`, `'l'` one by one after the content. */
  method AppendNull(b: Builder) returns (r: Result<Builder>)
    requires Valid(b)
    ensures b.count + 4 <= MAX_VALUE ==> r.Ok? && Appended(b, r.value, "null")
    ensures MAX_VALUE < b.count + 4 ==> r.Err?
  {
    var c := b.count;
    if MAX_VALUE < c + 4 {
      OverflowedMinimum(b, 4);
    }
    var e := EnsureCapacityInternal(b, Wrap(c + 4));
    if e.Err? {
      return Err(e.error);
    }
    var grown := e.value;
    if c + 4 <= MAX_VALUE && |b.value| < c + 4 {
      GrownKeepsContent(b, grown, c + 4);
    }
    var s0 := Store(grown.value, c, 'n');
    if s0.Err? { return Err(s0.error); }
    var s1 := Store(s0.value, c + 1, 'u');
    if s1.Err? { return Err(s1.error); }
    var s2 := Store(s1.value, c + 2, 'l');
    if s2.Err? { return Err(s2.error); }
    var s3 := Store(s2.value, c + 3, 'l');
    if s3.Err? { return Err(s3.error); }
    var v := s3.value;
    assert v[..c + 4] == Content(b) + "null" by {
      assert v[..c] == grown.value[..c];
      assert grown.value[..c] == Content(b);
    }
    return Ok(Builder(v, c + 4));
  }

  /** `append(str)`: a null string appends `"null"`; otherwise makes room
      for `count + str.length()` chars and copies `str` after the content.
      When the exact sum exceeds `Integer.MAX_VALUE` the call throws. The
      `append(StringBuffer)` overload has the same body. */
  method Append(b: Builder, str: Option<seq<char>>) returns (r: Result<Builder>)
    requires Valid(b) && (str.Some? ==> |str.value| <= MAX_VALUE)
    ensures var s := if str.None? then "null" else str.value;
      b.count + |s| <= MAX_VALUE ==> r.Ok? && Appended(b, r.value, s)
    ensures var s := if str.None? then "null" else str.value;
      MAX_VALUE < b.count + |s| ==> r.Err?
  {
    if str.None? {
      r := AppendNull(b);
      return;
    }
    var s := str.value;
    var len := |s|;
    if MAX_VALUE < b.count + len {
      OverflowedMinimum(b, len);
    }
    var e := EnsureCapacityInternal(b, Wrap(b.count + len));
    if e.Err? {
      return Err(e.error);
    }
    var grown := e.value;
    if b.count + len <= MAX_VALUE && |b.value| < b.count + len {
      GrownKeepsContent(b, grown, b.count + len);
    }
    var c := ArrayCopy(s, 0, grown.value, b.count, len);
    if c.Err? {
      return Err(c.error);
    }
    var v := c.value;
    assert v[..b.count + len] == Content(b) + s by {
      assert v[..b.count] == grown.value[..b.count];
      assert grown.value[..b.count] == Content(b);
      assert v[b.count..b.count + len] == s;
    }
    return Ok(Builder(v, Wrap(b.count + len)));
  }

  // ---------------------------------------------------------------------
  // Delete

  /** `delete(start, end)`: `end` is clamped to the count; a negative
      `start` or a `start` past the clamped end throws
      `StringIndexOutOfBoundsException`; otherwise exactly the chars
      `[start, end)` leave the content, and the capacity stays. */
  method Delete(b: Builder, start: int, end: int) returns (r: Result<Builder>)
    requires Valid(b) && IsInt32(start) && IsInt32(end)
    ensures r.Ok? <==> 0 <= start <= Min(end, Length(b))
    ensures r.Err? ==> r.error == StringIndexOutOfBounds
    ensures r.Ok? ==> Valid(r.value) && Capacity(r.value) == Capacity(b)
    ensures r.Ok? ==> Content(r.value) == Content(b)[..start] + Content(b)[Min(end, Length(b))..]
  {
    if start < 0 {
      return Err(StringIndexOutOfBounds);
    }
    var e := end;
    if e > b.count {
      e := b.count;
    }
    if start > e {
      return Err(StringIndexOutOfBounds);
    }
    var len := e - start;
    if len > 0 {
      var c := ArrayCopy(b.value, start + len, b.value, start, b.count - e);
      var v := c.value;
      assert v[..b.count - len] == Content(b)[..start] + Content(b)[e..] by {
        assert v[..b.count - len] == v[..start] + v[start..start + (b.count - e)];
      }
      return Ok(Builder(v, b.count - len));
    }
    assert Content(b) == Content(b)[..start] + Content(b)[e..];
    return Ok(b);
  }

  /** `deleteCharAt(index)`: `StringIndexOutOfBoundsException` outside
      `[0, count)`; otherwise exactly the char at `index` leaves the
      content. */
  method DeleteCharAt(b: Builder, index: int) returns (r: Result<Builder>)
    requires Valid(b) && IsInt32(index)
    ensures r.Ok? <==> 0 <= index < Length(b)
    ensures r.Err? ==> r.error == StringIndexOutOfBounds
    ensures r.Ok? ==> Valid(r.value) && Capacity(r.value) == Capacity(b)
    ensures r.Ok? ==> Content(r.value) == Content(b)[..index] + Content(b)[index + 1..]
  {
    if index < 0 || index >= b.count {
      return Err(StringIndexOutOfBounds);
    }
    var c := ArrayCopy(b.value, index + 1, b.value, index, b.count - index - 1);
    var v := c.value;
    assert v[..b.count - 1] == Content(b)[..index] + Content(b)[index + 1..] by {
      assert v[..b.count - 1] == v[..index] + v[index..index + (b.count - index - 1)];
    }
    return Ok(Builder(v, b.count - 1));
  }

  // ---------------------------------------------------------------------
  // How the operations relate

  /** Deleting the range an append added gives the old content back. */
  method DeleteUndoesAppend(b: Builder, s: seq<char>) returns (r: Result<Builder>)
    requires Valid(b) && b.count + |s| <= MAX_VALUE
    ensures r.Ok? && Valid(r.value) && Content(r.value) == Content(b)
  {
    var a := Append(b, Some(s));
    r := Delete(a.value, b.count, b.count + |s|);
    assert Content(a.value)[..b.count] == Content(b);
  }

  /** Cutting the length back to the old count after an append gives the
      old content back. */
  method SetLengthUndoesAppend(b: Builder, s: seq<char>) returns (r: Result<Builder>)
    requires Valid(b) && b.count + |s| <= MAX_VALUE
    ensures r.Ok? && Valid(r.value) && Content(r.value) == Content(b)
  {
    var a := Append(b, Some(s));
    r := SetLength(a.value, b.count);
    assert Content(a.value)[..b.count] == Content(b);
  }

  /** `deleteCharAt(i)` and `delete(i, i + 1)` agree on every position of
      the content. */
  method DeleteCharAtIsDelete(b: Builder, i: int) returns (one: Result<Builder>, range: Result<Builder>)
    requires Valid(b) && 0 <= i < Length(b)
    ensures one.Ok? && range.Ok? && Valid(one.value) && Valid(range.value)
    ensures Content(one.value) == Content(range.value)
  {
    one := DeleteCharAt(b, i);
    range := Delete(b, i, i + 1);
  }
}
