/** The constructors of `MyString`: an immutable `char[]` and a cached hash
    that starts at 0. A `char[]` argument that may be null is an `Option`. */
module JavaString {
  import opened Wrappers
  import opened JavaInt
  import opened JavaArrays

  /** A string: its chars and the cached hash (0 until computed). */
  datatype JString = JString(value: seq<char>, hash: int)

  /** `MyString()`: the empty string. */
  function NewString(): (r: JString)
    ensures |r.value| == 0 && r.hash == 0
  {
    JString(Zeros(0), 0)
  }

  /** `MyString(original)`: the same chars and the same cached hash;
      `NullPointerException` for a null original. */
  function FromString(original: Option<JString>): (r: Result<JString>)
    ensures r.Err? <==> original.None?
    ensures r.Err? ==> r.error == NullPointer
    ensures r.Ok? ==> r.value.value == original.value.value && r.value.hash == original.value.hash
  {
    if original.None? then Err(NullPointer)
    else Ok(JString(original.value.value, original.value.hash))
  }

  /** `MyString(char[] value)`: a copy of every char of `value`;
      `NullPointerException` for a null array. */
  method FromChars(value: Option<seq<char>>) returns (r: Result<JString>)
    ensures r.Err? <==> value.None?
    ensures r.Err? ==> r.error == NullPointer
    ensures r.Ok? ==> r.value.value == value.value && r.value.hash == 0
  {
    if value.None? {
      return Err(NullPointer);
    }
    var copy := CopyOf(value.value, |value.value|);
    return Ok(JString(copy.value, 0));
  }

  /** `MyString(char[] value, int offset, int count)`: the `count` chars of
      `value` from `offset`. A negative offset, then a negative count, then
      a range running past the end of the array throws
      `StringIndexOutOfBoundsException`; the array is dereferenced only
      after the first two checks, so a null array with a negative offset or
      count throws the index exception, not `NullPointerException`. */
  method FromRange(value: Option<seq<char>>, offset: int, count: int) returns (r: Result<JString>)
    requires value.Some? ==> |value.value| <= MAX_VALUE
    requires IsInt32(offset) && IsInt32(count)
    ensures offset < 0 ==> r == Err(StringIndexOutOfBounds)
    ensures count < 0 ==> r == Err(StringIndexOutOfBounds)
    ensures 0 <= offset && 0 <= count && value.None? ==> r == Err(NullPointer)
    ensures value.Some? && |value.value| < offset + count ==> r == Err(StringIndexOutOfBounds)
    ensures r.Ok? <==> value.Some? && 0 <= offset && 0 <= count && offset + count <= |value.value|
    ensures r.Ok? ==> r.value.value == value.value[offset..offset + count] && r.value.hash == 0
  {
    if offset < 0 {
      return Err(StringIndexOutOfBounds);
    }
    if count < 0 {
      return Err(StringIndexOutOfBounds);
    }
    if value.None? {
      return Err(NullPointer);
    }
    if offset > |value.value| - count {
      return Err(StringIndexOutOfBounds);
    }
    var copy := CopyOfRange(value.value, offset, offset + count);
    return Ok(JString(copy.value, 0));
  }

  /** The range constructor over the whole array builds the same string as
      the array constructor. */
  method WholeRangeIsCopy(value: seq<char>) returns (whole: Result<JString>, copy: Result<JString>)
    requires |value| <= MAX_VALUE
    ensures whole.Ok? && whole == copy
  {
    whole := FromRange(Some(value), 0, |value|);
    copy := FromChars(Some(value));
    assert value[0..0 + |value|] == value;
  }
}
