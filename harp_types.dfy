/**
 * The value types shared by the HARP variable engine and array utilities:
 * data types, dimension types, the elements of a data buffer and the
 * ownership of the C strings a string buffer points to.
 */
module HarpTypes {
  import opened Wrappers

  /** HARP_MAX_NUM_DIMS from harp.h (harp.h is not part of this model). */
  const MaxNumDims: int := 8

  /** harp_data_type. The enumeration is closed: every value is one of these. */
  datatype DataType = Int8 | Int16 | Int32 | Float | Double | String
  {
    predicate IsInteger() { Int8? || Int16? || Int32? }
    predicate IsFloating() { Float? || Double? }
  }

  /** harp_dimension_type; `Independent` is the unnamed dimension type. */
  datatype DimType = Independent | Time | Latitude | Longitude | Vertical | Spectral

  /** Error codes a failing HARP call leaves in harp_errno. */
  datatype ErrorCode = InvalidArgument | InvalidVariable | OutOfMemory

  /**
   * A floating-point value is an opaque token: only NaN, +0.0 and the two
   * infinities are told apart from the other bit patterns.
   */
  datatype FloatValue = NaN | Zero | MinusInf | PlusInf | Bits(pattern: nat)

  /** The characters of a C string before its terminating NUL, which therefore hold no NUL. */
  type CText = s: string | '\0' !in s witness ""

  /**
   * A heap-allocated, NUL-terminated C string. Object identity is pointer
   * identity: two elements share a string exactly when they hold the same object.
   */
  class CString {
    const text: CText

    constructor (t: CText)
      ensures text == t
    {
      text := t;
    }
  }

  /** One element of a variable's data buffer; `StrElem(null)` is a NULL string. */
  datatype Elem = IntElem(i: int) | FloatElem(f: FloatValue) | StrElem(s: CString?)

  /** What an element means, forgetting which allocation holds a string. */
  datatype Value = IntValue(i: int) | FloatVal(f: FloatValue) | StrValue(text: Option<string>)

  function Content(e: Elem): Value
  {
    match e
    case IntElem(i) => IntValue(i)
    case FloatElem(f) => FloatVal(f)
    case StrElem(p) => StrValue(if p == null then None else Some(p.text))
  }

  function Contents(s: seq<Elem>): (r: seq<Value>)
    ensures |r| == |s|
    ensures forall i :: 0 <= i < |s| ==> r[i] == Content(s[i])
  {
    seq(|s|, i requires 0 <= i < |s| => Content(s[i]))
  }

  /** The element points to a string it owns (a non-NULL string pointer). */
  predicate Owns(e: Elem)
  {
    e.StrElem? && e.s != null
  }

  /** The strings the buffer points to. */
  ghost function Ptrs(s: seq<Elem>): set<CString>
  {
    set i | 0 <= i < |s| && Owns(s[i]) :: s[i].s
  }

  /** No string is pointed to by two elements: every string has exactly one owner. */
  ghost predicate Unique(s: seq<Elem>)
  {
    forall i, j :: 0 <= i < |s| && 0 <= j < |s| && i != j && Owns(s[i]) ==> s[i] != s[j]
  }

  /** The smallest and largest value an integer type holds (two's complement). */
  function MinOf(t: DataType): int
    requires t.IsInteger()
  {
    match t
    case Int8 => -0x80
    case Int16 => -0x8000
    case Int32 => -0x8000_0000
  }

  function MaxOf(t: DataType): int
    requires t.IsInteger()
  {
    match t
    case Int8 => 0x7f
    case Int16 => 0x7fff
    case Int32 => 0x7fff_ffff
  }

  /** The value is one of data type `t`. */
  predicate ValueFits(t: DataType, v: Value)
  {
    match t
    case Int8 | Int16 | Int32 => v.IntValue? && MinOf(t) <= v.i <= MaxOf(t)
    case Float | Double => v.FloatVal?
    case String => v.StrValue?
  }

  /** The element is a value of data type `t`; this depends on its contents only. */
  predicate Fits(t: DataType, e: Elem)
  {
    ValueFits(t, Content(e))
  }

  predicate AllFit(t: DataType, s: seq<Elem>)
  {
    forall i :: 0 <= i < |s| ==> Fits(t, s[i])
  }

  /** The value an all-zero-bytes element has (memset 0): 0, +0.0 or NULL. */
  function ZeroElem(t: DataType): (e: Elem)
    ensures Fits(t, e) && !Owns(e)
  {
    match t
    case Int8 | Int16 | Int32 => IntElem(0)
    case Float | Double => FloatElem(Zero)
    case String => StrElem(null)
  }

  /** The fill value of a type: 0 for integers, NaN for floating point, NULL for strings. */
  function FillElem(t: DataType): (e: Elem)
    ensures Fits(t, e) && !Owns(e)
  {
    match t
    case Int8 | Int16 | Int32 => IntElem(0)
    case Float | Double => FloatElem(NaN)
    case String => StrElem(null)
  }
}
