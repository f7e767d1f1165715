/**
 * The element casts of harp_variable_convert_data_type. Integer to integer
 * casts are written out (two's-complement wrap-around into the target
 * range); every cast that involves a floating-point value goes through
 * caller-supplied functions, since floating-point values are opaque here.
 */
module Conversion {
  import opened HarpTypes

  /** The number of values an integer type holds. */
  function Span(t: DataType): (n: int)
    requires t.IsInteger()
    ensures n == MaxOf(t) - MinOf(t) + 1 && n > 0
  {
    MaxOf(t) - MinOf(t) + 1
  }

  /**
   * The C cast of an integer to an integer type: the value of the type that
   * is congruent to v modulo the size of the type's range.
   */
  function Wrap(v: int, t: DataType): (r: int)
    requires t.IsInteger()
    ensures MinOf(t) <= r <= MaxOf(t)
    ensures (r - v) % Span(t) == 0
  {
    var r := (v - MinOf(t)) % Span(t) + MinOf(t);
    assert r - v == ((v - MinOf(t)) % Span(t)) - (v - MinOf(t));
    r
  }

  /** A value already in range is kept as it is. */
  lemma WrapExact(v: int, t: DataType)
    requires t.IsInteger() && MinOf(t) <= v <= MaxOf(t)
    ensures Wrap(v, t) == v
  {
    assert (v - MinOf(t)) % Span(t) == v - MinOf(t);
  }

  /**
   * The casts that involve floating-point values: an integer to float or to
   * double, a floating-point value to an integer (truncation toward zero),
   * and a double to a float (rounding). A float widened to a double keeps its value.
   */
  datatype FloatCasts = FloatCasts(fromInt: (DataType, int) -> FloatValue, toInt: FloatValue -> int,
                                   narrow: FloatValue -> FloatValue)

  /**
   * The cast of one element from type `from` to type `to`, both numeric. A
   * string element never occurs in a numeric buffer; it maps to the type's zero.
   */
  function Cast(e: Elem, from: DataType, to: DataType, casts: FloatCasts): (r: Elem)
    requires from != String && to != String
    ensures Fits(to, r) && !Owns(r)
    ensures e.IntElem? && to.IsInteger() ==> (r.i - e.i) % Span(to) == 0
  {
    match e
    case IntElem(i) =>
      if to.IsInteger() then IntElem(Wrap(i, to))
      else FloatElem(casts.fromInt(to, i))
    case FloatElem(f) =>
      if to.IsInteger() then IntElem(Wrap(casts.toInt(f), to))
      else FloatElem(if from == Double && to == Float then casts.narrow(f) else f)
    case StrElem(_) => ZeroElem(to)
  }

  /** The cast of a whole buffer, element by element. */
  function ConvertAll(s: seq<Elem>, from: DataType, to: DataType, casts: FloatCasts): (r: seq<Elem>)
    requires from != String && to != String
    ensures |r| == |s| && AllFit(to, r)
    ensures forall i :: 0 <= i < |r| ==> !Owns(r[i])
  {
    seq(|s|, i requires 0 <= i < |s| => Cast(s[i], from, to, casts))
  }

  /**
   * Widening an integer buffer and narrowing it back gives the buffer back:
   * no value of the narrower type is lost on the way.
   */
  lemma WidenRoundTrip(s: seq<Elem>, from: DataType, to: DataType, casts: FloatCasts)
    requires from.IsInteger() && to.IsInteger() && AllFit(from, s)
    requires MinOf(to) <= MinOf(from) && MaxOf(from) <= MaxOf(to)
    ensures ConvertAll(ConvertAll(s, from, to, casts), to, from, casts) == s
  {
    var w := ConvertAll(s, from, to, casts);
    forall i | 0 <= i < |s|
      ensures Cast(w[i], to, from, casts) == s[i]
    {
      assert Fits(from, s[i]);
      WrapExact(s[i].i, to);
      WrapExact(s[i].i, from);
    }
  }

  /**
   * Narrowing an integer buffer keeps every value that the narrower type
   * holds and changes the others by a multiple of the type's range.
   */
  lemma NarrowKeepsInRange(s: seq<Elem>, from: DataType, to: DataType, casts: FloatCasts, i: int)
    requires from.IsInteger() && to.IsInteger() && AllFit(from, s) && 0 <= i < |s|
    ensures var r := ConvertAll(s, from, to, casts);
      r[i].IntElem? && MinOf(to) <= r[i].i <= MaxOf(to) &&
      (MinOf(to) <= s[i].i <= MaxOf(to) ==> r[i] == s[i]) &&
      (r[i].i - s[i].i) % Span(to) == 0
  {
    assert Fits(from, s[i]);
    var r := ConvertAll(s, from, to, casts);
    assert r[i] == IntElem(Wrap(s[i].i, to));
    if MinOf(to) <= s[i].i <= MaxOf(to) {
      WrapExact(s[i].i, to);
    }
  }
}
