/**
 * IntegerConverter: an object becomes an `Integer` by reading its
 * `toString` with `Integer.parseInt`, failing that with
 * `Double.parseDouble` cast to `int`, and failing both it becomes null.
 */
module IntegerConverter {
  import opened Wrappers
  import opened Decimal
  import opened Tree

  /** The two parse attempts on a text, in order. */
  function ParseText(s: string): Option<Int32> {
    match ParseInt(s)
    case Some(i) => Some(i)
    case None =>
      match TruncatedDecimal(s)
      case Some(x) => Some(SaturatingCast(x))
      case None => None
  }

  /**
   * `transform(oldObject)` as written: null stays null, anything else is
   * read back from its `toString`. An integer's text gives the integer,
   * saturated, and the text of a boolean, a list or a map gives null.
   */
  ghost function ByText(v: Value): (r: Option<Int32>)
    ensures v.Int? ==> r == Some(SaturatingCast(v.i))
    ensures r.Some? ==> v.Str? || v.Int?
  {
    TextOfKind(v);
    if v.Null? then None else ParseText(Render(v))
  }

  /** What the two parses make of the text of each kind of value that is not a text. */
  lemma TextOfKind(v: Value)
    ensures v.Int? ==> ParseText(Render(v)) == Some(SaturatingCast(v.i))
    ensures v.Bool? || v.List? || v.Map? ==> ParseText(Render(v)) == None
  {
    match v
    case Str(s) =>
    case Int(i) => IntToStringParses(i);
    case Bool(b) => NoDigitsNoNumber(Render(v));
    case Null =>
    case List(_) => NotNumberStart(Render(v));
    case Map(_) => NotNumberStart(Render(v));
  }

  /**
   * `transform`, by the kind of value: a text is parsed, an integer is cast,
   * and nothing else renders as a number.
   */
  function Transform(v: Value): (r: Option<Int32>)
    ensures v.Int? ==> r == Some(SaturatingCast(v.i))
    ensures r.Some? ==> v.Str? || v.Int?
  {
    match v
    case Str(s) => ParseText(s)
    case Int(i) => Some(SaturatingCast(i))
    case _ => None
  }

  /** Converting by kind is converting through `toString`, for every value. */
  lemma TransformIsByText(v: Value)
    ensures Transform(v) == ByText(v)
  {
  }

  /** An integer in int range, and its decimal text, both convert to that integer. */
  lemma IntRoundTrip(i: Int32)
    ensures Transform(Int(i)) == Some(i)
    ensures Transform(Str(IntToString(i))) == Some(i)
  {
    IntToStringParses(i);
  }

  /**
   * A decimal literal converts to its whole part with its sign, that is,
   * truncated toward zero ("0.3" gives 0, "-2.7" gives -2), saturated to the
   * int range.
   */
  lemma DecimalTruncates(neg: bool, whole: nat, fraction: string)
    requires AllDigits(fraction)
    ensures Transform(Str((if neg then "-" else "") + (NatToString(whole) + "." + fraction)))
      == Some(SaturatingCast(if neg then -(whole as int) else whole))
  {
    NatToStringValue(whole);
    assert |NatToString(whole)| > 0;
    if neg {
      NegativeLiteral(NatToString(whole), fraction);
    } else {
      assert "" + (NatToString(whole) + "." + fraction) == NatToString(whole) + "." + fraction;
      PositiveLiteral(NatToString(whole), fraction);
    }
  }

  /** Text with no ASCII digit converts to null, whatever the default of the calling getter ("text", ""). */
  lemma NoDigitsGivesNull(s: string)
    requires NoDigits(s)
    ensures Transform(Str(s)) == None
  {
    NoDigitsNoNumber(s);
  }
}
