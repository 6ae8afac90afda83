/**
 * BooleanConverter: an object becomes a `Boolean` by
 * `Boolean.parseBoolean` of its `toString`: true exactly for "true" in any
 * mix of case, false for everything else that is not null.
 */
module BooleanConverter {
  import opened Wrappers
  import opened Decimal
  import opened Tree

  /** Lower case for ASCII letters. */
  function LowerAscii(c: char): char {
    if 'A' <= c <= 'Z' then (c as int + 32) as char else c
  }

  /** `Boolean.parseBoolean`: `"true".equalsIgnoreCase(s)`, on ASCII case; it accepts exactly the spellings of "true". */
  function ParseBoolean(s: string): (r: bool)
    ensures r <==> SpellsTrue(s)
  {
    if |s| != 4 then false
    else
      assert LowerAscii(s[0]) == 't' <==> s[0] in "tT";
      assert LowerAscii(s[1]) == 'r' <==> s[1] in "rR";
      assert LowerAscii(s[2]) == 'u' <==> s[2] in "uU";
      assert LowerAscii(s[3]) == 'e' <==> s[3] in "eE";
      forall i :: 0 <= i < 4 ==> LowerAscii(s[i]) == "true"[i]
  }

  /** The spellings of "true" letter by letter. */
  predicate SpellsTrue(s: string) {
    |s| == 4 && s[0] in "tT" && s[1] in "rR" && s[2] in "uU" && s[3] in "eE"
  }

  /**
   * `transform(oldObject)` as written: null stays null, anything else is
   * read from its `toString`, and only the boolean true and the spellings of
   * "true" read as true.
   */
  ghost function ByText(v: Value): (r: Option<bool>)
    ensures r.None? <==> v.Null?
    ensures r == Some(true) <==> v == Bool(true) || (v.Str? && SpellsTrue(v.s))
  {
    TextOfKind(v);
    if v.Null? then None else Some(ParseBoolean(Render(v)))
  }

  /** The text of an integer, a list or a map never reads as true: it starts with a sign, a digit or a bracket. */
  lemma TextOfKind(v: Value)
    ensures v.Int? || v.List? || v.Map? ==> !ParseBoolean(Render(v))
  {
    if v.Int? || v.List? || v.Map? {
      assert LowerAscii(Render(v)[0]) != 't';
    }
  }

  /** `transform`, by the kind of value. */
  function Transform(v: Value): (r: Option<bool>)
    ensures r.None? <==> v.Null?
    ensures r == Some(true) <==> v == Bool(true) || (v.Str? && SpellsTrue(v.s))
  {
    match v
    case Null => None
    case Bool(b) => Some(b)
    case Str(s) => Some(ParseBoolean(s))
    case _ => Some(false)
  }

  /** Converting by kind is converting through `toString`, for every value. */
  lemma TransformIsByText(v: Value)
    ensures Transform(v) == ByText(v)
  {
  }

  /** A boolean's text converts back to the boolean. */
  lemma BoolRoundTrip(b: bool)
    ensures Transform(Str(Render(Bool(b)))) == Some(b)
    ensures Transform(Bool(b)) == Some(b)
  {
  }
}
