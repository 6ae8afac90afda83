/**
 * DoubleConverter: an object becomes a `Double` by `Double.parseDouble` of
 * its `toString`, null when that throws. Floating-point parsing is a
 * parameter: `parseDouble(s)` is the double the JDK reads from `s`, or
 * `None` when it throws `NumberFormatException`.
 */
module DoubleConverter {
  import opened Wrappers
  import opened Tree
  import opened StringConverter

  ghost function Transform(parseDouble: string -> Option<real>, v: Value): (r: Option<real>)
    ensures v.Null? ==> r.None?
    ensures v.Str? ==> r == parseDouble(v.s)
    ensures !v.Null? ==> r == parseDouble(StringConverter.Transform(v).value)
  {
    match StringConverter.Transform(v)
    case None => None
    case Some(s) => parseDouble(s)
  }
}
