/** StringConverter: an object becomes its `toString`, null stays null. */
module StringConverter {
  import opened Wrappers
  import opened Decimal
  import opened Tree

  /** `transform`: a string is returned as it is; an integer is written in decimal and a boolean as "true" or "false"; a list's text starts with '[' and a map's with '{'. */
  ghost function Transform(v: Value): (r: Option<string>)
    ensures r.None? <==> v.Null?
    ensures v.Str? ==> r == Some(v.s)
    ensures v.Int? ==> r == Some(IntToString(v.i))
    ensures v.Bool? ==> r == Some(if v.b then "true" else "false")
    ensures v.List? ==> r.Some? && |r.value| > 0 && r.value[0] == '['
    ensures v.Map? ==> r.Some? && |r.value| > 0 && r.value[0] == '{'
  {
    RenderFirst(v);
    if v.Null? then None else Some(Render(v))
  }
}
