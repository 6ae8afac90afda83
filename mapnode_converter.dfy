/** MapNodeConverter: a map becomes a node over that map with default options; anything else becomes null. */
module MapNodeConverter {
  import opened Wrappers
  import opened Tree
  import opened Options
  import opened NodeView

  function Transform(v: Value): (r: Option<View>)
    ensures r.Some? <==> v.Map?
    ensures r.Some? ==> r.value.base == v.entries && r.value.settings == Defaults && WellFormed(r.value)
  {
    match v
    case Map(m) => Some(View(m, Defaults))
    case _ => None
  }
}
