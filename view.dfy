/** A node's observable state as a value: the base map it wraps and its option settings. */
module NodeView {
  import opened Tree
  import opened Options

  datatype View = View(base: map<string, Value>, settings: Settings)

  /** The separator is one the options setters accept. */
  predicate WellFormed(n: View) {
    AcceptedSeparator(n.settings.separatorChar)
  }
}
