/**
 * What the typed getters promise: the default is used exactly when nothing
 * is found, a failed conversion is null even when a default is given, a
 * written scalar reads back through the getter of its type, and list
 * getters see lists only under keys of the base itself.
 */
module GetterLaws {
  import opened Wrappers
  import opened Decimal
  import opened Tree
  import opened Paths
  import opened Engine
  import opened EngineLaws
  import opened Options
  import opened NodeView
  import opened Getters
  import IntegerConverter
  import BooleanConverter
  import StringConverter
  import DoubleConverter
  import MapNodeConverter
  import opened CollectionConverter

  /** Nothing found: every two-argument getter returns its default. */
  lemma AbsentGivesDefault(parseDouble: string -> Option<real>, n: View, prop: Option<string>)
    requires WellFormed(n) && Lookup(n, prop).Null?
    ensures forall d :: GetStringOr(n, prop, d) == d
    ensures forall d :: GetIntegerOr(n, prop, d) == d
    ensures forall d :: GetDoubleOr(parseDouble, n, prop, d) == d
    ensures forall d :: GetBooleanOr(n, prop, d) == d
    ensures forall d :: GetMapNodeOr(n, prop, d) == d
    ensures forall d :: GetListOr(n, prop, d) == d
    ensures forall d :: GetIntegerListOr(n, prop, d) == d
    ensures forall d :: GetDoubleListOr(parseDouble, n, prop, d) == d
    ensures forall d :: GetBooleanListOr(n, prop, d) == d
    ensures forall d :: GetStringListOr(n, prop, d) == d
    ensures forall d :: GetMapNodeListOr(n, prop, d) == d
  {
  }

  /**
   * Something found: each scalar getter returns its converter's result,
   * whatever the default; a failed conversion is null, not the default.
   * `getMapNode` wraps a map with this node's options and gives null for
   * anything else.
   */
  lemma PresentIgnoresDefault(parseDouble: string -> Option<real>, n: View, prop: Option<string>)
    requires WellFormed(n) && !Lookup(n, prop).Null?
    ensures forall d :: GetStringOr(n, prop, d) == StringConverter.Transform(Lookup(n, prop)) != None
    ensures forall d :: GetIntegerOr(n, prop, d) == IntegerConverter.Transform(Lookup(n, prop))
    ensures forall d :: GetDoubleOr(parseDouble, n, prop, d) == DoubleConverter.Transform(parseDouble, Lookup(n, prop))
    ensures forall d :: GetBooleanOr(n, prop, d) == BooleanConverter.Transform(Lookup(n, prop)) != None
    ensures forall d ::
      GetMapNodeOr(n, prop, d) == (if Lookup(n, prop).Map? then Some(View(Lookup(n, prop).entries, n.settings)) else None)
  {
  }

  /**
   * Anything but a list found, a missing value included: `getList` and
   * every typed list getter return their default.
   */
  lemma NonListGivesDefault(parseDouble: string -> Option<real>, n: View, prop: Option<string>)
    requires WellFormed(n) && !Lookup(n, prop).List?
    ensures forall d :: GetListOr(n, prop, d) == d
    ensures forall d :: GetIntegerListOr(n, prop, d) == d
    ensures forall d :: GetDoubleListOr(parseDouble, n, prop, d) == d
    ensures forall d :: GetBooleanListOr(n, prop, d) == d
    ensures forall d :: GetStringListOr(n, prop, d) == d
    ensures forall d :: GetMapNodeListOr(n, prop, d) == d
  {
  }

  /** Text without digits reads as a null integer even when the caller supplies a default. */
  lemma FailedConversionIsNull(n: View, prop: Option<string>, d: Int32)
    requires WellFormed(n) && Lookup(n, prop).Str? && NoDigits(Lookup(n, prop).s)
    ensures GetIntegerOr(n, prop, Some(d)) == None
  {
    IntegerConverter.NoDigitsGivesNull(Lookup(n, prop).s);
  }

  /** The one-argument getters' defaults, chosen by `returnNull` and `returnEmpty`. */
  lemma OneArgumentDefaults(parseDouble: string -> Option<real>, n: View, prop: Option<string>)
    requires WellFormed(n) && Lookup(n, prop).Null?
    ensures GetString(n, prop) == (if n.settings.returnNull then None else Some(""))
    ensures GetInteger(n, prop) == (if n.settings.returnNull then None else Some(0))
    ensures GetDouble(parseDouble, n, prop) == (if n.settings.returnNull then None else Some(0.0))
    ensures GetBoolean(n, prop) == (if n.settings.returnNull then None else Some(false))
    ensures GetMapNode(n, prop) == (if n.settings.returnNull then None else Some(View(map[], n.settings)))
    ensures GetList(n, prop) == (if n.settings.returnEmpty then Some([]) else None)
    ensures GetIntegerList(n, prop) == (if n.settings.returnEmpty then Some([]) else None)
    ensures GetDoubleList(parseDouble, n, prop) == (if n.settings.returnEmpty then Some([]) else None)
    ensures GetBooleanList(n, prop) == (if n.settings.returnEmpty then Some([]) else None)
    ensures GetStringList(n, prop) == (if n.settings.returnEmpty then Some([]) else None)
    ensures GetMapNodeList(n, prop) == (if n.settings.returnEmpty then Some([]) else None)
  {
  }

  /** A null path finds nothing. */
  lemma NullPathFindsNothing(n: View)
    requires WellFormed(n)
    ensures Lookup(n, None) == Null
  {
  }

  /**
   * A separated path never finds a list (a list on the way or at the end is
   * seen through its synthetic map), so every list getter returns its
   * default there.
   */
  lemma SeparatedListsAreDefaults(parseDouble: string -> Option<real>, n: View, p: string)
    requires WellFormed(n) && Separated(p, n.settings.separatorChar)
    ensures forall d :: GetListOr(n, Some(p), d) == d
    ensures forall d :: GetIntegerListOr(n, Some(p), d) == d
    ensures forall d :: GetDoubleListOr(parseDouble, n, Some(p), d) == d
    ensures forall d :: GetBooleanListOr(n, Some(p), d) == d
    ensures forall d :: GetStringListOr(n, Some(p), d) == d
    ensures forall d :: GetMapNodeListOr(n, Some(p), d) == d
  {
    NonListGivesDefault(parseDouble, n, Some(p));
  }

  /**
   * A list under a key of the base: `getList` returns it, and each list
   * getter returns one converted element per element, failures included as
   * null.
   */
  lemma ListGetters(parseDouble: string -> Option<real>, n: View, k: string, xs: seq<Value>)
    requires WellFormed(n) && !Separated(k, n.settings.separatorChar) && k != ""
    requires Get(n.base, k) == List(xs)
    ensures GetList(n, Some(k)) == Some(xs)
    ensures var r := GetIntegerList(n, Some(k));
      r.Some? && |r.value| == |xs| && forall i :: 0 <= i < |xs| ==> r.value[i] == IntegerConverter.Transform(xs[i])
    ensures var r := GetDoubleList(parseDouble, n, Some(k));
      r.Some? && |r.value| == |xs| && forall i :: 0 <= i < |xs| ==> r.value[i] == DoubleConverter.Transform(parseDouble, xs[i])
    ensures var r := GetBooleanList(n, Some(k));
      r.Some? && |r.value| == |xs| && forall i :: 0 <= i < |xs| ==> r.value[i] == BooleanConverter.Transform(xs[i])
    ensures var r := GetStringList(n, Some(k));
      r.Some? && |r.value| == |xs| && forall i :: 0 <= i < |xs| ==> r.value[i] == StringConverter.Transform(xs[i])
    ensures var r := GetMapNodeList(n, Some(k));
      r.Some? && |r.value| == |xs| && forall i :: 0 <= i < |xs| ==> r.value[i] == MapNodeConverter.Transform(xs[i])
  {
  }

  /**
   * `getMapNode` passes the node's own options on, while the nodes of
   * `getMapNodeList` get default options.
   */
  lemma MapNodeOptionsPassedOn(n: View, k: string, m: map<string, Value>, xs: seq<Value>, i: nat)
    requires WellFormed(n) && !Separated(k, n.settings.separatorChar) && k != ""
    requires Get(n.base, k) == Map(m) || (Get(n.base, k) == List(xs) && i < |xs| && xs[i].Map?)
    ensures Get(n.base, k) == Map(m) ==> GetMapNode(n, Some(k)) == Some(View(m, n.settings))
    ensures Get(n.base, k) == List(xs) ==>
      GetMapNodeList(n, Some(k)).value[i] == Some(View(xs[i].entries, Defaults))
  {
  }

  /** A path readable after a write: a key of the base, or a separated path along maps. */
  ghost predicate Addressable(base: map<string, Value>, c: char, p: string) {
    (p != "" && c !in p) || ChainPath(base, c, p)
  }

  /**
   * Writing a value and reading it back through the getter of its type
   * gives the value: an int-range integer, a string, a boolean, or a map
   * (as a node with the same options). On a separated path a list comes
   * back as its synthetic map.
   */
  lemma WriteThenTypedRead(n: View, c: char, p: string, v: Value)
    requires n.settings.separatorChar == [c] && Addressable(n.base, c, p)
    ensures var n' := View(Store(n.base, [c], Some(p), v), n.settings);
      WellFormed(n')
      && Lookup(n', Some(p)) == (if c in p then ReadBack(v) else v)
      && (v.Int? && INT_MIN <= v.i <= INT_MAX ==> GetInteger(n', Some(p)) == Some(v.i))
      && (v.Str? ==> GetString(n', Some(p)) == Some(v.s))
      && (v.Bool? ==> GetBoolean(n', Some(p)) == Some(v.b))
      && (v.Map? ==> GetMapNode(n', Some(p)) == Some(View(v.entries, n.settings)))
  {
    if c in p {
      PutThenGet(n.base, c, p, v);
    }
    if v.Int? && INT_MIN <= v.i <= INT_MAX {
      IntegerConverter.IntRoundTrip(v.i);
    }
  }

  /** An integer and its decimal text read the same through `getInteger`, `getString` and `getBoolean`. */
  lemma IntegerAndTextAgree(n: View, prop: Option<string>, n2: View, i: Int32)
    requires WellFormed(n) && WellFormed(n2) && n.settings == n2.settings
    requires Lookup(n, prop) == Int(i) && Lookup(n2, prop) == Str(IntToString(i))
    ensures GetInteger(n, prop) == GetInteger(n2, prop) == Some(i)
    ensures GetString(n, prop) == GetString(n2, prop)
    ensures GetBoolean(n, prop) == GetBoolean(n2, prop) == Some(false)
  {
    IntegerConverter.IntRoundTrip(i);
    var s := IntToString(i);
    assert !BooleanConverter.SpellsTrue(s) by {
      if |s| == 4 {
        assert s[0] == '-' || IsDigit(s[0]);
      }
    }
  }

  /**
   * The empty path reads the whole base: `getMapNode("")` is a node equal to
   * this one, `getInteger("")` is null, `getBoolean("")` false, and the list
   * getters give their defaults.
   */
  lemma EmptyPathIsTheNode(n: View, d: Option<seq<Value>>)
    requires WellFormed(n) && |n.settings.separatorChar| == 1
    ensures Lookup(n, Some("")) == Map(n.base)
    ensures GetMapNode(n, Some("")) == Some(n)
    ensures GetInteger(n, Some("")) == None
    ensures GetBoolean(n, Some("")) == Some(false)
    ensures GetListOr(n, Some(""), d) == d
  {
  }

  /** A map's text is never a number. */
  lemma MapIsNoNumber(m: map<string, Value>)
    ensures IntegerConverter.ByText(Map(m)) == None
  {
    IntegerConverter.TransformIsByText(Map(m));
  }
}
