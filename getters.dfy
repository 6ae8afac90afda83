/**
 * The typed getters of a node. Each reads `getObject(prop)`, returns the
 * default when that is null, and otherwise converts what it found. The
 * one-argument overloads take their default from the options: `returnNull`
 * chooses between null and a zero value for the scalar getters, and
 * `returnEmpty` between null and an empty list for the list getters.
 */
module Getters {
  import opened Wrappers
  import opened Decimal
  import opened Tree
  import opened Engine
  import opened Options
  import opened NodeView
  import IntegerConverter
  import BooleanConverter
  import StringConverter
  import DoubleConverter
  import MapNodeConverter
  import opened CollectionConverter

  /** `getObject(prop)` on the node. */
  function Lookup(n: View, prop: Option<string>): Value
    requires WellFormed(n)
  {
    Resolve(n.base, n.settings.separatorChar, prop)
  }

  ghost function GetStringOr(n: View, prop: Option<string>, dflt: Option<string>): Option<string>
    requires WellFormed(n)
  {
    var out := Lookup(n, prop);
    if out.Null? then dflt else StringConverter.Transform(out)
  }

  ghost function GetString(n: View, prop: Option<string>): Option<string>
    requires WellFormed(n)
  {
    GetStringOr(n, prop, if n.settings.returnNull then None else Some(""))
  }

  function GetIntegerOr(n: View, prop: Option<string>, dflt: Option<Int32>): Option<Int32>
    requires WellFormed(n)
  {
    var out := Lookup(n, prop);
    if out.Null? then dflt else IntegerConverter.Transform(out)
  }

  function GetInteger(n: View, prop: Option<string>): Option<Int32>
    requires WellFormed(n)
  {
    GetIntegerOr(n, prop, if n.settings.returnNull then None else Some(0))
  }

  ghost function GetDoubleOr(parseDouble: string -> Option<real>, n: View, prop: Option<string>, dflt: Option<real>): Option<real>
    requires WellFormed(n)
  {
    var out := Lookup(n, prop);
    if out.Null? then dflt else DoubleConverter.Transform(parseDouble, out)
  }

  ghost function GetDouble(parseDouble: string -> Option<real>, n: View, prop: Option<string>): Option<real>
    requires WellFormed(n)
  {
    GetDoubleOr(parseDouble, n, prop, if n.settings.returnNull then None else Some(0.0))
  }

  function GetBooleanOr(n: View, prop: Option<string>, dflt: Option<bool>): Option<bool>
    requires WellFormed(n)
  {
    var out := Lookup(n, prop);
    if out.Null? then dflt else BooleanConverter.Transform(out)
  }

  function GetBoolean(n: View, prop: Option<string>): Option<bool>
    requires WellFormed(n)
  {
    GetBooleanOr(n, prop, if n.settings.returnNull then None else Some(false))
  }

  /** A map found becomes a node over it that keeps this node's options. */
  function GetMapNodeOr(n: View, prop: Option<string>, dflt: Option<View>): Option<View>
    requires WellFormed(n)
  {
    var out := Lookup(n, prop);
    if out.Null? then dflt
    else if out.Map? then Some(View(out.entries, n.settings))
    else None
  }

  function GetMapNode(n: View, prop: Option<string>): Option<View>
    requires WellFormed(n)
  {
    GetMapNodeOr(n, prop, if n.settings.returnNull then None else Some(View(map[], n.settings)))
  }

  /** Anything but a list gives the default. */
  function GetListOr(n: View, prop: Option<string>, dflt: Option<seq<Value>>): Option<seq<Value>>
    requires WellFormed(n)
  {
    var out := Lookup(n, prop);
    if out.List? then Some(out.items) else dflt
  }

  function GetList(n: View, prop: Option<string>): Option<seq<Value>>
    requires WellFormed(n)
  {
    GetListOr(n, prop, if !n.settings.returnEmpty then None else Some([]))
  }

  /** The list two-argument list getters convert: `getList(prop, null)`. */
  function FoundList(n: View, prop: Option<string>): Option<seq<Value>>
    requires WellFormed(n)
  {
    GetListOr(n, prop, None)
  }

  /** The default of the one-argument list getters. */
  function EmptyDefault<T>(n: View): Option<seq<T>> {
    if !n.settings.returnEmpty then None else Some([])
  }

  function GetIntegerListOr(n: View, prop: Option<string>, dflt: Option<seq<Option<Int32>>>): Option<seq<Option<Int32>>>
    requires WellFormed(n)
  {
    match FoundList(n, prop)
    case None => dflt
    case Some(xs) => Some(ConvertAll(IntegerConverter.Transform, xs))
  }

  function GetIntegerList(n: View, prop: Option<string>): Option<seq<Option<Int32>>>
    requires WellFormed(n)
  {
    GetIntegerListOr(n, prop, EmptyDefault(n))
  }

  ghost function GetDoubleListOr(parseDouble: string -> Option<real>, n: View, prop: Option<string>, dflt: Option<seq<Option<real>>>): Option<seq<Option<real>>>
    requires WellFormed(n)
  {
    match FoundList(n, prop)
    case None => dflt
    case Some(xs) => Some(ConvertAll(v => DoubleConverter.Transform(parseDouble, v), xs))
  }

  ghost function GetDoubleList(parseDouble: string -> Option<real>, n: View, prop: Option<string>): Option<seq<Option<real>>>
    requires WellFormed(n)
  {
    GetDoubleListOr(parseDouble, n, prop, EmptyDefault(n))
  }

  function GetBooleanListOr(n: View, prop: Option<string>, dflt: Option<seq<Option<bool>>>): Option<seq<Option<bool>>>
    requires WellFormed(n)
  {
    match FoundList(n, prop)
    case None => dflt
    case Some(xs) => Some(ConvertAll(BooleanConverter.Transform, xs))
  }

  function GetBooleanList(n: View, prop: Option<string>): Option<seq<Option<bool>>>
    requires WellFormed(n)
  {
    GetBooleanListOr(n, prop, EmptyDefault(n))
  }

  ghost function GetStringListOr(n: View, prop: Option<string>, dflt: Option<seq<Option<string>>>): Option<seq<Option<string>>>
    requires WellFormed(n)
  {
    match FoundList(n, prop)
    case None => dflt
    case Some(xs) => Some(ConvertAll(StringConverter.Transform, xs))
  }

  ghost function GetStringList(n: View, prop: Option<string>): Option<seq<Option<string>>>
    requires WellFormed(n)
  {
    GetStringListOr(n, prop, EmptyDefault(n))
  }

  /** The nodes of `getMapNodeList` come from the converter, so they have default options. */
  function GetMapNodeListOr(n: View, prop: Option<string>, dflt: Option<seq<Option<View>>>): Option<seq<Option<View>>>
    requires WellFormed(n)
  {
    match FoundList(n, prop)
    case None => dflt
    case Some(xs) => Some(ConvertAll(MapNodeConverter.Transform, xs))
  }

  function GetMapNodeList(n: View, prop: Option<string>): Option<seq<Option<View>>>
    requires WellFormed(n)
  {
    GetMapNodeListOr(n, prop, EmptyDefault(n))
  }
}
