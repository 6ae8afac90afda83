/**
 * The untyped document tree a MapNode wraps: the values a
 * `Map<String, Object>` parsed from YAML or JSON holds, the synthetic map
 * through which a list is addressed by position, edits at an address inside
 * the tree, and Java's `toString` of a value.
 */
module Tree {
  import opened Wrappers
  import opened Decimal

  /** A document value. `Null` is Java's `null`, stored or missing. */
  datatype Value =
    | Str(s: string)
    | Int(i: int)
    | Bool(b: bool)
    | Null
    | List(items: seq<Value>)
    | Map(entries: map<string, Value>)

  predicate IsScalar(v: Value) {
    v.Str? || v.Int? || v.Bool?
  }

  /** `Map.get`: a missing key and a key bound to null both read as `Null`. */
  function Get(m: map<string, Value>, k: string): Value {
    if k in m then m[k] else Null
  }

  /** The key that stands for list position `i`: `Integer.toString(i)`. */
  function IndexKey(i: nat): string {
    NatToString(i)
  }

  /** The list position a key stands for, when it is a canonical decimal. */
  function IndexOf(k: string): Option<nat> {
    if Canonical(k) then Some(DigitsValue(k)) else None
  }

  lemma IndexOfKey(i: nat)
    ensures IndexOf(IndexKey(i)) == Some(i)
  {
    NatToStringValue(i);
  }

  lemma KeyOfIndex(k: string)
    requires IndexOf(k).Some?
    ensures IndexKey(IndexOf(k).value) == k
  {
    CanonicalRoundTrip(k);
  }

  /** Keys and positions correspond one to one. */
  lemma IndexKeysBijective()
    ensures forall i: nat {:trigger IndexKey(i)} :: IndexOf(IndexKey(i)) == Some(i)
    ensures forall k {:trigger IndexOf(k)} :: IndexOf(k).Some? ==> IndexKey(IndexOf(k).value) == k
  {
    forall i: nat ensures IndexOf(IndexKey(i)) == Some(i) {
      IndexOfKey(i);
    }
    forall k | IndexOf(k).Some? ensures IndexKey(IndexOf(k).value) == k {
      KeyOfIndex(k);
    }
  }

  /** The element a key selects from a list, `Null` when it selects none. */
  function ListChild(xs: seq<Value>, k: string): Value {
    match IndexOf(k)
    case Some(i) => if i < |xs| then xs[i] else Null
    case None => Null
  }

  /** The map from "0", "1", ... to the elements of a list, built fresh at every list step of a path. */
  function Synthetic(xs: seq<Value>): (m: map<string, Value>)
    ensures m.Keys == set i | 0 <= i < |xs| :: IndexKey(i)
    ensures forall i :: 0 <= i < |xs| ==> m[IndexKey(i)] == xs[i]
    ensures forall k :: Get(m, k) == ListChild(xs, k)
  {
    IndexKeysBijective();
    map k | k in (set i | 0 <= i < |xs| :: IndexKey(i)) :: ListChild(xs, k)
  }

  /** The child a path step selects: a map entry, or a list element through the synthetic map. */
  function Child(v: Value, k: string): Value {
    match v
    case Map(m) => Get(m, k)
    case List(xs) => ListChild(xs, k)
    case _ => Null
  }

  /** The value at an address (a sequence of steps) below `root`, `Null` when there is none. */
  function ValueAt(root: Value, path: seq<string>): Value
    decreases |path|
  {
    if path == [] then root else ValueAt(Child(root, path[0]), path[1..])
  }

  /** Every map the address passes through, including the last one, is a map. */
  ghost predicate MapsAlong(root: Value, path: seq<string>) {
    forall j :: 0 <= j <= |path| ==> ValueAt(root, path[..j]).Map?
  }

  /** Neither address is a prefix of the other. */
  predicate Diverges(p: seq<string>, q: seq<string>)
    decreases |p|
  {
    |p| > 0 && |q| > 0 && (p[0] != q[0] || Diverges(p[1..], q[1..]))
  }

  /** What `put` or `remove` does to the map it is called on. */
  datatype Edit = Put(key: string, val: Value) | Delete(key: string)

  function Apply(m: map<string, Value>, e: Edit): map<string, Value> {
    match e
    case Put(k, v) => m[k := v]
    case Delete(k) => m - {k}
  }

  /**
   * The tree after `e` is applied to the map at `path`. Addresses that do not
   * lead to a map leave the tree as it is.
   */
  function EditAt(root: Value, path: seq<string>, e: Edit): (r: Value)
    ensures r.Map? <==> root.Map?
    ensures r.List? <==> root.List?
    ensures root.List? ==> |r.items| == |root.items|
    decreases |path|
  {
    if path == [] then
      if root.Map? then Map(Apply(root.entries, e)) else root
    else
      match root
      case Map(m) =>
        if path[0] in m then Map(m[path[0] := EditAt(m[path[0]], path[1..], e)]) else root
      case List(xs) =>
        (match IndexOf(path[0])
         case Some(i) => if i < |xs| then List(xs[i := EditAt(xs[i], path[1..], e)]) else root
         case None => root)
      case _ => root
  }

  /** One more step on an address is one more `Child`. */
  lemma {:induction false} ValueAtSnoc(root: Value, p: seq<string>, s: string)
    ensures ValueAt(root, p + [s]) == Child(ValueAt(root, p), s)
    decreases |p|
  {
    if p == [] {
      assert ([] + [s])[1..] == [];
    } else {
      assert (p + [s])[1..] == p[1..] + [s];
      ValueAtSnoc(Child(root, p[0]), p[1..], s);
    }
  }

  /** Stepping into an edited tree along the edit's own address steps into the edited child. */
  lemma ChildOfEdit(root: Value, path: seq<string>, e: Edit)
    requires |path| > 0
    ensures Child(EditAt(root, path, e), path[0]) == EditAt(Child(root, path[0]), path[1..], e)
  {
    match root
    case Map(m) =>
    case List(xs) =>
      match IndexOf(path[0]) {
        case Some(i) =>
        case None =>
      }
    case _ =>
  }

  /** Below an address prefix, an edit looks like the same edit on the subtree. */
  lemma {:induction false} ValueAtEdit(root: Value, path: seq<string>, q: seq<string>, e: Edit)
    requires |q| <= |path| && q == path[..|q|]
    ensures ValueAt(EditAt(root, path, e), q) == EditAt(ValueAt(root, q), path[|q|..], e)
    decreases |q|
  {
    if q != [] {
      ChildOfEdit(root, path, e);
      ValueAtEdit(Child(root, path[0]), path[1..], q[1..], e);
      assert path[1..][|q| - 1..] == path[|q|..];
    }
  }

  /** After an edit at the address of a map, that map is the edited map. */
  lemma EditTarget(root: Value, path: seq<string>, e: Edit)
    requires ValueAt(root, path).Map?
    ensures ValueAt(EditAt(root, path, e), path) == Map(Apply(ValueAt(root, path).entries, e))
  {
    ValueAtEdit(root, path, path, e);
  }

  /** An edit keeps every map on its own address a map. */
  lemma EditKeepsMapsAlong(root: Value, path: seq<string>, e: Edit)
    requires MapsAlong(root, path)
    ensures MapsAlong(EditAt(root, path, e), path)
  {
    forall j | 0 <= j <= |path| ensures ValueAt(EditAt(root, path, e), path[..j]).Map? {
      ValueAtEdit(root, path, path[..j], e);
      assert ValueAt(root, path[..j]).Map?;
    }
  }

  /** An edit changes nothing at an address that branches off its own. */
  lemma {:induction false} EditFrame(root: Value, path: seq<string>, q: seq<string>, e: Edit)
    requires Diverges(path, q)
    ensures ValueAt(EditAt(root, path, e), q) == ValueAt(root, q)
    decreases |q|
  {
    var s, t := q[0], path[0];
    if s == t {
      ChildOfEdit(root, path, e);
      EditFrame(Child(root, t), path[1..], q[1..], e);
    } else {
      assert Child(EditAt(root, path, e), s) == Child(root, s) by {
        match root
        case Map(m) =>
        case List(xs) =>
          if IndexOf(s).Some? && IndexOf(t).Some? && IndexOf(s) == IndexOf(t) {
            KeyOfIndex(s);
            KeyOfIndex(t);
          }
        case _ =>
      }
    }
  }

  /** Reading along `p + s` is reading `s` below the value at `p`. */
  lemma {:induction false} ValueAtAppend(root: Value, p: seq<string>, s: seq<string>)
    ensures ValueAt(root, p + s) == ValueAt(ValueAt(root, p), s)
    decreases |p|
  {
    if p != [] {
      assert (p + s)[0] == p[0];
      assert (p + s)[1..] == p[1..] + s;
      ValueAtAppend(Child(root, p[0]), p[1..], s);
    } else {
      assert p + s == s;
    }
  }

  /** An edit of one key leaves the subtrees under the map's other keys as they were. */
  lemma SiblingFrame(root: Value, path: seq<string>, e: Edit, q: seq<string>)
    requires ValueAt(root, path).Map?
    requires |q| > |path| && q[..|path|] == path && q[|path|] != e.key
    ensures ValueAt(EditAt(root, path, e), q) == ValueAt(root, q)
  {
    var rest := q[|path|..];
    assert q == path + rest;
    ValueAtAppend(root, path, rest);
    ValueAtAppend(EditAt(root, path, e), path, rest);
    EditTarget(root, path, e);
    assert rest == [rest[0]] + rest[1..];
    ValueAtAppend(ValueAt(root, path), [rest[0]], rest[1..]);
    ValueAtAppend(ValueAt(EditAt(root, path, e), path), [rest[0]], rest[1..]);
  }

  /** Java `toString` of a value. Map entries come in an order the model leaves unspecified, as a `HashMap`'s do. */
  ghost function Render(v: Value): (r: string)
    ensures !v.Str? ==> |r| > 0
    ensures v.Int? ==> r[0] == '-' || IsDigit(r[0])
    ensures v.List? ==> r[0] == '[' && r[|r| - 1] == ']'
    ensures v.Map? ==> r[0] == '{' && r[|r| - 1] == '}'
    decreases v, 1, 0
  {
    match v
    case Str(s) => s
    case Int(i) => IntToString(i)
    case Bool(b) => if b then "true" else "false"
    case Null => "null"
    case List(xs) => "[" + RenderItems(xs, 0) + "]"
    case Map(m) => "{" + RenderEntries(m, m.Keys) + "}"
  }

  /** `AbstractCollection.toString` body: the elements from position `i` on, separated by ", ". */
  ghost function RenderItems(xs: seq<Value>, i: nat): string
    requires i <= |xs|
    decreases List(xs), 0, |xs| - i
  {
    if i == |xs| then ""
    else Render(xs[i]) + (if i == |xs| - 1 then "" else ", " + RenderItems(xs, i + 1))
  }

  /** `AbstractMap.toString` body: the entries with keys in `keys` as "key=value", separated by ", ". */
  ghost function RenderEntries(m: map<string, Value>, keys: set<string>): string
    requires keys <= m.Keys
    decreases Map(m), 0, |keys|
  {
    if keys == {} then ""
    else
      var k :| k in keys;
      k + "=" + Render(m[k]) + (if |keys| == 1 then "" else ", " + RenderEntries(m, keys - {k}))
  }

  /** The rendering of a list starts with '[', of a map with '{', and of an integer with '-' or a digit. */
  lemma RenderFirst(v: Value)
    ensures !v.Str? ==> |Render(v)| > 0
    ensures v.List? ==> Render(v)[0] == '['
    ensures v.Map? ==> Render(v)[0] == '{'
    ensures v.Int? ==> Render(v)[0] == '-' || IsDigit(Render(v)[0])
  {
  }
}
