/**
 * What `getObject`, `setObject` and `removeObject` do to a node's base map,
 * as functions of the base, the separator and the path. A path that
 * contains the separator is split into segments and walked one segment at a
 * time; any other path is a single key of the base.
 *
 * Java's walks hold a reference `newBase` to the map they are in. Here that
 * reference is the address of the map inside the tree (a `Cursor`), so that
 * a write through it is an edit at that address. A list on the way is
 * entered through a synthetic map built for the step, which is not part of
 * the tree: writes into it, and into maps put into it, are lost.
 */
module Engine {
  import opened Wrappers
  import opened Tree
  import opened Paths

  /**
   * `prop.contains(separatorChar)`: every text contains the empty string,
   * and a text contains a one-character separator exactly when splitting on
   * it, empty pieces kept, gives more than one piece.
   */
  predicate Separated(p: string, sep: string)
    requires |sep| <= 1
    ensures sep == "" ==> Separated(p, sep)
    ensures |sep| == 1 ==> (Separated(p, sep) <==> |RawSplit(p, sep[0])| > 1)
  {
    if sep == "" then true
    else RawSplitSingle(p, sep[0]); sep[0] in p
  }

  /** Each character on its own: splitting on the empty pattern. */
  function Chars(p: string): (r: seq<string>)
    ensures |r| == |p|
    ensures forall i :: 0 <= i < |p| ==> r[i] == [p[i]]
    decreases |p|
  {
    if p == [] then [] else [[p[0]]] + Chars(p[1..])
  }

  /**
   * `prop.split(Pattern.quote(separatorChar))`. The empty separator matches
   * between all characters, and the empty text splits into itself.
   */
  function Segments(p: string, sep: string): (r: seq<string>)
    requires |sep| <= 1
    ensures |sep| == 1 ==> r == SplitPath(p, sep[0])
    ensures sep == "" && p == "" ==> r == [""]
    ensures sep == "" && p != "" ==> r == Chars(p)
  {
    if |sep| == 1 then SplitPath(p, sep[0])
    else if p == "" then [""]
    else Chars(p)
  }

  /** What a separated read returns for the value found at its last step: a list comes back as its synthetic map. */
  function ReadBack(v: Value): (r: Value)
    ensures !r.List?
    ensures !v.List? ==> r == v
    ensures v.List? ==> r.Map? && r.entries == Synthetic(v.items)
  {
    if v.List? then Map(Synthetic(v.items)) else v
  }

  // ---------------------------------------------------------------------
  // getObject
  // ---------------------------------------------------------------------

  /**
   * The loop of `getObject` over the remaining segments, in map `cur`, with
   * `out` the value found so far. A missing value ends the walk with null; a
   * map is entered; a list is entered through its synthetic map; any other
   * value becomes the result while the walk stays in `cur`.
   */
  function Walk(cur: map<string, Value>, segs: seq<string>, out: Value): (r: Value)
    ensures segs != [] || !out.List? ==> !r.List?
    ensures segs == [] ==> r == out
    decreases |segs|
  {
    if segs == [] then out
    else
      var got := Get(cur, segs[0]);
      match got
      case Null => Null
      case Map(m) => Walk(m, segs[1..], got)
      case List(xs) => Walk(Synthetic(xs), segs[1..], Map(Synthetic(xs)))
      case _ => Walk(cur, segs[1..], got)
  }

  /** `getObject(prop)`, with `None` for a null `prop`. */
  function Resolve(base: map<string, Value>, sep: string, prop: Option<string>): (r: Value)
    requires |sep| <= 1
    ensures prop.Some? && Separated(prop.value, sep) ==> !r.List?
  {
    match prop
    case None => Null
    case Some(p) =>
      if Separated(p, sep) then Walk(base, Segments(p, sep), Null)
      else if p == "" then Map(base)
      else Get(base, p)
  }

  // ---------------------------------------------------------------------
  // setObject
  // ---------------------------------------------------------------------

  /**
   * Where `setObject`'s `newBase` points: the map at an address of the tree;
   * the synthetic map of the list at an address, together with the keys the
   * walk has put new maps under in it; or a map outside the tree.
   */
  datatype Cursor =
    | AtMap(path: seq<string>)
    | AtList(path: seq<string>, made: set<string>)
    | Detached(m: map<string, Value>)

  /** `newBase.get(seg)`. */
  function CursorGet(root: Value, c: Cursor, seg: string): Value {
    match c
    case AtMap(p) => Child(ValueAt(root, p), seg)
    case AtList(p, made) => if seg in made then Map(map[]) else Child(ValueAt(root, p), seg)
    case Detached(m) => Get(m, seg)
  }

  /** `newBase = (Map) got` for a map `got`. */
  function EnterMap(c: Cursor, seg: string, got: map<string, Value>): Cursor {
    match c
    case AtMap(p) => AtMap(p + [seg])
    case AtList(p, made) => if seg in made then Detached(got) else AtMap(p + [seg])
    case Detached(_) => Detached(got)
  }

  /** `newBase = newMap`, the synthetic map of list `got`. */
  function EnterList(c: Cursor, seg: string, got: seq<Value>): Cursor {
    match c
    case AtMap(p) => AtList(p + [seg], {})
    case AtList(p, _) => AtList(p + [seg], {})
    case Detached(_) => Detached(Synthetic(got))
  }

  /**
   * The loop of `setObject` over the remaining segments. The last segment is
   * put into the map the cursor points at. Before it, a missing or non-map,
   * non-list value is replaced by a new empty map, and the walk stays where
   * it is; a map or a list is entered.
   */
  function SetWalk(root: Value, c: Cursor, segs: seq<string>, v: Value): (r: Value)
    ensures r.Map? <==> root.Map?
    ensures root.Map? ==> root.entries.Keys <= r.entries.Keys
    decreases |segs|
  {
    if segs == [] then root
    else
      var seg := segs[0];
      if |segs| == 1 then
        if c.AtMap? then EditAt(root, c.path, Put(seg, v)) else root
      else
        match CursorGet(root, c, seg)
        case Map(m) => SetWalk(root, EnterMap(c, seg, m), segs[1..], v)
        case List(xs) => SetWalk(root, EnterList(c, seg, xs), segs[1..], v)
        case _ =>
          match c
          case AtMap(p) => SetWalk(EditAt(root, p, Put(seg, Map(map[]))), c, segs[1..], v)
          case AtList(p, made) => SetWalk(root, AtList(p, made + {seg}), segs[1..], v)
          case Detached(m) => SetWalk(root, Detached(m[seg := Map(map[])]), segs[1..], v)
  }

  /**
   * The base after `setObject(prop, value)`. The empty key with a map value
   * makes that map the base and then stores it in itself under "": the
   * stored copy is the map as it was before the `put`.
   */
  function Store(base: map<string, Value>, sep: string, prop: Option<string>, v: Value): (r: map<string, Value>)
    requires |sep| <= 1
    ensures prop.Some? && (prop.value != "" || !v.Map?) ==> base.Keys <= r.Keys
  {
    match prop
    case None => base
    case Some(p) =>
      if Separated(p, sep) then SetWalk(Map(base), AtMap([]), Segments(p, sep), v).entries
      else if p == "" && v.Map? then v.entries[p := v]
      else base[p := v]
  }

  // ---------------------------------------------------------------------
  // removeObject
  // ---------------------------------------------------------------------

  /**
   * The loop of `removeObject` over the remaining segments, with `at` the
   * address of the map `newBase` refers to, or `None` once it is null. The
   * last segment is removed from that map. Before it, a map is entered; a
   * missing value is cast to a null map, on which the next `get` throws; any
   * other value fails the cast and ends the call with nothing removed.
   */
  function RemoveWalk(root: Value, at: Option<seq<string>>, segs: seq<string>): (r: Result<Value>)
    ensures r.Success? && root.Map? ==> r.value.Map? && r.value.entries.Keys <= root.entries.Keys
    decreases |segs|
  {
    if segs == [] then Success(root)
    else
      match at
      case None => Failure(NullPointerException)
      case Some(p) =>
        if |segs| == 1 then Success(EditAt(root, p, Delete(segs[0])))
        else
          match Child(ValueAt(root, p), segs[0])
          case Null => RemoveWalk(root, None, segs[1..])
          case Map(_) => RemoveWalk(root, Some(p + [segs[0]]), segs[1..])
          case _ => Success(root)
  }

  /** The base after `removeObject(prop)`, or the exception it throws. */
  function Remove(base: map<string, Value>, sep: string, prop: Option<string>): (r: Result<map<string, Value>>)
    requires |sep| <= 1
    ensures prop.Some? && prop.value != "" && r.Success? ==> r.value.Keys <= base.Keys
    ensures prop.Some? && !Separated(prop.value, sep) ==> r.Success? && prop.value !in r.value
  {
    match prop
    case None => Success(base)
    case Some(p) =>
      if Separated(p, sep) then
        match RemoveWalk(Map(base), Some([]), Segments(p, sep))
        case Success(root) => Success(root.entries)
        case Failure(e) => Failure(e)
      else if p == "" then Success(map[])
      else Success(base - {p})
  }
}
