/**
 * The behaviour the repository's own tests exercise, stated for all bases
 * and keys: reading and writing through one or two levels of maps and
 * lists, the quirks of a step through a missing or scalar value, and the
 * empty and null paths.
 */
module Scenarios {
  import opened Wrappers
  import opened Decimal
  import opened Tree
  import opened Paths
  import opened Engine

  /** A key holding no separator. */
  predicate Plain(k: string, c: char) {
    k != "" && c !in k
  }

  /** `a` + separator + `b` is separated and splits into `a` and `b`. */
  lemma TwoSegments(a: string, b: string, c: char)
    requires Plain(a, c) && Plain(b, c)
    ensures Separated(a + [c] + b, [c]) && Segments(a + [c] + b, [c]) == [a, b]
  {
    var xs := [a, b];
    assert Join(xs[1..], c) == b;
    assert Join(xs, c) == a + [c] + b;
    SplitJoin(xs, c);
    JoinHasSeparator(xs, c);
  }

  /** Three plain keys joined by the separator split back into the three. */
  lemma ThreeSegments(a: string, b: string, k: string, c: char)
    requires Plain(a, c) && Plain(b, c) && Plain(k, c)
    ensures Separated(a + [c] + b + [c] + k, [c]) && Segments(a + [c] + b + [c] + k, [c]) == [a, b, k]
  {
    var xs := [a, b, k];
    assert xs[1..][1..] == [k];
    assert Join(xs[1..], c) == b + [c] + k;
    assert Join(xs, c) == a + [c] + b + [c] + k;
    SplitJoin(xs, c);
    JoinHasSeparator(xs, c);
  }

  /** `getObject("list.key")` with a map under "list" reads that map's "key". */
  lemma ReadThroughMap(base: map<string, Value>, c: char, a: string, b: string, m: map<string, Value>)
    requires Plain(a, c) && Plain(b, c) && Get(base, a) == Map(m)
    ensures Resolve(base, [c], Some(a + [c] + b)) == ReadBack(Get(m, b))
  {
    TwoSegments(a, b, c);
    assert [a, b][1..] == [b] && [b][1..] == [];
    assert Resolve(base, [c], Some(a + [c] + b)) == Walk(base, [a, b], Null);
    assert Walk(base, [a, b], Null) == Walk(m, [b], Map(m));
  }

  /**
   * A step through a scalar does not move the walk: `getObject("a.b")` with
   * a string under "a" reads "b" of the base itself.
   */
  lemma ReadThroughScalar(base: map<string, Value>, c: char, a: string, b: string)
    requires Plain(a, c) && Plain(b, c) && IsScalar(Get(base, a))
    ensures Resolve(base, [c], Some(a + [c] + b)) == ReadBack(Get(base, b))
  {
    TwoSegments(a, b, c);
    assert [a, b][1..] == [b] && [b][1..] == [];
    assert Resolve(base, [c], Some(a + [c] + b)) == Walk(base, [a, b], Null);
    assert Walk(base, [a, b], Null) == Walk(base, [b], Get(base, a));
  }

  /** A step through a missing value reads null: `getObject("a.b")` without "a" (any depth: `EngineLaws.ReadThroughMissing`). */
  lemma ReadThroughMissing(base: map<string, Value>, c: char, a: string, b: string)
    requires Plain(a, c) && Plain(b, c) && Get(base, a) == Null
    ensures Resolve(base, [c], Some(a + [c] + b)) == Null
  {
    TwoSegments(a, b, c);
    assert [a, b][1..] == [b] && [b][1..] == [];
    assert Resolve(base, [c], Some(a + [c] + b)) == Walk(base, [a, b], Null);
  }

  /** `getObject("keyldren.0")` reads element 0 of the list under "keyldren" (a list element as its synthetic map). */
  lemma ReadListElement(base: map<string, Value>, c: char, a: string, xs: seq<Value>, i: nat)
    requires Plain(a, c) && c !in IndexKey(i) && Get(base, a) == List(xs) && i < |xs|
    ensures Resolve(base, [c], Some(a + [c] + IndexKey(i))) == ReadBack(xs[i])
  {
    NatToStringValue(i);
    TwoSegments(a, IndexKey(i), c);
    assert [a, IndexKey(i)][1..] == [IndexKey(i)] && [IndexKey(i)][1..] == [];
    var k := IndexKey(i);
    assert Resolve(base, [c], Some(a + [c] + k)) == Walk(base, [a, k], Null);
    assert Walk(base, [a, k], Null) == Walk(Synthetic(xs), [k], Map(Synthetic(xs)));
    assert Get(Synthetic(xs), k) == xs[i];
  }

  /** `setObject("list.key", v)` with a map under "list" puts into that map. */
  lemma WriteThroughMap(base: map<string, Value>, c: char, a: string, b: string, m: map<string, Value>, v: Value)
    requires Plain(a, c) && Plain(b, c) && Get(base, a) == Map(m)
    ensures Store(base, [c], Some(a + [c] + b), v) == base[a := Map(m[b := v])]
  {
    TwoSegments(a, b, c);
    assert [a, b][1..] == [b] && [b][1..] == [];
    assert Store(base, [c], Some(a + [c] + b), v) == SetWalk(Map(base), AtMap([]), [a, b], v).entries;
    assert [] + [a] == [a];
    assert SetWalk(Map(base), AtMap([]), [a, b], v) == SetWalk(Map(base), AtMap([a]), [b], v);
    assert [a][1..] == [];
    assert EditAt(Map(base), [a], Put(b, v)) == Map(base[a := Map(m[b := v])]);
  }

  /**
   * A missing intermediate is created as an empty map, but the walk does not
   * enter it: `setObject("a.b.k", v)` on a base without "a" and "b" puts all
   * three keys into the base itself.
   */
  lemma AutocreateStaysFlat(base: map<string, Value>, c: char, a: string, b: string, k: string, v: Value)
    requires Plain(a, c) && Plain(b, c) && Plain(k, c) && a != b
    requires a !in base && b !in base
    ensures Store(base, [c], Some(a + [c] + b + [c] + k), v) == base[a := Map(map[])][b := Map(map[])][k := v]
  {
    ThreeSegments(a, b, k, c);
    assert [a, b, k][1..] == [b, k] && [b, k][1..] == [k] && [k][1..] == [];
    var p := a + [c] + b + [c] + k;
    var r1 := Map(base[a := Map(map[])]);
    var r2 := Map(base[a := Map(map[])][b := Map(map[])]);
    assert Store(base, [c], Some(p), v) == SetWalk(Map(base), AtMap([]), [a, b, k], v).entries;
    assert SetWalk(Map(base), AtMap([]), [a, b, k], v) == SetWalk(r1, AtMap([]), [b, k], v);
    assert SetWalk(r1, AtMap([]), [b, k], v) == SetWalk(r2, AtMap([]), [k], v);
  }

  /** A scalar intermediate is overwritten with an empty map, and the walk stays where it was. */
  lemma ScalarIntermediateReplaced(base: map<string, Value>, c: char, a: string, b: string, v: Value)
    requires Plain(a, c) && Plain(b, c) && a != b && IsScalar(Get(base, a))
    ensures Store(base, [c], Some(a + [c] + b), v) == base[a := Map(map[])][b := v]
  {
    TwoSegments(a, b, c);
    assert [a, b][1..] == [b] && [b][1..] == [];
    var r1 := Map(base[a := Map(map[])]);
    assert Store(base, [c], Some(a + [c] + b), v) == SetWalk(Map(base), AtMap([]), [a, b], v).entries;
    assert SetWalk(Map(base), AtMap([]), [a, b], v) == SetWalk(r1, AtMap([]), [b], v);
  }

  /** `setObject("keyldren.0", v)`: a put into a list's synthetic map is lost, so the base is unchanged. */
  lemma WriteIntoListLost(base: map<string, Value>, c: char, a: string, k: string, xs: seq<Value>, v: Value)
    requires Plain(a, c) && Plain(k, c) && Get(base, a) == List(xs)
    ensures Store(base, [c], Some(a + [c] + k), v) == base
  {
    TwoSegments(a, k, c);
    assert [a, k][1..] == [k] && [k][1..] == [];
    assert Store(base, [c], Some(a + [c] + k), v) == SetWalk(Map(base), AtMap([]), [a, k], v).entries;
    assert SetWalk(Map(base), AtMap([]), [a, k], v) == SetWalk(Map(base), AtList([a], {}), [k], v);
  }

  /** A map inside a list is the list's own element, so a put into it is kept. */
  lemma WriteThroughListElement(base: map<string, Value>, c: char, a: string, xs: seq<Value>, i: nat, k: string, e: map<string, Value>, v: Value)
    requires Plain(a, c) && Plain(k, c) && c !in IndexKey(i)
    requires Get(base, a) == List(xs) && i < |xs| && xs[i] == Map(e)
    ensures Store(base, [c], Some(a + [c] + IndexKey(i) + [c] + k), v) == base[a := List(xs[i := Map(e[k := v])])]
  {
    NatToStringValue(i);
    IndexOfKey(i);
    ThreeSegments(a, IndexKey(i), k, c);
    assert [a, IndexKey(i), k][1..] == [IndexKey(i), k] && [IndexKey(i), k][1..] == [k] && [k][1..] == [];
    var j := IndexKey(i);
    var p := a + [c] + j + [c] + k;
    assert Store(base, [c], Some(p), v) == SetWalk(Map(base), AtMap([]), [a, j, k], v).entries;
    assert [] + [a] == [a] && [a] + [j] == [a, j] && [a, j][1..] == [j] && [j][1..] == [];
    assert SetWalk(Map(base), AtMap([]), [a, j, k], v) == SetWalk(Map(base), AtList([a], {}), [j, k], v);
    assert ValueAt(Map(base), [a]) == List(xs);
    assert CursorGet(Map(base), AtList([a], {}), j) == Map(e);
    assert SetWalk(Map(base), AtList([a], {}), [j, k], v) == SetWalk(Map(base), AtMap([a, j]), [k], v);
    assert EditAt(List(xs), [j], Put(k, v)) == List(xs[i := Map(e[k := v])]);
    assert EditAt(Map(base), [a, j], Put(k, v)) == Map(base[a := List(xs[i := Map(e[k := v])])]);
  }

  /** `removeObject("list.key")` leaves an empty map under "list" when "key" was its only entry. */
  lemma RemoveThroughMap(base: map<string, Value>, c: char, a: string, b: string, m: map<string, Value>)
    requires Plain(a, c) && Plain(b, c) && Get(base, a) == Map(m)
    ensures Remove(base, [c], Some(a + [c] + b)) == Success(base[a := Map(m - {b})])
  {
    TwoSegments(a, b, c);
    assert [a, b][1..] == [b] && [b][1..] == [];
    assert [] + [a] == [a];
    assert RemoveWalk(Map(base), Some([]), [a, b]) == RemoveWalk(Map(base), Some([a]), [b]);
    assert [a][1..] == [];
    assert EditAt(Map(base), [a], Delete(b)) == Map(base[a := Map(m - {b})]);
  }

  /**
   * The empty path and the null path: `getObject("")` is the base,
   * `removeObject("")` empties it, `setObject("", m)` makes a map the base
   * (holding its old self under ""), `setObject("", v)` stores any other
   * value under "" beside the other keys, and a null path reads null and
   * changes nothing.
   */
  lemma EmptyAndNullPaths(base: map<string, Value>, sep: string, m: map<string, Value>, v: Value)
    requires |sep| == 1
    ensures Resolve(base, sep, Some("")) == Map(base)
    ensures Remove(base, sep, Some("")) == Success(map[])
    ensures Store(base, sep, Some(""), Map(m)) == m["" := Map(m)]
    ensures Store(base, sep, Some(""), Map(m)).Keys == m.Keys + {""}
    ensures !v.Map? ==> Store(base, sep, Some(""), v) == base["" := v]
    ensures Resolve(base, sep, None) == Null
    ensures Store(base, sep, None, v) == base && Remove(base, sep, None) == Success(base)
  {
  }

  /** With '*' as separator (options test): `getObject("list*key")` reads "key" of the map under "list". */
  lemma StarSeparator()
    ensures Resolve(map["list" := Map(map["key" := Str("value")])], "*", Some("list*key")) == Str("value")
  {
    ReadThroughMap(map["list" := Map(map["key" := Str("value")])], '*', "list", "key", map["key" := Str("value")]);
    assert "list" + ['*'] + "key" == "list*key";
  }
}
