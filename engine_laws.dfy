/**
 * What the path walks of a node amount to, stated against the tree's own
 * addressing (`ValueAt`, `EditAt`): along a chain of maps a separated path
 * reads, writes and removes exactly the addressed entry; off such a chain
 * the walks have the effects the Java code gives them.
 */
module EngineLaws {
  import opened Wrappers
  import opened Decimal
  import opened Tree
  import opened Paths
  import opened Engine

  /** The address prefixes `p + init[..j]` all lead to maps. */
  ghost predicate MapsBelow(root: Value, p: seq<string>, init: seq<string>) {
    forall j :: 0 <= j <= |init| ==> ValueAt(root, p + init[..j]).Map?
  }

  lemma MapsBelowStep(root: Value, p: seq<string>, init: seq<string>)
    requires |init| > 0 && MapsBelow(root, p, init)
    ensures MapsBelow(root, p + [init[0]], init[1..])
  {
    forall j | 0 <= j <= |init| - 1
      ensures ValueAt(root, p + [init[0]] + init[1..][..j]).Map?
    {
      assert p + [init[0]] + init[1..][..j] == p + init[..j + 1];
    }
  }

  lemma MapsAlongBelow(root: Value, init: seq<string>)
    requires MapsAlong(root, init)
    ensures MapsBelow(root, [], init)
  {
    forall j | 0 <= j <= |init| ensures ValueAt(root, [] + init[..j]).Map? {
      assert [] + init[..j] == init[..j];
    }
  }

  // ---------------------------------------------------------------------
  // The walks along a chain of maps
  // ---------------------------------------------------------------------

  /** Along maps, `getObject`'s walk returns the addressed value, a list as its synthetic map. */
  lemma {:induction false} WalkAlongMaps(cur: map<string, Value>, init: seq<string>, last: string, out: Value)
    requires MapsAlong(Map(cur), init)
    ensures Walk(cur, init + [last], out) == ReadBack(ValueAt(Map(cur), init + [last]))
    decreases |init|
  {
    if init == [] {
      assert ([] + [last])[1..] == [];
      assert ValueAt(Map(cur), [last]) == ValueAt(Get(cur, last), []);
    } else {
      var seg := init[0];
      assert ValueAt(Map(cur), init[..1]) == Get(cur, seg);
      var m := Get(cur, seg).entries;
      assert (init + [last])[0] == seg && (init + [last])[1..] == init[1..] + [last];
      forall j | 0 <= j <= |init| - 1 ensures ValueAt(Map(m), init[1..][..j]).Map? {
        assert init[..j + 1] == [seg] + init[1..][..j];
        assert ValueAt(Map(cur), init[..j + 1]).Map?;
      }
      WalkAlongMaps(m, init[1..], last, Get(cur, seg));
    }
  }

  /** Along maps, `getObject`'s walk ends with null at the first step that finds nothing, whatever follows. */
  lemma {:induction false} WalkThroughMissing(cur: map<string, Value>, init: seq<string>, k: string, rest: seq<string>, out: Value)
    requires MapsAlong(Map(cur), init) && ValueAt(Map(cur), init + [k]) == Null
    ensures Walk(cur, init + [k] + rest, out) == Null
    decreases |init|
  {
    if init == [] {
      assert ([] + [k] + rest)[0] == k;
      assert ValueAt(Map(cur), [k]) == ValueAt(Get(cur, k), []);
    } else {
      var seg := init[0];
      assert ValueAt(Map(cur), init[..1]) == Get(cur, seg);
      var m := Get(cur, seg).entries;
      assert (init + [k] + rest)[0] == seg && (init + [k] + rest)[1..] == init[1..] + [k] + rest;
      forall j | 0 <= j <= |init| - 1 ensures ValueAt(Map(m), init[1..][..j]).Map? {
        assert init[..j + 1] == [seg] + init[1..][..j];
        assert ValueAt(Map(cur), init[..j + 1]).Map?;
      }
      assert (init + [k])[1..] == init[1..] + [k];
      WalkThroughMissing(m, init[1..], k, rest, Get(cur, seg));
    }
  }

  /** Along maps, `setObject`'s walk is a `put` into the addressed map. */
  lemma {:induction false} SetWalkAlongMaps(root: Value, p: seq<string>, init: seq<string>, last: string, v: Value)
    requires MapsBelow(root, p, init)
    ensures SetWalk(root, AtMap(p), init + [last], v) == EditAt(root, p + init, Put(last, v))
    decreases |init|
  {
    if init == [] {
      assert p + init == p;
    } else {
      var seg := init[0];
      assert p + init[..1] == p + [seg];
      ValueAtSnoc(root, p, seg);
      assert (init + [last])[0] == seg && (init + [last])[1..] == init[1..] + [last];
      MapsBelowStep(root, p, init);
      SetWalkAlongMaps(root, p + [seg], init[1..], last, v);
      assert p + [seg] + init[1..] == p + init;
    }
  }

  /** Along maps, `removeObject`'s walk is a `remove` from the addressed map. */
  lemma {:induction false} RemoveWalkAlongMaps(root: Value, p: seq<string>, init: seq<string>, last: string)
    requires MapsBelow(root, p, init)
    ensures RemoveWalk(root, Some(p), init + [last]) == Success(EditAt(root, p + init, Delete(last)))
    decreases |init|
  {
    if init == [] {
      assert p + init == p;
    } else {
      var seg := init[0];
      assert p + init[..1] == p + [seg];
      ValueAtSnoc(root, p, seg);
      assert (init + [last])[0] == seg && (init + [last])[1..] == init[1..] + [last];
      MapsBelowStep(root, p, init);
      RemoveWalkAlongMaps(root, p + [seg], init[1..], last);
      assert p + [seg] + init[1..] == p + init;
    }
  }

  // ---------------------------------------------------------------------
  // Separated paths whose segments run along maps
  // ---------------------------------------------------------------------

  /** A separated path whose segments before the last lead through maps of the base. */
  ghost predicate ChainPath(base: map<string, Value>, c: char, p: string) {
    var segs := SplitPath(p, c);
    c in p && |segs| >= 1 && MapsAlong(Map(base), segs[..|segs| - 1])
  }

  lemma ChainSplit(base: map<string, Value>, c: char, p: string) returns (init: seq<string>, last: string)
    requires ChainPath(base, c, p)
    ensures SplitPath(p, c) == init + [last] && MapsAlong(Map(base), init)
    ensures Separated(p, [c]) && Segments(p, [c]) == init + [last]
    ensures ValueAt(Map(base), init).Map?
  {
    var segs := SplitPath(p, c);
    init, last := segs[..|segs| - 1], segs[|segs| - 1];
    assert segs == init + [last];
    assert init[..|init|] == init;
  }

  /** `getObject` on a chain path returns the value the segments address. */
  lemma GetAlongMaps(base: map<string, Value>, c: char, p: string)
    requires ChainPath(base, c, p)
    ensures Resolve(base, [c], Some(p)) == ReadBack(ValueAt(Map(base), SplitPath(p, c)))
  {
    var init, last := ChainSplit(base, c, p);
    WalkAlongMaps(base, init, last, Null);
  }

  /**
   * `setObject` on a chain path puts the value into the addressed map, a
   * later `getObject` of the same path returns it (a list as its synthetic
   * map), and the path stays a chain path.
   */
  lemma PutThenGet(base: map<string, Value>, c: char, p: string, v: Value)
    requires ChainPath(base, c, p)
    ensures var init := SplitPath(p, c)[..|SplitPath(p, c)| - 1];
      Map(Store(base, [c], Some(p), v)) == EditAt(Map(base), init, Put(SplitPath(p, c)[|SplitPath(p, c)| - 1], v))
    ensures ChainPath(Store(base, [c], Some(p), v), c, p)
    ensures Resolve(Store(base, [c], Some(p), v), [c], Some(p)) == ReadBack(v)
  {
    var init, last := ChainSplit(base, c, p);
    MapsAlongBelow(Map(base), init);
    SetWalkAlongMaps(Map(base), [], init, last, v);
    assert [] + init == init;
    var root' := EditAt(Map(base), init, Put(last, v));
    EditKeepsMapsAlong(Map(base), init, Put(last, v));
    EditTarget(Map(base), init, Put(last, v));
    ValueAtSnoc(root', init, last);
    GetAlongMaps(root'.entries, c, p);
  }

  /** `setObject` on a chain path changes nothing at an address that branches off the written one. */
  lemma PutFrame(base: map<string, Value>, c: char, p: string, v: Value, q: seq<string>)
    requires ChainPath(base, c, p)
    requires Diverges(SplitPath(p, c), q)
    ensures ValueAt(Map(Store(base, [c], Some(p), v)), q) == ValueAt(Map(base), q)
  {
    var init, last := ChainSplit(base, c, p);
    PutThenGet(base, c, p, v);
    DivergesExtend(init, last, q);
    if Diverges(init, q) {
      EditFrame(Map(base), init, q, Put(last, v));
    } else {
      SiblingFrame(Map(base), init, Put(last, v), q);
    }
  }

  /** An address that branches off `p + [k]` branches off `p`, or runs through `p` into a key other than `k`. */
  lemma {:induction false} DivergesExtend(p: seq<string>, k: string, q: seq<string>)
    requires Diverges(p + [k], q)
    ensures Diverges(p, q) || (|q| > |p| && q[..|p|] == p && q[|p|] != k)
    decreases |p|
  {
    if p != [] && p[0] == q[0] {
      assert (p + [k])[1..] == p[1..] + [k];
      DivergesExtend(p[1..], k, q[1..]);
      if !Diverges(p[1..], q[1..]) {
        assert q[..|p|] == [q[0]] + q[1..][..|p| - 1];
        assert p == [p[0]] + p[1..];
      }
    }
  }

  /** `removeObject` on a chain path removes the addressed entry, after which `getObject` finds nothing. */
  lemma RemoveThenGet(base: map<string, Value>, c: char, p: string)
    requires ChainPath(base, c, p)
    ensures var init := SplitPath(p, c)[..|SplitPath(p, c)| - 1];
      Remove(base, [c], Some(p)).Success?
      && Map(Remove(base, [c], Some(p)).value) == EditAt(Map(base), init, Delete(SplitPath(p, c)[|SplitPath(p, c)| - 1]))
    ensures Resolve(Remove(base, [c], Some(p)).value, [c], Some(p)) == Null
  {
    var init, last := ChainSplit(base, c, p);
    MapsAlongBelow(Map(base), init);
    RemoveWalkAlongMaps(Map(base), [], init, last);
    assert [] + init == init;
    var root' := EditAt(Map(base), init, Delete(last));
    EditKeepsMapsAlong(Map(base), init, Delete(last));
    EditTarget(Map(base), init, Delete(last));
    ValueAtSnoc(root', init, last);
    GetAlongMaps(root'.entries, c, p);
  }

  // ---------------------------------------------------------------------
  // Off the chain
  // ---------------------------------------------------------------------

  /** `getObject` reads null when a segment finds nothing, at any depth of a chain of maps and whatever follows it. */
  lemma ReadThroughMissing(base: map<string, Value>, c: char, p: string, init: seq<string>, k: string, rest: seq<string>)
    requires c in p && SplitPath(p, c) == init + [k] + rest
    requires MapsAlong(Map(base), init)
    requires ValueAt(Map(base), init + [k]) == Null
    ensures Resolve(base, [c], Some(p)) == Null
  {
    WalkThroughMissing(base, init, k, rest, Null);
  }

  /** `removeObject` throws when a segment before the last finds nothing. */
  lemma RemoveThroughMissing(base: map<string, Value>, c: char, p: string, init: seq<string>, k: string, rest: seq<string>)
    requires c in p && SplitPath(p, c) == init + [k] + rest && |rest| >= 1
    requires MapsAlong(Map(base), init)
    requires ValueAt(Map(base), init + [k]) == Null
    ensures Remove(base, [c], Some(p)) == Failure(NullPointerException)
  {
    MapsAlongBelow(Map(base), init);
    RemoveWalkPrefix(Map(base), [], init, k, rest);
    assert [] + init == init;
    ValueAtSnoc(Map(base), init, k);
  }

  /** `removeObject` does nothing when a segment before the last finds a value that is neither null nor a map. */
  lemma RemoveThroughNonMap(base: map<string, Value>, c: char, p: string, init: seq<string>, k: string, rest: seq<string>)
    requires c in p && SplitPath(p, c) == init + [k] + rest && |rest| >= 1
    requires MapsAlong(Map(base), init)
    requires var got := ValueAt(Map(base), init + [k]); got != Null && !got.Map?
    ensures Remove(base, [c], Some(p)) == Success(base)
  {
    MapsAlongBelow(Map(base), init);
    RemoveWalkPrefix(Map(base), [], init, k, rest);
    assert [] + init == init;
    ValueAtSnoc(Map(base), init, k);
  }

  /** Along maps, `removeObject`'s walk reaches the step for segment `k` with everything before it entered. */
  lemma {:induction false} RemoveWalkPrefix(root: Value, p: seq<string>, init: seq<string>, k: string, rest: seq<string>)
    requires MapsBelow(root, p, init) && |rest| >= 1
    ensures RemoveWalk(root, Some(p), init + [k] + rest)
      == (match Child(ValueAt(root, p + init), k)
          case Null => Failure(NullPointerException)
          case Map(_) => RemoveWalk(root, Some(p + init + [k]), rest)
          case _ => Success(root))
    decreases |init|
  {
    if init == [] {
      assert p + init == p;
      assert ([] + [k] + rest)[1..] == rest;
      assert ([] + [k] + rest)[0] == k;
    } else {
      var seg := init[0];
      assert p + init[..1] == p + [seg];
      ValueAtSnoc(root, p, seg);
      assert (init + [k] + rest)[0] == seg && (init + [k] + rest)[1..] == init[1..] + [k] + rest;
      MapsBelowStep(root, p, init);
      RemoveWalkPrefix(root, p + [seg], init[1..], k, rest);
      assert p + [seg] + init[1..] == p + init;
    }
  }

  /** Writes through a map outside the tree never reach the tree. */
  lemma {:induction false} DetachedWritesLost(root: Value, m: map<string, Value>, segs: seq<string>, v: Value)
    ensures SetWalk(root, Detached(m), segs, v) == root
    decreases |segs|
  {
    if |segs| > 1 {
      var seg := segs[0];
      match Get(m, seg)
      case Map(m2) => DetachedWritesLost(root, m2, segs[1..], v);
      case List(xs) => DetachedWritesLost(root, Synthetic(xs), segs[1..], v);
      case _ => DetachedWritesLost(root, m[seg := Map(map[])], segs[1..], v);
    }
  }

  /**
   * Writes through a list none of whose elements is a map or a list are
   * lost: every segment below the list lands in its synthetic map, or in
   * maps put into it.
   */
  lemma {:induction false} FlatListWritesLost(root: Value, p: seq<string>, made: set<string>, segs: seq<string>, v: Value)
    requires ValueAt(root, p).List?
    requires forall i :: 0 <= i < |ValueAt(root, p).items| ==> IsScalar(ValueAt(root, p).items[i]) || ValueAt(root, p).items[i] == Null
    ensures SetWalk(root, AtList(p, made), segs, v) == root
    decreases |segs|
  {
    if |segs| > 1 {
      var seg := segs[0];
      var xs := ValueAt(root, p).items;
      if seg in made {
        DetachedWritesLost(root, map[], segs[1..], v);
      } else {
        var got := ListChild(xs, seg);
        assert !got.Map? && !got.List?;
        FlatListWritesLost(root, p, made + {seg}, segs[1..], v);
      }
    }
  }

  /** A path made of separators alone has no segments: `getObject` finds nothing and the other two change nothing. */
  lemma OnlySeparators(base: map<string, Value>, c: char, p: string, v: Value)
    requires p != [] && forall i :: 0 <= i < |p| ==> p[i] == c
    ensures Resolve(base, [c], Some(p)) == Null
    ensures Store(base, [c], Some(p), v) == base
    ensures Remove(base, [c], Some(p)) == Success(base)
  {
    NoSegmentsIffOnlySeparators(p, c);
    assert p[0] in p;
  }

  /**
   * A trailing separator makes a single key a separated path: the key's
   * value comes back the same, except that a list comes back as its
   * synthetic map.
   */
  lemma TrailingSeparator(base: map<string, Value>, c: char, k: string)
    requires k != "" && c !in k
    ensures Resolve(base, [c], Some(k)) == Get(base, k)
    ensures Resolve(base, [c], Some(k + [c])) == ReadBack(Get(base, k))
  {
    RawSplitJoin([k, ""], c);
    assert Join([k, ""], c) == k + [c];
    assert RawSplit(k + [c], c) == [k, ""];
    assert SplitPath(k + [c], c) == [k];
    assert (k + [c])[|k|] == c;
  }

  /** A separated `getObject` never returns a list, so a list can only be read by its own key, from the base. */
  lemma SeparatedReadNeverList(base: map<string, Value>, sep: string, p: string)
    requires |sep| <= 1 && Separated(p, sep)
    ensures !Resolve(base, sep, Some(p)).List?
  {
  }

  /** A key of the base without the separator: written, read back as written, removed, gone. */
  lemma FlatKeyRoundTrip(base: map<string, Value>, c: char, k: string, v: Value, other: string)
    requires k != "" && c !in k && other != k
    ensures Resolve(Store(base, [c], Some(k), v), [c], Some(k)) == v
    ensures Remove(base, [c], Some(k)) == Success(base - {k})
    ensures Resolve(Remove(base, [c], Some(k)).value, [c], Some(k)) == Null
    ensures Get(Store(base, [c], Some(k), v), other) == Get(base, other)
  {
  }
}
