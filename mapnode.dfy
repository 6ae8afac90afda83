/**
 * MapNode: a wrapper around a map from strings to document values, read and
 * written by separator-delimited paths, with options that say which
 * fallbacks the typed getters use and what the separator is.
 */
module Node {
  import opened Wrappers
  import opened Tree
  import opened Engine
  import opened Options
  import opened NodeView

  /** The synthetic map a list step builds: element `i` under `Integer.toString(i)`, one `put` per element. */
  method BuildSynthetic(xs: seq<Value>) returns (m: map<string, Value>)
    ensures m == Synthetic(xs)
  {
    IndexKeysBijective();
    m := map[];
    for i := 0 to |xs|
      invariant m.Keys == set k | 0 <= k < i :: IndexKey(k)
      invariant forall k :: 0 <= k < i ==> m[IndexKey(k)] == xs[k]
    {
      assert forall k :: 0 <= k < i ==> IndexKey(k) != IndexKey(i) by {
        forall k | 0 <= k < i ensures IndexKey(k) != IndexKey(i) {
          IndexOfKey(k);
          IndexOfKey(i);
        }
      }
      m := m[IndexKey(i) := xs[i]];
    }
    forall k | k in m ensures m[k] == Synthetic(xs)[k] {
      var j :| 0 <= j < |xs| && k == IndexKey(j);
    }
  }

  class MapNode {
    var base: map<string, Value>
    var options: MapNodeOptions

    /** The options keep a separator their setters accept. */
    predicate Valid()
      reads this, options
    {
      options.Valid()
    }

    /** The node as a value, for the typed getters. */
    function State(): View
      reads this, options
    {
      View(base, options.Current())
    }

    /** `new MapNode()`: an empty base and default options. */
    constructor ()
      ensures base == map[] && fresh(options) && options.Current() == Defaults && Valid()
    {
      base := map[];
      options := new MapNodeOptions();
    }

    /** `new MapNode(base)`: the given base and default options. */
    constructor WithBase(base: map<string, Value>)
      ensures this.base == base && fresh(options) && options.Current() == Defaults && Valid()
    {
      this.base := base;
      options := new MapNodeOptions();
    }

    /** `new MapNode(base, options)`: both as given; the options object is shared with the caller. */
    constructor WithOptions(base: map<string, Value>, options: MapNodeOptions)
      ensures this.base == base && this.options == options
    {
      this.base := base;
      this.options := options;
    }

    /** `getObject(prop)`. */
    method GetObject(prop: Option<string>) returns (out: Value)
      requires Valid()
      ensures out == Resolve(base, options.separatorChar, prop)
    {
      if prop.None? {
        return Null;
      }
      var p := prop.value;
      var sep := options.separatorChar;
      if Separated(p, sep) {
        var split := Segments(p, sep);
        var newBase := base;
        out := Null;
        for i := 0 to |split|
          invariant Walk(newBase, split[i..], out) == Walk(base, split, Null)
        {
          assert split[i..][0] == split[i] && split[i..][1..] == split[i + 1..];
          var got := Get(newBase, split[i]);
          match got {
            case Null =>
              return Null;
            case Map(m) =>
              newBase := m;
              out := got;
            case List(xs) =>
              var newMap := BuildSynthetic(xs);
              newBase := newMap;
              out := Map(newBase);
            case _ =>
              out := got;
          }
        }
        assert split[|split|..] == [];
      } else {
        if p == "" {
          return Map(base);
        }
        out := Get(base, p);
      }
    }

    /**
     * `setObject(prop, value)`. The walk's position is a `Cursor`: the
     * address of the map it is in, or the list whose synthetic map it is
     * in, or a map outside the tree. Puts through the first edit the tree.
     */
    method SetObject(prop: Option<string>, value: Value)
      requires Valid()
      modifies this
      ensures options == old(options) && Valid()
      ensures base == Store(old(base), options.separatorChar, prop, value)
    {
      if prop.None? {
        return;
      }
      var p := prop.value;
      var sep := options.separatorChar;
      if Separated(p, sep) {
        var split := Segments(p, sep);
        var root := Map(base);
        var newBase := AtMap([]);
        for i := 0 to |split|
          invariant root.Map?
          invariant SetWalk(root, newBase, split[i..], value) == SetWalk(Map(old(base)), AtMap([]), split, value)
          invariant base == old(base)
        {
          assert split[i..][0] == split[i] && split[i..][1..] == split[i + 1..];
          var got := CursorGet(root, newBase, split[i]);
          if i == |split| - 1 {
            if newBase.AtMap? {
              root := EditAt(root, newBase.path, Put(split[i], value));
            }
            base := root.entries;
            return;
          }
          match got {
            case Map(m) =>
              newBase := EnterMap(newBase, split[i], m);
            case List(xs) =>
              newBase := EnterList(newBase, split[i], xs);
            case _ =>
              match newBase {
                case AtMap(path) =>
                  root := EditAt(root, path, Put(split[i], Map(map[])));
                case AtList(path, made) =>
                  newBase := AtList(path, made + {split[i]});
                case Detached(m) =>
                  newBase := Detached(m[split[i] := Map(map[])]);
              }
          }
        }
        assert split[|split|..] == [];
        base := root.entries;
      } else {
        if p == "" && value.Map? {
          base := value.entries;
        }
        base := base[p := value];
      }
    }

    /** `removeObject(prop)`: `Fail` is the exception the call throws, with the base left as it was. */
    method RemoveObject(prop: Option<string>) returns (r: Outcome)
      requires Valid()
      modifies this
      ensures options == old(options) && Valid()
      ensures Remove(old(base), options.separatorChar, prop).Success? ==>
        r == Pass && base == Remove(old(base), options.separatorChar, prop).value
      ensures Remove(old(base), options.separatorChar, prop).Failure? ==>
        r == Fail(Remove(old(base), options.separatorChar, prop).error) && base == old(base)
    {
      if prop.None? {
        return Pass;
      }
      var p := prop.value;
      var sep := options.separatorChar;
      if Separated(p, sep) {
        var split := Segments(p, sep);
        var root := Map(base);
        var newBase: Option<seq<string>> := Some([]);
        for i := 0 to |split|
          invariant root == Map(base) && base == old(base)
          invariant RemoveWalk(root, newBase, split[i..]) == RemoveWalk(Map(old(base)), Some([]), split)
        {
          assert split[i..][0] == split[i] && split[i..][1..] == split[i + 1..];
          if newBase.None? {
            return Fail(NullPointerException);
          }
          var got := Child(ValueAt(root, newBase.value), split[i]);
          if i == |split| - 1 {
            root := EditAt(root, newBase.value, Delete(split[i]));
            base := root.entries;
            return Pass;
          }
          match got {
            case Null =>
              newBase := None;
            case Map(_) =>
              newBase := Some(newBase.value + [split[i]]);
            case _ =>
              return Pass;
          }
        }
        assert split[|split|..] == [];
        return Pass;
      } else {
        if p == "" {
          base := map[];
        }
        base := base - {p};
        return Pass;
      }
    }

    /** `reset()`: the base is emptied. */
    method Reset()
      modifies this
      ensures base == map[] && options == old(options)
    {
      base := map[];
    }

    /** `clone()`: a new node over a copy of the base, with a copy of the options. */
    method Clone() returns (c: MapNode)
      requires Valid()
      ensures fresh(c) && fresh(c.options) && c != this && c.options != options
      ensures c.base == base && c.options.Current() == options.Current() && c.Valid()
      ensures c.Equals(this) && Equals(c)
    {
      c := new MapNode.WithBase(base);
      var o := options.Clone();
      c.options := o;
    }

    /** `equals(obj)`: the same base contents, and the same options object or an equal one. */
    predicate Equals(other: MapNode?)
      reads this, options, other
      reads if other != null then {other.options} else {}
      ensures Equals(other) <==> other != null && State() == other.State()
    {
      other != null
      && base == other.base
      && (options == other.options || options.Equals(other.options))
    }
  }
}
