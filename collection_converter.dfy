/**
 * CollectionConverter: every element of a collection, in order, converted
 * and appended to a caller's collection.
 */
module CollectionConverter {
  import opened Tree

  /** A mutable collection with `add`. */
  class Collection<T> {
    var elems: seq<T>

    constructor ()
      ensures elems == []
    {
      elems := [];
    }

    method Add(x: T)
      modifies this
      ensures elems == old(elems) + [x]
    {
      elems := elems + [x];
    }
  }

  /** The converted elements, one per element and in order. */
  function ConvertAll<T>(converter: Value -> T, xs: seq<Value>): (r: seq<T>)
    ensures |r| == |xs|
    ensures forall i :: 0 <= i < |xs| ==> r[i] == converter(xs[i])
    decreases |xs|
  {
    if xs == [] then [] else [converter(xs[0])] + ConvertAll(converter, xs[1..])
  }

  /** Converting a collection in two parts converts it whole. */
  lemma ConvertAllAppend<T>(converter: Value -> T, xs: seq<Value>, ys: seq<Value>)
    ensures ConvertAll(converter, xs + ys) == ConvertAll(converter, xs) + ConvertAll(converter, ys)
  {
    assert forall i :: 0 <= i < |xs + ys| ==> (xs + ys)[i] == if i < |xs| then xs[i] else ys[i - |xs|];
  }

  /**
   * `transform(converter, oldColl, newColl)`: what `newColl` held before is
   * kept, and one converted element per element of `oldColl` follows, null
   * results included.
   */
  method Transform<T>(converter: Value -> T, oldColl: seq<Value>, newColl: Collection<T>)
    modifies newColl
    ensures newColl.elems == old(newColl.elems) + ConvertAll(converter, oldColl)
  {
    for i := 0 to |oldColl|
      invariant newColl.elems == old(newColl.elems) + ConvertAll(converter, oldColl[..i])
    {
      newColl.Add(converter(oldColl[i]));
      ConvertAllAppend(converter, oldColl[..i], [oldColl[i]]);
      assert oldColl[..i + 1] == oldColl[..i] + [oldColl[i]];
    }
    assert oldColl[..|oldColl|] == oldColl;
  }
}
