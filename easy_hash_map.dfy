/**
 * EasyHashMap: a hash map built from an alternating list of keys and
 * values, one `put` per pair in order.
 */
module EasyHashMap {
  import opened Wrappers

  /** The map the pairs build, each `put` overriding the earlier ones: the last pair on top of the rest. */
  function Pairs<E(==)>(values: seq<E>): map<E, E>
    requires |values| % 2 == 0
    decreases |values|
  {
    if values == [] then map[]
    else Pairs(values[..|values| - 2])[values[|values| - 2] := values[|values| - 1]]
  }

  /** The map under construction. */
  class EasyHashMap<E(==)> {
    var entries: map<E, E>

    constructor ()
      ensures entries == map[]
    {
      entries := map[];
    }

    method Put(k: E, v: E)
      modifies this
      ensures entries == old(entries)[k := v]
    {
      entries := entries[k := v];
    }
  }

  /** `new EasyHashMap(values...)`: an odd count throws before anything is put. */
  method New<E(==)>(values: seq<E>) returns (r: Result<EasyHashMap<E>>)
    ensures r.Failure? <==> |values| % 2 != 0
    ensures r.Failure? ==> r.error == MapNodeException("Value count must be even")
    ensures r.Success? ==> fresh(r.value) && r.value.entries == Pairs(values)
  {
    if |values| % 2 != 0 {
      return Failure(MapNodeException("Value count must be even"));
    }
    var m := new EasyHashMap();
    var first := true;
    var saved: Option<E> := None;
    for i := 0 to |values|
      invariant first <==> i % 2 == 0
      invariant !first ==> saved == Some(values[i - 1])
      invariant m.entries == Pairs(values[..i - i % 2])
    {
      if first {
        first := false;
        saved := Some(values[i]);
      } else {
        first := true;
        m.Put(saved.value, values[i]);
        saved := None;
        assert values[..i + 1][..i - 1] == values[..i - 1];
      }
    }
    assert values[..|values|] == values;
    return Success(m);
  }

  /** The keys are exactly the arguments at even positions. */
  lemma {:induction false} PairsKeys<E>(values: seq<E>)
    requires |values| % 2 == 0
    ensures Pairs(values).Keys == set i | 0 <= i < |values| / 2 :: values[2 * i]
    decreases |values|
  {
    if values != [] {
      var n := |values| / 2;
      var init := values[..|values| - 2];
      PairsKeys(init);
      assert forall i :: 0 <= i < n - 1 ==> init[2 * i] == values[2 * i];
      var keys := set i | 0 <= i < n :: values[2 * i];
      var initKeys := set i | 0 <= i < n - 1 :: init[2 * i];
      assert keys == initKeys + {values[2 * (n - 1)]} by {
        forall k | k in keys ensures k in initKeys + {values[2 * (n - 1)]} {
          var i :| 0 <= i < n && values[2 * i] == k;
          if i < n - 1 {
            assert init[2 * i] == k;
          }
        }
      }
    }
  }

  /** For a repeated key, the value of its last pair wins. */
  lemma {:induction false} PairsLastWins<E>(values: seq<E>, j: nat)
    requires |values| % 2 == 0 && j < |values| / 2
    requires forall j' :: j < j' < |values| / 2 ==> values[2 * j'] != values[2 * j]
    ensures values[2 * j] in Pairs(values) && Pairs(values)[values[2 * j]] == values[2 * j + 1]
    decreases |values|
  {
    var n := |values| / 2;
    if j < n - 1 {
      var init := values[..|values| - 2];
      assert values[2 * (n - 1)] != values[2 * j];
      forall j' | j < j' < n - 1 ensures init[2 * j'] != init[2 * j] {
        assert values[2 * j'] != values[2 * j];
      }
      PairsLastWins(init, j);
    }
  }

  /** Four arguments give the two pairs. */
  lemma TwoPairs<E>(k1: E, v1: E, k2: E, v2: E)
    ensures Pairs([k1, v1, k2, v2]) == map[k1 := v1, k2 := v2]
  {
    assert [k1, v1, k2, v2][..2] == [k1, v1];
    assert [k1, v1][..0] == [];
    assert Pairs([k1, v1]) == map[k1 := v1];
  }
}
