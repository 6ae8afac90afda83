/**
 * MapNodeOptions: the null/empty fallback flags and the path separator a
 * MapNode reads through, with fluent setters that change one field and
 * return the same object.
 */
module Options {
  import opened Wrappers

  /** The three option fields as a value. */
  datatype Settings = Settings(returnNull: bool, returnEmpty: bool, separatorChar: string)

  /** The field initialisers: null fallbacks, empty-list fallbacks, "." as separator. */
  const Defaults := Settings(true, true, ".")

  /** The separator `setSeparatorChar(String)` accepts: at most one character. */
  predicate AcceptedSeparator(s: string) {
    |s| <= 1
  }

  class MapNodeOptions {
    var returnNull: bool
    var returnEmpty: bool
    var separatorChar: string

    function Current(): Settings
      reads this
    {
      Settings(returnNull, returnEmpty, separatorChar)
    }

    /** The separator was set through a setter, so it is at most one character. */
    predicate Valid()
      reads this
    {
      AcceptedSeparator(separatorChar)
    }

    constructor ()
      ensures Current() == Defaults && Valid()
    {
      returnNull := true;
      returnEmpty := true;
      separatorChar := ".";
    }

    method SetReturnNull(doReturnNull: bool) returns (r: MapNodeOptions)
      modifies this
      ensures r == this
      ensures Current() == old(Current()).(returnNull := doReturnNull)
    {
      returnNull := doReturnNull;
      r := this;
    }

    method SetReturnEmpty(doReturnEmpty: bool) returns (r: MapNodeOptions)
      modifies this
      ensures r == this
      ensures Current() == old(Current()).(returnEmpty := doReturnEmpty)
    {
      returnEmpty := doReturnEmpty;
      r := this;
    }

    /** The `String` overload: longer than one character throws before the field is assigned. */
    method SetSeparatorString(s: string) returns (r: Result<MapNodeOptions>)
      modifies this
      ensures !AcceptedSeparator(s) ==> r.Failure? && r.error.MapNodeException? && Current() == old(Current())
      ensures AcceptedSeparator(s) ==> r == Success(this) && Current() == old(Current()).(separatorChar := s)
      ensures old(Valid()) ==> Valid()
    {
      if |s| > 1 {
        return Failure(MapNodeException("Separator character can only be 1 character long."));
      }
      separatorChar := s;
      r := Success(this);
    }

    /** The `Character` overload: always one character, no check. */
    method SetSeparatorChar(c: char) returns (r: MapNodeOptions)
      modifies this
      ensures r == this
      ensures Current() == old(Current()).(separatorChar := [c]) && Valid()
    {
      separatorChar := [c];
      r := this;
    }

    /** A new object built through the setters from this one's fields. */
    method Clone() returns (c: MapNodeOptions)
      requires Valid()
      ensures fresh(c) && c != this
      ensures c.Current() == Current() && c.Valid()
      ensures c.Equals(this)
    {
      c := new MapNodeOptions();
      var t := c.SetReturnEmpty(returnEmpty);
      t := c.SetReturnNull(returnNull);
      var sepResult := c.SetSeparatorString(separatorChar);
    }

    /** `equals`: another options object with the same three fields. */
    predicate Equals(other: MapNodeOptions?)
      reads this, other
      ensures Equals(other) <==> other != null && Current() == other.Current()
    {
      other != null
      && returnNull == other.returnNull
      && returnEmpty == other.returnEmpty
      && separatorChar == other.separatorChar
    }
  }

  /** `equals` is an equivalence on options objects. */
  lemma EqualsIsEquivalence(a: MapNodeOptions, b: MapNodeOptions, c: MapNodeOptions)
    ensures a.Equals(a)
    ensures a.Equals(b) ==> b.Equals(a)
    ensures a.Equals(b) && b.Equals(c) ==> a.Equals(c)
  {
  }
}
