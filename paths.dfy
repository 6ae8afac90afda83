/**
 * Splitting a path on the one-character separator, as
 * `prop.split(Pattern.quote(separator))` does: the text between separators,
 * with trailing empty pieces dropped.
 */
module Paths {

  /** The pieces between separators, empty ones included: one more piece than there are separators. */
  function RawSplit(s: string, sep: char): (r: seq<string>)
    ensures |r| >= 1
    ensures forall i :: 0 <= i < |r| ==> sep !in r[i]
    decreases |s|
  {
    if s == [] then [""]
    else
      var rest := RawSplit(s[1..], sep);
      if s[0] == sep then [""] + rest else [[s[0]] + rest[0]] + rest[1..]
  }

  /** Drops empty pieces from the end, as `String.split` with no limit does. */
  function StripTrailingEmpty(xs: seq<string>): (r: seq<string>)
    ensures |r| <= |xs| && r == xs[..|r|]
    ensures r != [] ==> r[|r| - 1] != ""
    ensures forall i :: |r| <= i < |xs| ==> xs[i] == ""
    decreases |xs|
  {
    if xs == [] then []
    else if xs[|xs| - 1] == "" then StripTrailingEmpty(xs[..|xs| - 1])
    else xs
  }

  /** The segments of a path. */
  function SplitPath(s: string, sep: char): seq<string> {
    StripTrailingEmpty(RawSplit(s, sep))
  }

  /** `String.join`: the pieces with the separator between them. */
  function Join(xs: seq<string>, sep: char): string
    decreases |xs|
  {
    if xs == [] then ""
    else if |xs| == 1 then xs[0]
    else xs[0] + [sep] + Join(xs[1..], sep)
  }

  /** Joining the raw pieces gives the text back. */
  lemma {:induction false} JoinRawSplit(s: string, sep: char)
    ensures Join(RawSplit(s, sep), sep) == s
    decreases |s|
  {
    if s != [] {
      var rest := RawSplit(s[1..], sep);
      JoinRawSplit(s[1..], sep);
      if s[0] == sep {
        assert ([""] + rest)[1..] == rest;
      } else {
        var r := [[s[0]] + rest[0]] + rest[1..];
        if |rest| == 1 {
          assert Join(r, sep) == [s[0]] + rest[0];
        } else {
          assert r[1..] == rest[1..];
          assert Join(rest, sep) == rest[0] + [sep] + Join(rest[1..], sep);
        }
        assert s == [s[0]] + s[1..];
      }
    }
  }

  /** A separator-free prefix merges into the first piece. */
  lemma {:induction false} RawSplitPrefix(a: string, t: string, sep: char)
    requires sep !in a
    ensures RawSplit(a + t, sep) == [a + RawSplit(t, sep)[0]] + RawSplit(t, sep)[1..]
    decreases |a|
  {
    if a != [] {
      assert (a + t)[0] == a[0];
      assert (a + t)[1..] == a[1..] + t;
      RawSplitPrefix(a[1..], t, sep);
      assert [a[0]] + (a[1..] + RawSplit(t, sep)[0]) == a + RawSplit(t, sep)[0];
    } else {
      var r := RawSplit(t, sep);
      assert a + t == t;
      assert a + r[0] == r[0];
      assert r == [r[0]] + r[1..];
    }
  }

  /** Splitting separator-free pieces joined by the separator gives the pieces back. */
  lemma {:induction false} RawSplitJoin(xs: seq<string>, sep: char)
    requires |xs| >= 1
    requires forall i :: 0 <= i < |xs| ==> sep !in xs[i]
    ensures RawSplit(Join(xs, sep), sep) == xs
    decreases |xs|
  {
    if |xs| == 1 {
      RawSplitPrefix(xs[0], "", sep);
      assert xs[0] + "" == xs[0];
    } else {
      var j := Join(xs[1..], sep);
      RawSplitJoin(xs[1..], sep);
      assert Join(xs, sep) == xs[0] + ([sep] + j);
      RawSplitPrefix(xs[0], [sep] + j, sep);
      assert ([sep] + j)[1..] == j;
      assert RawSplit([sep] + j, sep) == [""] + xs[1..];
      assert xs[0] + "" == xs[0];
    }
  }

  /** The path round trip: joined segments without separators and with a non-empty last one split back into themselves. */
  lemma SplitJoin(xs: seq<string>, sep: char)
    requires |xs| >= 1 && xs[|xs| - 1] != ""
    requires forall i :: 0 <= i < |xs| ==> sep !in xs[i]
    ensures SplitPath(Join(xs, sep), sep) == xs
  {
    RawSplitJoin(xs, sep);
  }

  /** A path with two or more pieces contains the separator. */
  lemma {:induction false} JoinHasSeparator(xs: seq<string>, sep: char)
    requires |xs| >= 2
    ensures sep in Join(xs, sep)
  {
    assert Join(xs, sep)[|xs[0]|] == sep;
  }

  /** Join of pieces that are all empty is a run of separators. */
  lemma {:induction false} JoinEmptyPieces(xs: seq<string>, sep: char)
    requires forall i :: 0 <= i < |xs| ==> xs[i] == ""
    ensures forall i :: 0 <= i < |Join(xs, sep)| ==> Join(xs, sep)[i] == sep
    decreases |xs|
  {
    if |xs| > 1 {
      JoinEmptyPieces(xs[1..], sep);
      assert Join(xs, sep) == [sep] + Join(xs[1..], sep);
    }
  }

  /** A run of separators splits into empty pieces only. */
  lemma {:induction false} RawSplitOfSeparators(s: string, sep: char)
    requires forall i :: 0 <= i < |s| ==> s[i] == sep
    ensures forall i :: 0 <= i < |RawSplit(s, sep)| ==> RawSplit(s, sep)[i] == ""
    decreases |s|
  {
    if s != [] {
      RawSplitOfSeparators(s[1..], sep);
    }
  }

  /**
   * A path yields no segments exactly when it consists of separators only
   * (`"."`, `".."`, or the empty text); then every operation that walks
   * segments does nothing.
   */
  lemma NoSegmentsIffOnlySeparators(s: string, sep: char)
    ensures SplitPath(s, sep) == [] <==> forall i :: 0 <= i < |s| ==> s[i] == sep
  {
    var raw := RawSplit(s, sep);
    if SplitPath(s, sep) == [] {
      JoinRawSplit(s, sep);
      JoinEmptyPieces(raw, sep);
    }
    if forall i :: 0 <= i < |s| ==> s[i] == sep {
      RawSplitOfSeparators(s, sep);
    }
  }

  /** The raw split has more than one piece exactly when the text holds the separator. */
  lemma {:induction false} RawSplitSingle(s: string, sep: char)
    ensures |RawSplit(s, sep)| == 1 <==> sep !in s
    decreases |s|
  {
    if s != [] {
      RawSplitSingle(s[1..], sep);
      assert s == [s[0]] + s[1..];
    }
  }

  /** Empty pieces at the end of a list of pieces add only separators to its join. */
  lemma {:induction false} JoinTrailingEmpty(xs: seq<string>, e: seq<string>, sep: char) returns (t: string)
    requires xs != [] && forall i :: 0 <= i < |e| ==> e[i] == ""
    ensures Join(xs + e, sep) == Join(xs, sep) + t
    ensures forall i :: 0 <= i < |t| ==> t[i] == sep
    decreases |xs|
  {
    if e == [] {
      assert xs + e == xs;
      t := "";
    } else if |xs| == 1 {
      assert (xs + e)[1..] == e;
      JoinEmptyPieces(e, sep);
      t := [sep] + Join(e, sep);
    } else {
      assert (xs + e)[0] == xs[0] && (xs + e)[1..] == xs[1..] + e;
      t := JoinTrailingEmpty(xs[1..], e, sep);
      assert Join(xs + e, sep) == xs[0] + [sep] + (Join(xs[1..], sep) + t);
    }
  }

  /**
   * The segments of a path: none holds the separator, the last is not
   * empty, and joined with the separator they give the path without the
   * run of separators it ends in.
   */
  lemma JoinSplitPath(s: string, sep: char) returns (t: string)
    ensures forall i :: 0 <= i < |SplitPath(s, sep)| ==> sep !in SplitPath(s, sep)[i]
    ensures SplitPath(s, sep) != [] ==> SplitPath(s, sep)[|SplitPath(s, sep)| - 1] != ""
    ensures s == Join(SplitPath(s, sep), sep) + t
    ensures forall i :: 0 <= i < |t| ==> t[i] == sep
  {
    var raw := RawSplit(s, sep);
    var r := SplitPath(s, sep);
    JoinRawSplit(s, sep);
    if r == [] {
      NoSegmentsIffOnlySeparators(s, sep);
      assert Join(r, sep) == "";
      t := s;
    } else {
      var e := raw[|r|..];
      assert raw == r + e;
      t := JoinTrailingEmpty(r, e, sep);
    }
  }
}
