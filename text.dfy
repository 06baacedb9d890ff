/**
 * String helpers shared by the indexer and the explorer: the separator class
 * `[/\\]`, JavaScript's `split` by that class, joining with a backslash,
 * `split(c).pop()` and `startsWith`.
 */
module Text {

  /** A path separator: forward slash or backslash. */
  predicate IsSep(c: char) {
    c == '/' || c == '\\'
  }

  predicate NoSep(s: string) {
    forall k :: 0 <= k < |s| ==> !IsSep(s[k])
  }

  /** JavaScript's `s.startsWith(prefix)`. */
  predicate StartsWith(s: string, prefix: string) {
    |prefix| <= |s| && s[..|prefix|] == prefix
  }

  /**
   * The text after the last character of `s` that is in `delims`, or all of
   * `s` when it has none: what `s.split(d).pop()` yields for one delimiter.
   */
  function LastSegment(s: string, delims: set<char>): string {
    if s == [] then []
    else if s[|s| - 1] in delims then []
    else LastSegment(s[..|s| - 1], delims) + [s[|s| - 1]]
  }

  /** `LastSegment` is the longest suffix of `s` free of delimiters. */
  lemma {:induction false} LastSegmentShape(s: string, delims: set<char>)
    ensures var r := LastSegment(s, delims);
      && |r| <= |s| && s[|s| - |r|..] == r
      && (forall k :: 0 <= k < |r| ==> r[k] !in delims)
      && (|r| < |s| ==> s[|s| - |r| - 1] in delims)
  {
    if s != [] && s[|s| - 1] !in delims {
      var init := s[..|s| - 1];
      LastSegmentShape(init, delims);
      var r := LastSegment(init, delims);
      assert init[|init| - |r|..] == r;
      assert s[|s| - |r| - 1..] == r + [s[|s| - 1]];
    }
  }

  /** JavaScript's `s.split(/[/\\]/)`: the pieces between separators, empty ones included. */
  function Split(s: string): (r: seq<string>)
    ensures |r| >= 1
  {
    if s == [] then [""] else Prepend(s[0], Split(s[1..]))
  }

  /** The pieces of `[x] + t` from the pieces of `t`: a separator opens a new piece, anything else joins the first. */
  function Prepend(x: char, pieces: seq<string>): (r: seq<string>)
    requires |pieces| >= 1
    ensures |r| >= 1
  {
    if IsSep(x) then [""] + pieces else [[x] + pieces[0]] + pieces[1..]
  }

  lemma PrependAppend(x: char, front: seq<string>, back: seq<string>)
    requires |front| >= 1
    ensures Prepend(x, front + back) == Prepend(x, front) + back
  {
    if !IsSep(x) {
      assert (front + back)[1..] == front[1..] + back;
    }
  }

  /** The pieces of `ps` that are not empty, in order (`filter(Boolean)`). */
  function NonEmpty(ps: seq<string>): (r: seq<string>)
    ensures |r| <= |ps|
    ensures forall i :: 0 <= i < |r| ==> r[i] != [] && r[i] in ps
  {
    if ps == [] then []
    else if ps[0] == [] then NonEmpty(ps[1..])
    else [ps[0]] + NonEmpty(ps[1..])
  }

  /** The non-empty components of a path split on either separator. */
  function Components(s: string): (r: seq<string>)
    ensures forall i :: 0 <= i < |r| ==> r[i] != [] && NoSep(r[i])
  {
    SplitPiecesHaveNoSep(s);
    NonEmpty(Split(s))
  }

  lemma {:induction false} SplitPiecesHaveNoSep(s: string)
    ensures forall i :: 0 <= i < |Split(s)| ==> NoSep(Split(s)[i])
  {
    if s != [] {
      SplitPiecesHaveNoSep(s[1..]);
    }
  }

  /** JavaScript's `ps.join('\\')`. */
  function JoinBackslash(ps: seq<string>): string {
    if ps == [] then ""
    else if |ps| == 1 then ps[0]
    else ps[0] + "\\" + JoinBackslash(ps[1..])
  }

  /** A join ends with the last character of its last piece, when that piece is not empty. */
  lemma {:induction false} JoinBackslashLast(ps: seq<string>)
    requires ps != [] && ps[|ps| - 1] != []
    ensures var j, last := JoinBackslash(ps), ps[|ps| - 1];
      j != [] && j[|j| - 1] == last[|last| - 1]
  {
    if |ps| > 1 {
      JoinBackslashLast(ps[1..]);
      assert ps[1..][|ps[1..]| - 1] == ps[|ps| - 1];
    }
  }

  lemma {:induction false} SplitNoSep(p: string)
    requires NoSep(p)
    ensures Split(p) == [p]
  {
    if p != [] {
      SplitNoSep(p[1..]);
      assert [p[0]] + p[1..] == p;
    }
  }

  lemma SplitCons(x: char, t: string)
    ensures Split([x] + t) == Prepend(x, Split(t))
  {
    assert ([x] + t)[1..] == t;
  }

  /** Splitting at a separator splits the two sides independently. */
  lemma {:induction false} SplitAtSep(a: string, c: char, b: string)
    requires IsSep(c)
    ensures Split(a + [c] + b) == Split(a) + Split(b)
  {
    if a == [] {
      assert a + [c] + b == [c] + b;
      SplitCons(c, b);
    } else {
      var x, rest := a[0], a[1..];
      assert a + [c] + b == [x] + (rest + [c] + b);
      SplitCons(x, rest + [c] + b);
      SplitAtSep(rest, c, b);
      PrependAppend(x, Split(rest), Split(b));
    }
  }

  /** Splitting a backslash-joined list of separator-free pieces gives the pieces back. */
  lemma {:induction false} SplitJoin(ps: seq<string>)
    requires ps != []
    requires forall i :: 0 <= i < |ps| ==> NoSep(ps[i])
    ensures Split(JoinBackslash(ps)) == ps
  {
    if |ps| == 1 {
      SplitNoSep(ps[0]);
    } else {
      SplitJoin(ps[1..]);
      SplitNoSep(ps[0]);
      SplitAtSep(ps[0], '\\', JoinBackslash(ps[1..]));
      assert ps[0] + "\\" + JoinBackslash(ps[1..]) == ps[0] + ['\\'] + JoinBackslash(ps[1..]);
      assert [ps[0]] + ps[1..] == ps;
    }
  }

  lemma {:induction false} NonEmptyAppend(a: seq<string>, b: seq<string>)
    ensures NonEmpty(a + b) == NonEmpty(a) + NonEmpty(b)
  {
    if a != [] {
      NonEmptyAppend(a[1..], b);
      assert (a + b)[1..] == a[1..] + b;
    } else {
      assert a + b == b;
    }
  }

  lemma {:induction false} NonEmptyKeepsAll(ps: seq<string>)
    requires forall i :: 0 <= i < |ps| ==> ps[i] != []
    ensures NonEmpty(ps) == ps
  {
    if ps != [] {
      NonEmptyKeepsAll(ps[1..]);
    }
  }

  /**
   * Joining non-empty, separator-free components with backslashes, with or
   * without one trailing backslash, yields a path whose components are exactly
   * those components.
   */
  lemma ComponentsOfJoin(ps: seq<string>, trailing: bool)
    requires ps != []
    requires forall i :: 0 <= i < |ps| ==> ps[i] != [] && NoSep(ps[i])
    ensures Components(JoinBackslash(ps) + (if trailing then "\\" else "")) == ps
  {
    SplitJoin(ps);
    NonEmptyKeepsAll(ps);
    if trailing {
      var j := JoinBackslash(ps);
      SplitAtSep(j, '\\', "");
      assert j + "\\" == j + ['\\'] + "";
      NonEmptyAppend(ps, [""]);
    } else {
      assert JoinBackslash(ps) + "" == JoinBackslash(ps);
    }
  }
}
