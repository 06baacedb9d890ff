/**
 * The three Node `path` functions the indexer applies to every queued path
 * (`path.basename`, `path.extname`, `path.dirname`), written out for the
 * Windows flavour of paths where both `/` and `\` separate components.
 * Trailing separators, repeated separators and UNC roots are not handled.
 */
module NodePath {
  import opened Text

  const Separators: set<char> := {'/', '\\'}

  /** The last component of `p`. */
  function Basename(p: string): string {
    LastSegment(p, Separators)
  }

  /** The base name is the longest separator-free suffix of the path. */
  lemma BasenameShape(p: string)
    ensures NoSep(Basename(p))
    ensures |Basename(p)| <= |p| && p[|p| - |Basename(p)|..] == Basename(p)
    ensures |Basename(p)| < |p| ==> IsSep(p[|p| - |Basename(p)| - 1])
  {
    LastSegmentShape(p, Separators);
  }

  /**
   * The extension of the last component: from its last `.` to its end. A
   * name with no dot, a name whose only leading character is its last dot
   * (`.bashrc`) and the name `..` have none.
   */
  function Extname(p: string): string {
    ExtensionOf(Basename(p))
  }

  /**
   * The extension is empty or a proper suffix of the base name that starts
   * with its only dot.
   */
  lemma ExtnameShape(p: string)
    ensures var r, b := Extname(p), Basename(p);
      && (r == [] || (r[0] == '.' && forall k :: 1 <= k < |r| ==> r[k] != '.'))
      && |r| <= |b| && b[|b| - |r|..] == r
      && (r != [] ==> |r| < |b|)
  {
    ExtensionShape(Basename(p));
  }

  function ExtensionOf(b: string): string {
    LastSegmentShape(b, {'.'});
    var tail := LastSegment(b, {'.'});
    if |tail| == |b| then ""
    else
      var k := |b| - |tail| - 1;
      if k == 0 || b == ".." then ""
      else
        b[k..]
  }

  lemma ExtensionShape(b: string)
    ensures var r := ExtensionOf(b);
      && (r == [] || (r[0] == '.' && forall k :: 1 <= k < |r| ==> r[k] != '.'))
      && |r| <= |b| && b[|b| - |r|..] == r
      && (r != [] ==> |r| < |b|)
  {
    LastSegmentShape(b, {'.'});
    var tail := LastSegment(b, {'.'});
    if |tail| < |b| {
      var k := |b| - |tail| - 1;
      if k != 0 && b != ".." {
        assert b[k..] == ['.'] + tail by {
          assert b[k] == '.';
          assert b[k + 1..] == tail;
        }
      }
    }
  }

  /**
   * Everything before the last separator, keeping the separator when what
   * precedes it is a drive (`C:`) or nothing (the root); `.` when there is no
   * separator.
   */
  function Dirname(p: string): string {
    BasenameShape(p);
    var n := Basename(p);
    if |n| == |p| then "."
    else
      var k := |p| - |n| - 1;
      if k == 0 || (k == 2 && p[1] == ':') then p[..k + 1]
      else p[..k]
  }

  /** `d + "\" + n`, for a separator-free non-empty `n`, decomposes back into `d` and `n`. */
  lemma DecomposeJoin(d: string, n: string)
    requires d != [] && n != [] && NoSep(n)
    ensures Basename(d + "\\" + n) == n
    ensures Dirname(d + "\\" + n) == if |d| == 2 && d[1] == ':' then d + "\\" else d
  {
    var p := d + "\\" + n;
    var b := Basename(p);
    BasenameShape(p);
    assert p[|p| - |n|..] == n;
    assert p[|p| - |n| - 1] == '\\';
    assert b == n;
    assert p[..|d|] == d;
    assert p[..|d| + 1] == d + "\\";
  }
}
