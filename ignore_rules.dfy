/**
 * The `ignored` patterns the indexer hands to its file watcher
 * (electron/indexer.ts:105-112), as predicates over the whole path string.
 * Each regular expression starts at the beginning of the string or just
 * after a `/` or `\`; the system-file and system-folder patterns are
 * case-insensitive and have no trailing anchor, so they match any component
 * that merely starts with one of their names.
 */
module IgnoreRules {
  import opened Text

  /** Position `i` starts a path component: the start, or just after a separator. */
  predicate AtBoundary(s: string, i: int) {
    i == 0 || (0 < i <= |s| && IsSep(s[i - 1]))
  }

  /** Position `j` ends a component: the end, or a separator (`($|[\/\\])`). */
  predicate EndsComponent(s: string, j: int) {
    j == |s| || (0 <= j < |s| && IsSep(s[j]))
  }

  /** The characters JavaScript's `.` does not match. */
  predicate IsLineTerminator(c: char) {
    c == '\n' || c == '\r' || c == ' ' || c == ' '
  }

  /** ASCII case folding, which is what a non-Unicode `/i` pattern of ASCII letters needs. */
  function Fold(c: char): char {
    if 'A' <= c <= 'Z' then (c as int + 32) as char else c
  }

  /** `w` occurs in `s` at `i`, exactly or ignoring ASCII case. */
  predicate WordAt(s: string, i: nat, w: string, caseless: bool) {
    i + |w| <= |s| &&
    forall k :: 0 <= k < |w| ==>
      if caseless then Fold(s[i + k]) == Fold(w[k]) else s[i + k] == w[k]
  }

  /** `/(^|[\/\\])\../`: a component starting with `.` followed by any other character. */
  predicate DotRule(s: string) {
    exists i :: 0 <= i && i + 1 < |s| && AtBoundary(s, i) && s[i] == '.' && !IsLineTerminator(s[i + 1])
  }

  /** `/(^|[\/\\])name($|[\/\\])/`: a whole component equal to `name`. */
  predicate WholeComponentRule(s: string, name: string) {
    exists i :: 0 <= i <= |s| && AtBoundary(s, i) && WordAt(s, i, name, false) && EndsComponent(s, i + |name|)
  }

  /** `/(^|[\/\\])(a|b|...)/i`: a component starting with one of `names`, in any ASCII case. */
  predicate PrefixRule(s: string, names: seq<string>) {
    exists i, n :: 0 <= i <= |s| && 0 <= n < |names| && AtBoundary(s, i) && WordAt(s, i, names[n], true)
  }

  const SystemFiles: seq<string> :=
    ["hiberfil.sys", "pagefile.sys", "swapfile.sys", "DumpStack.log.tmp"]

  const SystemFolders: seq<string> :=
    ["System Volume Information", "$RECYCLE.BIN", "Config.Msi", "Windows", "Program Files", "Program Files (x86)"]

  /** The watcher skips `path` (and, being a directory, everything below it). */
  predicate IsIgnored(path: string) {
    || DotRule(path)
    || WholeComponentRule(path, "node_modules")
    || WholeComponentRule(path, ".git")
    || WholeComponentRule(path, "AppData")
    || PrefixRule(path, SystemFiles)
    || PrefixRule(path, SystemFolders)
  }

  lemma WordAtExtends(s: string, t: string, i: nat, w: string, caseless: bool)
    requires WordAt(s, i, w, caseless)
    requires |s| <= |t| && t[..|s|] == s
    ensures WordAt(t, i, w, caseless)
  {
    forall k | 0 <= k < |w|
      ensures if caseless then Fold(t[i + k]) == Fold(w[k]) else t[i + k] == w[k]
    {
      assert t[i + k] == t[..|s|][i + k];
    }
  }

  /**
   * Once a path is ignored, every path below it is ignored too: the match
   * that condemned the directory still stands in the longer path.
   */
  lemma IgnoredBelow(d: string, c: char, n: string)
    requires IsSep(c) && IsIgnored(d)
    ensures IsIgnored(d + [c] + n)
  {
    var s := d + [c] + n;
    assert s[..|d|] == d;
    assert s[|d|] == c;
    if DotRule(d) {
      var i :| 0 <= i && i + 1 < |d| && AtBoundary(d, i) && d[i] == '.' && !IsLineTerminator(d[i + 1]);
      assert s[i] == d[i] && s[i + 1] == d[i + 1];
      assert i > 0 ==> s[i - 1] == d[i - 1];
      assert AtBoundary(s, i);
    } else if WholeComponentRule(d, "node_modules") {
      WholeComponentBelow(d, s, "node_modules");
    } else if WholeComponentRule(d, ".git") {
      WholeComponentBelow(d, s, ".git");
    } else if WholeComponentRule(d, "AppData") {
      WholeComponentBelow(d, s, "AppData");
    } else if PrefixRule(d, SystemFiles) {
      PrefixBelow(d, s, SystemFiles);
    } else {
      PrefixBelow(d, s, SystemFolders);
    }
  }

  lemma WholeComponentBelow(d: string, s: string, name: string)
    requires WholeComponentRule(d, name)
    requires |d| < |s| && s[..|d|] == d && IsSep(s[|d|])
    ensures WholeComponentRule(s, name)
  {
    var i :| 0 <= i <= |d| && AtBoundary(d, i) && WordAt(d, i, name, false) && EndsComponent(d, i + |name|);
    WordAtExtends(d, s, i, name, false);
    assert i > 0 ==> s[i - 1] == s[..|d|][i - 1];
    assert i + |name| < |d| ==> s[i + |name|] == s[..|d|][i + |name|];
    assert EndsComponent(s, i + |name|);
  }

  lemma PrefixBelow(d: string, s: string, names: seq<string>)
    requires PrefixRule(d, names)
    requires |d| <= |s| && s[..|d|] == d
    ensures PrefixRule(s, names)
  {
    var i, n :| 0 <= i <= |d| && 0 <= n < |names| && AtBoundary(d, i) && WordAt(d, i, names[n], true);
    WordAtExtends(d, s, i, names[n], true);
    assert i > 0 ==> s[i - 1] == s[..|d|][i - 1];
    assert AtBoundary(s, i);
  }


  /**
   * A component that starts with `.` and has any other character after it
   * is skipped, whether it opens the path or follows a separator.
   */
  lemma DotfileSkipped(d: string, c: char, x: char, n: string)
    requires IsSep(c) && !IsLineTerminator(x)
    ensures IsIgnored(['.', x] + n)
    ensures IsIgnored(d + [c] + ['.', x] + n)
  {
    var s0 := ['.', x] + n;
    assert AtBoundary(s0, 0) && s0[0] == '.' && s0[1] == x;
    assert DotRule(s0);
    var s := d + [c] + ['.', x] + n;
    var i := |d| + 1;
    assert s[i - 1] == c && s[i] == '.' && s[i + 1] == x;
    assert AtBoundary(s, i);
    assert DotRule(s);
  }

  /**
   * A lone `.` as the last component adds no dotfile match: the pattern
   * needs a character after the dot.
   */
  lemma LoneDotNotDotfile(d: string, c: char)
    requires IsSep(c) && !DotRule(d + [c])
    ensures !DotRule(d + [c] + ['.'])
  {
    var p, s := d + [c], d + [c] + ['.'];
    forall i | 0 <= i && i + 1 < |s| && AtBoundary(s, i) && s[i] == '.'
      ensures IsLineTerminator(s[i + 1])
    {
      assert s[i] == p[i] && s[i + 1] == p[i + 1];
      assert i > 0 ==> s[i - 1] == p[i - 1];
      assert AtBoundary(p, i);
    }
  }

  /**
   * A component that is exactly `node_modules`, `.git` or `AppData`, with
   * that case, is skipped together with everything below it, whether it
   * opens the path or follows a separator.
   */
  lemma NamedFolderSkipped(d: string, c: char, name: string, rest: string)
    requires IsSep(c) && name in {"node_modules", ".git", "AppData"}
    requires rest == [] || IsSep(rest[0])
    ensures IsIgnored(name + rest)
    ensures IsIgnored(d + [c] + name + rest)
  {
    var s0 := name + rest;
    assert AtBoundary(s0, 0);
    assert forall k :: 0 <= k < |name| ==> s0[k] == name[k];
    assert WordAt(s0, 0, name, false);
    assert rest != [] ==> s0[|name|] == rest[0];
    assert EndsComponent(s0, |name|);
    assert WholeComponentRule(s0, name);
    var s := d + [c] + name + rest;
    var i := |d| + 1;
    assert s[i - 1] == c && AtBoundary(s, i);
    assert forall k :: 0 <= k < |name| ==> s[i + k] == name[k];
    assert WordAt(s, i, name, false);
    assert rest != [] ==> s[i + |name|] == rest[0];
    assert EndsComponent(s, i + |name|);
    assert WholeComponentRule(s, name);
  }

  /** A component of `d + [c] + w + n` that starts with `w` matches `names[k]` when `w` spells it in any case. */
  lemma PrefixAfterSep(d: string, c: char, w: string, n: string, names: seq<string>, k: nat)
    requires IsSep(c) && k < |names|
    requires |w| == |names[k]| && forall j :: 0 <= j < |w| ==> Fold(w[j]) == Fold(names[k][j])
    ensures PrefixRule(d + [c] + w + n, names)
  {
    var s := d + [c] + w + n;
    var i := |d| + 1;
    assert s[i - 1] == c && AtBoundary(s, i);
    assert forall j :: 0 <= j < |w| ==> s[i + j] == w[j];
    assert WordAt(s, i, names[k], true);
  }

  /**
   * Without a trailing anchor and ignoring ASCII case, any component that
   * merely starts with a system folder name is skipped: `Windows.old` and
   * `windows-tips.txt` as much as `Windows`.
   */
  lemma SystemFolderPrefixSkipped(d: string, c: char, k: nat, w: string, n: string)
    requires IsSep(c) && k < |SystemFolders|
    requires |w| == |SystemFolders[k]| && forall j :: 0 <= j < |w| ==> Fold(w[j]) == Fold(SystemFolders[k][j])
    ensures IsIgnored(d + [c] + w + n)
  {
    PrefixAfterSep(d, c, w, n, SystemFolders, k);
  }

  /** Likewise any component that starts with a system file name, in any ASCII case. */
  lemma SystemFilePrefixSkipped(d: string, c: char, k: nat, w: string, n: string)
    requires IsSep(c) && k < |SystemFiles|
    requires |w| == |SystemFiles[k]| && forall j :: 0 <= j < |w| ==> Fold(w[j]) == Fold(SystemFiles[k][j])
    ensures IsIgnored(d + [c] + w + n)
  {
    PrefixAfterSep(d, c, w, n, SystemFiles, k);
  }

  /**
   * The characters a rule can match first in a component: `.`, `n` and `A`
   * exactly, and the first letters of the system names in any ASCII case.
   */
  predicate RuleInitial(c: char) {
    c == '.' || c == 'n' || c == 'A' || Fold(c) in {'h', 'p', 's', 'd', '$', 'c', 'w'}
  }

  /** A path none of whose components starts with a rule's first character is kept. */
  lemma DocumentKept(s: string)
    requires forall i :: 0 <= i < |s| && AtBoundary(s, i) ==> !RuleInitial(s[i])
    ensures !IsIgnored(s)
  {
    NoWholeComponent(s, "node_modules");
    NoWholeComponent(s, ".git");
    NoWholeComponent(s, "AppData");
    NoPrefixMatch(s, SystemFiles);
    NoPrefixMatch(s, SystemFolders);
  }

  /** When no component of `s` starts with the first letter of any of `names`, the prefix rule misses. */
  lemma NoPrefixMatch(s: string, names: seq<string>)
    requires forall n :: 0 <= n < |names| ==> names[n] != []
    requires forall i, n :: 0 <= i < |s| && 0 <= n < |names| && AtBoundary(s, i) ==> Fold(s[i]) != Fold(names[n][0])
    ensures !PrefixRule(s, names)
  {
    forall i, n | 0 <= i <= |s| && 0 <= n < |names| && AtBoundary(s, i)
      ensures !WordAt(s, i, names[n], true)
    {
    }
  }

  /** When no component of `s` starts with the first letter of `name`, that component rule misses. */
  lemma NoWholeComponent(s: string, name: string)
    requires name != []
    requires forall i :: 0 <= i < |s| && AtBoundary(s, i) ==> s[i] != name[0]
    ensures !WholeComponentRule(s, name)
  {
    forall i | 0 <= i <= |s| && AtBoundary(s, i)
      ensures !WordAt(s, i, name, false)
    {
    }
  }

  /** An example: the path `E:\.`, a lone trailing dot under a drive root, is kept by every rule. */
  lemma LoneDotKept()
    ensures !IsIgnored("E:\\.")
  {
    var s := "E:\\.";
    forall i | 0 <= i && i + 1 < |s| && AtBoundary(s, i)
      ensures s[i] != '.'
    {
    }
    NoPrefixMatch(s, SystemFolders);
    NoPrefixMatch(s, SystemFiles);
    forall i | 0 <= i <= |s| && AtBoundary(s, i)
      ensures !WordAt(s, i, ".git", false)
    {
      assert i == 0 || i == 3;
      if i == 0 {
        assert s[i + 0] != ".git"[0];
      }
    }
  }
}
