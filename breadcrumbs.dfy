/**
 * The breadcrumb bar of the explorer (`Breadcrumbs` in src/App.tsx): one
 * button per non-empty component of the active path, each leading to the
 * path made of the components up to and including its own.
 */
module Breadcrumbs {
  import opened Text

  datatype Crumb = Crumb(text: string, target: string)

  /**
   * Crumb `i`'s target: the first `i + 1` components joined with `\`, with a
   * trailing `\` on the first crumb when it holds a `:` (a drive such as `C:`).
   */
  function CrumbTarget(parts: seq<string>, i: nat): string
    requires i < |parts|
  {
    JoinBackslash(parts[..i + 1]) + (if i == 0 && ':' in parts[0] then "\\" else "")
  }

  function Crumbs(path: string): (r: seq<Crumb>)
    ensures |r| == |Components(path)|
    ensures forall i :: 0 <= i < |r| ==> r[i].text == Components(path)[i] && r[i].text != []
  {
    var parts := Components(path);
    seq(|parts|, i requires 0 <= i < |parts| => Crumb(parts[i], CrumbTarget(parts, i)))
  }

  /**
   * Following crumb `i` leads to a path whose components are exactly the
   * first `i + 1` components of the current path: its own text last.
   */
  lemma CrumbLeadsToPrefix(path: string, i: nat)
    requires i < |Crumbs(path)|
    ensures Components(Crumbs(path)[i].target) == Components(path)[..i + 1]
    ensures Components(Crumbs(path)[i].target)[i] == Crumbs(path)[i].text
  {
    var parts := Components(path);
    var prefix := parts[..i + 1];
    forall k | 0 <= k < |prefix|
      ensures prefix[k] != [] && NoSep(prefix[k])
    {
      assert prefix[k] == parts[k];
    }
    ComponentsOfJoin(prefix, i == 0 && ':' in parts[0]);
  }

  /**
   * Only the first crumb, and only when it holds a `:`, gets a trailing
   * separator: it then leads to the drive root (`C:\`), not to the
   * drive-relative `C:`. Every other crumb ends with the last character of
   * its own text.
   */
  lemma CrumbEndsWithSep(path: string, i: nat)
    requires i < |Crumbs(path)|
    ensures var target := Crumbs(path)[i].target;
      && target != []
      && (IsSep(target[|target| - 1]) <==> i == 0 && ':' in Components(path)[0])
      && (i == 0 && ':' in Components(path)[0] ==> target == Components(path)[0] + "\\")
  {
    var parts := Components(path);
    var prefix := parts[..i + 1];
    assert prefix[|prefix| - 1] == parts[i];
    JoinBackslashLast(prefix);
    var text := parts[i];
    assert !IsSep(text[|text| - 1]);
    if i == 0 {
      assert prefix == [parts[0]];
    }
  }

  /** The last crumb leads back to the current folder, up to repeated or trailing separators. */
  lemma LastCrumbIsCurrent(path: string)
    requires Crumbs(path) != []
    ensures Components(Crumbs(path)[|Crumbs(path)| - 1].target) == Components(path)
  {
    var parts, crumbs := Components(path), Crumbs(path);
    var last := |crumbs| - 1;
    CrumbLeadsToPrefix(path, last);
    assert Components(crumbs[last].target) == parts[..last + 1];
    assert parts[..last + 1] == parts;
  }
}
