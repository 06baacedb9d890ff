/**
 * The order in which the explorer lists the active tab's files
 * (`sortedFiles` in src/App.tsx): folders first, then by the chosen key,
 * ascending or descending. `localeCompare` is replaced by `Collate`, a
 * lexicographic order on code points (Unicode scalar values), which differs
 * from UTF-16 code-unit order above U+FFFF, and dates by integer
 * milliseconds.
 */
module FileSort {
  import opened Wrappers
  import opened Text

  /** One directory entry as the listing returns it. */
  datatype FileEntry = FileEntry(name: string, path: string, isDirectory: bool, size: Option<int>, mtime: int)

  datatype SortBy = ByName | ByDate | BySize | ByType
  datatype SortOrder = Asc | Desc

  /** Three-way comparison of two strings, character by character; a proper prefix comes first. */
  function Collate(a: string, b: string): (r: int)
    ensures -1 <= r <= 1
  {
    if a == [] && b == [] then 0
    else if a == [] then -1
    else if b == [] then 1
    else if a[0] < b[0] then -1
    else if a[0] > b[0] then 1
    else Collate(a[1..], b[1..])
  }

  lemma {:induction false} CollateAntisymmetric(a: string, b: string)
    ensures Collate(a, b) == -Collate(b, a)
  {
    if a != [] && b != [] && a[0] == b[0] {
      CollateAntisymmetric(a[1..], b[1..]);
    }
  }

  /** `Collate` ties exactly on equal strings. */
  lemma {:induction false} CollateTiesOnlyEqual(a: string, b: string)
    ensures Collate(a, b) == 0 <==> a == b
  {
    if a != [] && b != [] && a[0] == b[0] {
      CollateTiesOnlyEqual(a[1..], b[1..]);
      assert a == [a[0]] + a[1..] && b == [b[0]] + b[1..];
    }
  }

  lemma {:induction false} CollateTransitive(a: string, b: string, c: string)
    requires Collate(a, b) <= 0 && Collate(b, c) <= 0
    ensures Collate(a, c) <= 0
  {
    if a != [] && b != [] && c != [] && a[0] == b[0] == c[0] {
      CollateTransitive(a[1..], b[1..], c[1..]);
    }
  }

  /** `(size || 0)`: a missing size counts as zero. */
  function SizeKey(e: FileEntry): int {
    if e.size.Some? then e.size.value else 0
  }

  /** `name.split('.').pop() || ''`: the text after the last dot, or the whole name when there is none. */
  function TypeKey(name: string): string {
    LastSegment(name, {'.'})
  }

  lemma TypeKeyShape(name: string)
    ensures '.' !in name ==> TypeKey(name) == name
    ensures '.' in name ==>
      var k := |name| - |TypeKey(name)|;
      && 0 < k <= |name| && name[k - 1] == '.' && name[k..] == TypeKey(name)
      && '.' !in TypeKey(name)
  {
    LastSegmentShape(name, {'.'});
    var r := TypeKey(name);
    if |r| == |name| {
      assert name[0..] == name;
    }
    assert forall k :: 0 <= k < |r| ==> r[k] != '.';
  }

  /** The comparison inside one group, before the order is applied. */
  function Within(a: FileEntry, b: FileEntry, key: SortBy): int {
    match key
    case ByName => Collate(a.name, b.name)
    case BySize => SizeKey(a) - SizeKey(b)
    case ByDate => a.mtime - b.mtime
    case ByType => Collate(TypeKey(a.name), TypeKey(b.name))
  }

  /** The comparator handed to `sort`: negative when `a` goes first. */
  function Compare(a: FileEntry, b: FileEntry, key: SortBy, order: SortOrder): int {
    if a.isDirectory != b.isDirectory then (if a.isDirectory then -1 else 1)
    else if order == Asc then Within(a, b, key)
    else -Within(a, b, key)
  }

  lemma WithinAntisymmetric(a: FileEntry, b: FileEntry, key: SortBy)
    ensures Within(a, b, key) == -Within(b, a, key)
  {
    match key
    case ByName => CollateAntisymmetric(a.name, b.name);
    case ByType => CollateAntisymmetric(TypeKey(a.name), TypeKey(b.name));
    case BySize =>
    case ByDate =>
  }

  /** Swapping the arguments flips the sign: the comparator is consistent. */
  lemma CompareAntisymmetric(a: FileEntry, b: FileEntry, key: SortBy, order: SortOrder)
    ensures Compare(a, b, key, order) == -Compare(b, a, key, order)
  {
    WithinAntisymmetric(a, b, key);
  }

  lemma WithinTransitive(a: FileEntry, b: FileEntry, c: FileEntry, key: SortBy)
    requires Within(a, b, key) <= 0 && Within(b, c, key) <= 0
    ensures Within(a, c, key) <= 0
  {
    match key
    case ByName => CollateTransitive(a.name, b.name, c.name);
    case ByType => CollateTransitive(TypeKey(a.name), TypeKey(b.name), TypeKey(c.name));
    case BySize =>
    case ByDate =>
  }

  /** With `CompareAntisymmetric`, the comparator is a total preorder, as `sort` needs. */
  lemma CompareTransitive(a: FileEntry, b: FileEntry, c: FileEntry, key: SortBy, order: SortOrder)
    requires Compare(a, b, key, order) <= 0 && Compare(b, c, key, order) <= 0
    ensures Compare(a, c, key, order) <= 0
  {
    if a.isDirectory == b.isDirectory == c.isDirectory {
      if order == Asc {
        WithinTransitive(a, b, c, key);
      } else {
        WithinAntisymmetric(a, b, key);
        WithinAntisymmetric(b, c, key);
        WithinAntisymmetric(a, c, key);
        WithinTransitive(c, b, a, key);
      }
    }
  }

  /**
   * Descending order reverses the comparison between two folders or between
   * two files, and leaves the comparison between a folder and a file as it is.
   */
  lemma DescReversesOnlyWithinGroup(a: FileEntry, b: FileEntry, key: SortBy)
    ensures a.isDirectory == b.isDirectory ==> Compare(a, b, key, Desc) == Compare(b, a, key, Asc)
    ensures a.isDirectory != b.isDirectory ==> Compare(a, b, key, Desc) == Compare(a, b, key, Asc)
  {
    WithinAntisymmetric(a, b, key);
  }

  /** Each adjacent pair is in comparator order. */
  predicate Sorted(s: seq<FileEntry>, key: SortBy, order: SortOrder) {
    forall i :: 0 <= i < |s| - 1 ==> Compare(s[i], s[i + 1], key, order) <= 0
  }

  /** `x` placed before the first entry it does not come after. */
  function Insert(x: FileEntry, s: seq<FileEntry>, key: SortBy, order: SortOrder): (r: seq<FileEntry>)
    ensures multiset(r) == multiset(s) + multiset{x}
    ensures |r| == |s| + 1 && (r[0] == x || (s != [] && r[0] == s[0]))
  {
    if s == [] then [x]
    else if Compare(x, s[0], key, order) <= 0 then [x] + s
    else
      assert s == [s[0]] + s[1..];
      [s[0]] + Insert(x, s[1..], key, order)
  }

  lemma {:induction false} InsertSorted(x: FileEntry, s: seq<FileEntry>, key: SortBy, order: SortOrder)
    requires Sorted(s, key, order)
    ensures Sorted(Insert(x, s, key, order), key, order)
  {
    if s != [] && Compare(x, s[0], key, order) > 0 {
      var rest := Insert(x, s[1..], key, order);
      InsertSorted(x, s[1..], key, order);
      CompareAntisymmetric(x, s[0], key, order);
      var r := [s[0]] + rest;
      forall i | 0 <= i < |r| - 1
        ensures Compare(r[i], r[i + 1], key, order) <= 0
      {
        if i > 0 {
          assert r[i] == rest[i - 1] && r[i + 1] == rest[i];
        }
      }
    }
  }

  /**
   * The listing in display order: a sorted permutation of `files`; `files`
   * itself is a value and is left as it was.
   */
  function SortFiles(files: seq<FileEntry>, key: SortBy, order: SortOrder): (r: seq<FileEntry>)
    ensures multiset(r) == multiset(files)
    ensures Sorted(r, key, order)
  {
    if files == [] then []
    else
      var rest := SortFiles(files[1..], key, order);
      InsertSorted(files[0], rest, key, order);
      assert files == [files[0]] + files[1..];
      Insert(files[0], rest, key, order)
  }

  /** A sorted listing is in comparator order pair by pair, not only neighbour by neighbour. */
  lemma {:induction false} SortedPairwise(s: seq<FileEntry>, key: SortBy, order: SortOrder, i: int, j: int)
    requires Sorted(s, key, order)
    requires 0 <= i < j < |s|
    ensures Compare(s[i], s[j], key, order) <= 0
    decreases j - i
  {
    if i < j - 1 {
      SortedPairwise(s, key, order, i, j - 1);
      CompareTransitive(s[i], s[j - 1], s[j], key, order);
    }
  }

  /** In a sorted listing, in either order and by any key, every folder precedes every file. */
  lemma {:induction false} FoldersFirst(s: seq<FileEntry>, key: SortBy, order: SortOrder, i: int, j: int)
    requires Sorted(s, key, order)
    requires 0 <= i < j < |s| && s[j].isDirectory
    ensures s[i].isDirectory
    decreases j - i
  {
    assert Compare(s[j - 1], s[j], key, order) <= 0;
    if i < j - 1 {
      FoldersFirst(s, key, order, i, j - 1);
    }
  }
}
