/**
 * The pure part of the indexer's write path (electron/indexer.ts): the
 * fields derived for a queued path, the change-suppressed upsert into the
 * path-unique `files` table, the `files_fts` shadow rows its triggers keep,
 * and the in-order application of a detached batch.
 */
module Catalog {
  import opened Wrappers
  import opened NodePath

  /** The two fields of a watcher `Stats` object the indexer reads. */
  datatype Stats = Stats(size: int, mtimeMs: int)

  /** One pending change notification: a path with optional stats. */
  datatype QueueItem = QueueItem(path: string, stats: Option<Stats>)

  /** A row of `files`, without its path (the key) and its row id. */
  datatype FileRow = FileRow(name: string, extension: string, size: int, mtime: int, parentPath: string)

  /** A row of `files_fts`: the name, the path, and content populated from the name. */
  datatype SearchEntry = SearchEntry(name: string, path: string, content: string)

  /** `files`, keyed by its unique `path` column: at most one row per path by construction. */
  type Table = map<string, FileRow>

  /** `files_fts`, keyed by the path of the `files` row it shadows. */
  type Shadow = map<string, SearchEntry>

  /** The row's path-derived fields agree with the path. */
  predicate RowFits(path: string, row: FileRow) {
    row.name == Basename(path) && row.extension == Extname(path) && row.parentPath == Dirname(path)
  }

  predicate WellFormed(t: Table) {
    forall p :: p in t ==> RowFits(p, t[p])
  }

  /**
   * The row a flush writes for one queued item: name, extension and parent
   * from the path, size and mtime from the stats, or 0 and the current time
   * `now` when the item came without stats.
   */
  function RowOf(item: QueueItem, now: int): (r: FileRow)
    ensures RowFits(item.path, r)
    ensures item.stats.None? ==> r.size == 0 && r.mtime == now
    ensures item.stats.Some? ==> r.size == item.stats.value.size && r.mtime == item.stats.value.mtimeMs
  {
    var size := if item.stats.Some? then item.stats.value.size else 0;
    var mtime := if item.stats.Some? then item.stats.value.mtimeMs else now;
    FileRow(Basename(item.path), Extname(item.path), size, mtime, Dirname(item.path))
  }

  /** The `WHERE` of the upsert's `DO UPDATE`: a stored row is rewritten only when size or mtime differ. */
  predicate Changed(stored: FileRow, incoming: FileRow) {
    stored.mtime != incoming.mtime || stored.size != incoming.size
  }

  /** `INSERT ... ON CONFLICT(path) DO UPDATE ... WHERE changed`. */
  function Upsert(t: Table, path: string, row: FileRow): (r: Table)
    ensures r.Keys == t.Keys + {path}
    ensures r[path] == row || (path in t && r[path] == t[path] && !Changed(t[path], row))
    ensures forall p :: p in t && p != path ==> r[p] == t[p]
  {
    if path in t && !Changed(t[path], row) then t else t[path := row]
  }

  /**
   * Change suppression saves the write but is not observable in the table:
   * on a well-formed table, upserting a fitting row leaves exactly that row
   * under its path.
   */
  lemma SuppressionUnobservable(t: Table, path: string, row: FileRow)
    requires WellFormed(t) && RowFits(path, row)
    ensures Upsert(t, path, row) == t[path := row]
  {
    if path in t && !Changed(t[path], row) {
      assert t[path] == row;
    }
  }

  lemma UpsertWellFormed(t: Table, path: string, row: FileRow)
    requires WellFormed(t) && RowFits(path, row)
    ensures WellFormed(Upsert(t, path, row))
  {
    SuppressionUnobservable(t, path, row);
    var r := t[path := row];
    forall p | p in r ensures RowFits(p, r[p]) {
      if p != path {
        assert r[p] == t[p];
      }
    }
  }

  /** The `files_fts` row that the triggers derive from a `files` row. */
  function EntryOf(path: string, row: FileRow): SearchEntry {
    SearchEntry(row.name, path, row.name)
  }

  /** The whole of `files_fts` as a function of `files`. */
  function ShadowOf(t: Table): Shadow {
    map p | p in t :: EntryOf(p, t[p])
  }

  /** The insert and update triggers: the shadow of an updated table is the updated shadow. */
  lemma ShadowOfUpdate(t: Table, path: string, row: FileRow)
    ensures ShadowOf(t[path := row]) == ShadowOf(t)[path := EntryOf(path, row)]
  {
    assert ShadowOf(t[path := row]).Keys == ShadowOf(t)[path := EntryOf(path, row)].Keys;
  }

  /** The delete trigger: the shadow of a table without a path is the shadow without it. */
  lemma ShadowOfRemove(t: Table, path: string)
    ensures ShadowOf(t - {path}) == ShadowOf(t) - {path}
  {
    assert ShadowOf(t - {path}).Keys == (ShadowOf(t) - {path}).Keys;
  }

  /** An insert of a new path, followed by the insert trigger. */
  lemma InsertStep(t: Table, fts: Shadow, path: string, row: FileRow)
    requires fts == ShadowOf(t) && path !in t
    ensures Upsert(t, path, row) == t[path := row]
    ensures fts[path := EntryOf(path, row)] == ShadowOf(t[path := row])
  {
    ShadowOfUpdate(t, path, row);
  }

  /** A rewrite of a changed row, followed by the update trigger's delete and insert. */
  lemma UpdateStep(t: Table, fts: Shadow, path: string, row: FileRow)
    requires fts == ShadowOf(t) && path in t && Changed(t[path], row)
    ensures Upsert(t, path, row) == t[path := row]
    ensures (fts - {path})[path := EntryOf(path, row)] == ShadowOf(t[path := row])
  {
    ShadowOfUpdate(t, path, row);
    assert (fts - {path})[path := EntryOf(path, row)] == fts[path := EntryOf(path, row)];
  }

  /**
   * The table after the first `k` items of a detached batch, applied in
   * order; an item whose index is in `failed` raised inside the transaction
   * and was skipped. `clock(i)` is the time read for item `i`.
   */
  function ApplyPrefix(t: Table, batch: seq<QueueItem>, k: nat, clock: nat -> int, failed: set<nat>): Table
    requires k <= |batch|
    decreases k
  {
    if k == 0 then t
    else
      var before := ApplyPrefix(t, batch, k - 1, clock, failed);
      if k - 1 in failed then before
      else Upsert(before, batch[k - 1].path, RowOf(batch[k - 1], clock(k - 1)))
  }

  /** One more item: the table after `k + 1` items from the table after `k` (a step for `RunBatch`). */
  lemma ApplyNext(t: Table, batch: seq<QueueItem>, k: nat, clock: nat -> int, failed: set<nat>)
    requires k < |batch|
    ensures ApplyPrefix(t, batch, k + 1, clock, failed) ==
      if k in failed then ApplyPrefix(t, batch, k, clock, failed)
      else Upsert(ApplyPrefix(t, batch, k, clock, failed), batch[k].path, RowOf(batch[k], clock(k)))
  {
  }

  function ApplyBatch(t: Table, batch: seq<QueueItem>, clock: nat -> int, failed: set<nat>): Table {
    ApplyPrefix(t, batch, |batch|, clock, failed)
  }

  /** The paths of the first `k` items of the batch that did not fail. */
  function AppliedPaths(batch: seq<QueueItem>, k: nat, failed: set<nat>): set<string>
    requires k <= |batch|
  {
    set j | 0 <= j < k && j !in failed :: batch[j].path
  }

  /**
   * A batch only adds rows: afterwards the table holds exactly the old paths
   * and the paths of the items that did not fail (so an item still queued
   * for a path removed in the meantime puts it back).
   */
  lemma {:induction false} ApplyKeys(t: Table, batch: seq<QueueItem>, k: nat, clock: nat -> int, failed: set<nat>)
    requires k <= |batch|
    ensures ApplyPrefix(t, batch, k, clock, failed).Keys == t.Keys + AppliedPaths(batch, k, failed)
  {
    if k > 0 {
      ApplyKeys(t, batch, k - 1, clock, failed);
      var prev := AppliedPaths(batch, k - 1, failed);
      if k - 1 in failed {
        assert AppliedPaths(batch, k, failed) == prev;
      } else {
        assert AppliedPaths(batch, k, failed) == prev + {batch[k - 1].path};
      }
    }
  }

  /** Rows for paths the batch does not mention are left as they were. */
  lemma {:induction false} ApplyLeavesOthers(t: Table, batch: seq<QueueItem>, k: nat, clock: nat -> int, failed: set<nat>, p: string)
    requires k <= |batch| && p in t
    requires forall j :: 0 <= j < k && j !in failed ==> batch[j].path != p
    ensures p in ApplyPrefix(t, batch, k, clock, failed)
    ensures ApplyPrefix(t, batch, k, clock, failed)[p] == t[p]
  {
    if k > 0 {
      ApplyLeavesOthers(t, batch, k - 1, clock, failed, p);
    }
  }

  /** Every row a batch writes fits its path. */
  lemma {:induction false} ApplyWellFormed(t: Table, batch: seq<QueueItem>, k: nat, clock: nat -> int, failed: set<nat>)
    requires k <= |batch| && WellFormed(t)
    ensures WellFormed(ApplyPrefix(t, batch, k, clock, failed))
  {
    if k > 0 {
      ApplyWellFormed(t, batch, k - 1, clock, failed);
      var before := ApplyPrefix(t, batch, k - 1, clock, failed);
      if k - 1 !in failed {
        UpsertWellFormed(before, batch[k - 1].path, RowOf(batch[k - 1], clock(k - 1)));
      }
    }
  }

  /**
   * Within a batch the last successful item for a path wins: whatever came
   * before, the path ends up holding exactly that item's row.
   */
  lemma {:induction false} LastWins(t: Table, batch: seq<QueueItem>, k: nat, clock: nat -> int, failed: set<nat>, j: nat)
    requires j < k <= |batch| && j !in failed && WellFormed(t)
    requires forall j' :: j < j' < k && j' !in failed ==> batch[j'].path != batch[j].path
    ensures batch[j].path in ApplyPrefix(t, batch, k, clock, failed)
    ensures ApplyPrefix(t, batch, k, clock, failed)[batch[j].path] == RowOf(batch[j], clock(j))
  {
    var p := batch[j].path;
    ApplyWellFormed(t, batch, k - 1, clock, failed);
    var before := ApplyPrefix(t, batch, k - 1, clock, failed);
    var after := ApplyPrefix(t, batch, k, clock, failed);
    if k - 1 == j {
      SuppressionUnobservable(before, p, RowOf(batch[j], clock(j)));
      assert after == Upsert(before, p, RowOf(batch[j], clock(j)));
    } else {
      LastWins(t, batch, k - 1, clock, failed, j);
      if k - 1 !in failed {
        assert batch[k - 1].path != p;
        assert after == Upsert(before, batch[k - 1].path, RowOf(batch[k - 1], clock(k - 1)));
      } else {
        assert after == before;
      }
    }
  }

  /*
   * The schema as written. `files_fts` is declared without a `content=`
   * option, and SQLite's FTS5 accepts the `'delete'` command only on
   * contentless and external-content tables. The delete trigger and the
   * first statement of the update trigger therefore raise, and the statement
   * that fired them is rolled back.
   */

  /**
   * The upsert as the schema runs it: a new path is inserted, and the insert
   * trigger needs no `'delete'`. A changed stored row fires the update
   * trigger, which raises, so the item's error is swallowed and the row stays.
   */
  function UpsertAsWritten(t: Table, path: string, row: FileRow): (r: Table)
    ensures r.Keys == t.Keys + {path}
    ensures path !in t ==> r[path] == row
    ensures path in t ==> r[path] == t[path]
  {
    if path in t then t else t[path := row]
  }

  /**
   * A stored file whose size or mtime changed keeps its stale row under
   * the schema as written, while the intended upsert stores the new row.
   */
  lemma StaleAfterChange(t: Table, path: string, row: FileRow)
    requires path in t && Changed(t[path], row)
    ensures UpsertAsWritten(t, path, row)[path] == t[path] != row
    ensures Upsert(t, path, row)[path] == row
  {
  }

  /**
   * `DELETE FROM files WHERE path = ?` as the schema runs it: a stored row
   * fires the delete trigger, which raises, so the row stays. A path with no
   * row deletes nothing.
   */
  function DeleteAsWritten(t: Table, path: string): (r: Table)
    ensures r.Keys == t.Keys && forall p :: p in r ==> r[p] == t[p]
  {
    t
  }

  /**
   * A stored path survives its removal under the schema as written, while
   * the intended delete drops it together with its shadow row.
   */
  lemma DeletedRowStays(t: Table, path: string)
    requires path in t
    ensures path in DeleteAsWritten(t, path)
    ensures path !in t - {path} && path !in ShadowOf(t - {path})
  {
  }
}
