/**
 * The indexing service of electron/indexer.ts as one object: the pending
 * queue and its flush timer, the watcher registry, the `files`, `files_fts`
 * and `favorites` tables, and the progress counter with the values it has
 * emitted. SQLite, the watcher library, timers and the clock are replaced by
 * parameters: `clock(i)` is the time read for batch item `i`, `failed` the
 * batch indices whose insert raises, and the `...Fails` flags the statements
 * or transactions that raise.
 */
module Indexer {
  import opened Wrappers
  import opened Catalog
  import opened SearchQuery

  /** `BATCH_SIZE`: a queue this long is flushed at once. */
  const BatchSize: nat := 500

  /** The paths of `files_fts` that the match oracle accepts for `pattern`. */
  function Hits(fts: Shadow, pattern: string, matches: (string, SearchEntry) -> bool): set<string> {
    set p | p in fts && matches(pattern, fts[p])
  }

  function PathsOf(entries: seq<SearchEntry>): set<string> {
    set i | 0 <= i < |entries| :: entries[i].path
  }

  lemma PathsOfAppend(entries: seq<SearchEntry>, e: SearchEntry)
    ensures PathsOf(entries + [e]) == PathsOf(entries) + {e.path}
  {
    var extended := entries + [e];
    assert forall i :: 0 <= i < |entries| ==> extended[i] == entries[i];
    assert extended[|entries|] == e;
  }

  function Min(a: int, b: int): int {
    if a < b then a else b
  }

  /**
   * The body of the flush transaction: each item of the detached batch in
   * order, as an insert (the insert trigger adds its shadow row), an update
   * (the update trigger replaces its shadow row) or, when size and mtime are
   * unchanged, nothing at all. Items in `failed` raise and are skipped.
   */
  method RunBatch(t0: Table, fts0: Shadow, batch: seq<QueueItem>, clock: nat -> int, failed: set<nat>)
    returns (t: Table, fts: Shadow)
    requires fts0 == ShadowOf(t0) && WellFormed(t0)
    ensures t == ApplyBatch(t0, batch, clock, failed)
    ensures fts == ShadowOf(t) && WellFormed(t)
  {
    t, fts := t0, fts0;
    var i := 0;
    while i < |batch|
      invariant 0 <= i <= |batch|
      invariant t == ApplyPrefix(t0, batch, i, clock, failed)
      invariant fts == ShadowOf(t)
    {
      ApplyNext(t0, batch, i, clock, failed);
      if i !in failed {
        var path := batch[i].path;
        var row := RowOf(batch[i], clock(i));
        if path !in t {
          // INSERT; trigger files_ai adds the shadow row.
          InsertStep(t, fts, path, row);
          t := t[path := row];
          fts := fts[path := EntryOf(path, row)];
        } else if Changed(t[path], row) {
          // DO UPDATE; trigger files_au deletes the old shadow row and inserts the new one.
          UpdateStep(t, fts, path, row);
          t := t[path := row];
          fts := (fts - {path})[path := EntryOf(path, row)];
        }
        // Otherwise the WHERE of DO UPDATE is false: no write, no trigger.
      }
      i := i + 1;
    }
    ApplyWellFormed(t0, batch, i, clock, failed);
  }

  /**
   * `r` holds one shadow row for each path of `hits` outside `remaining`,
   * each path once.
   */
  ghost predicate Selection(fts: Shadow, hits: set<string>, r: seq<SearchEntry>, remaining: set<string>) {
    && remaining <= hits
    && PathsOf(r) == hits - remaining
    && |r| + |remaining| == |hits|
    && (forall i :: 0 <= i < |r| ==>
          r[i].path in hits && r[i].path !in remaining && r[i].path in fts && r[i] == fts[r[i].path])
    && (forall i, j :: 0 <= i < j < |r| ==> r[i].path != r[j].path)
  }

  lemma SelectionStep(fts: Shadow, hits: set<string>, r: seq<SearchEntry>, remaining: set<string>, p: string)
    requires hits <= fts.Keys
    requires forall q :: q in fts ==> fts[q].path == q
    requires Selection(fts, hits, r, remaining) && p in remaining
    ensures Selection(fts, hits, r + [fts[p]], remaining - {p})
  {
    var next, left := r + [fts[p]], remaining - {p};
    PathsOfAppend(r, fts[p]);
    assert PathsOf(next) == hits - left;
    assert |left| == |remaining| - 1;
    forall i | 0 <= i < |next|
      ensures next[i].path in hits && next[i].path !in left && next[i].path in fts && next[i] == fts[next[i].path]
    {
      if i < |r| {
        assert next[i] == r[i];
      }
    }
    forall i, j | 0 <= i < j < |next|
      ensures next[i].path != next[j].path
    {
      assert next[i] == r[i];
      if j < |r| {
        assert next[j] == r[j];
      }
    }
  }

  /**
   * Reads rows of the shadow table for the paths in `hits`, one per path, until
   * `limit` rows are read or the paths run out (`LIMIT` on the result rows).
   */
  method TakeEntries(fts: Shadow, hits: set<string>, limit: nat) returns (r: seq<SearchEntry>)
    requires hits <= fts.Keys
    requires forall p :: p in fts ==> fts[p].path == p
    ensures |r| == Min(limit, |hits|)
    ensures forall i :: 0 <= i < |r| ==> r[i].path in hits && r[i] == fts[r[i].path]
    ensures forall i, j :: 0 <= i < j < |r| ==> r[i].path != r[j].path
    ensures |hits| <= limit ==> PathsOf(r) == hits
  {
    var remaining := hits;
    r := [];
    while remaining != {} && |r| < limit
      invariant Selection(fts, hits, r, remaining)
      invariant |r| <= limit
      decreases remaining
    {
      var p :| p in remaining;
      SelectionStep(fts, hits, r, remaining, p);
      r := r + [fts[p]];
      remaining := remaining - {p};
    }
  }

  class IndexerService {
    /** Whether `initDatabase` opened the database; every table operation is inert without it. */
    const dbOpen: bool
    /** `fileQueue` */
    var queue: seq<QueueItem>
    /** `flushTimeout !== null` */
    var timerArmed: bool
    /** How many flush timers have been created; `setTimeout` calls, counted. */
    ghost var timerStarts: nat
    /** `watchers`, keyed by the exact root string, with the depth each was started with. */
    var watchers: map<string, int>
    var files: Table
    var filesFts: Shadow
    /** `favorites`: path to display name. */
    var favorites: map<string, string>
    /** `totalIndexedFiles` */
    var totalIndexedFiles: nat
    /** The values emitted as `progress` events, oldest first. */
    var progress: seq<nat>

    /**
     * The service invariant: `files_fts` is exactly what the triggers derive
     * from `files`, every row fits its path, an armed timer always has work,
     * and with the database open the queue never holds a full batch and never
     * waits without a timer.
     */
    ghost predicate Valid()
      reads this
    {
      && TablesValid()
      && (dbOpen ==> |queue| < BatchSize && (queue != [] ==> timerArmed))
    }

    /** The part of `Valid` that also holds in the middle of an enqueue that fills the batch. */
    ghost predicate TablesValid()
      reads this
    {
      && filesFts == ShadowOf(files)
      && WellFormed(files)
      && (timerArmed ==> queue != [])
    }

    /**
     * The service at start-up: `databaseOpened` says whether the database opened, and
     * `storedFiles`, `storedFavorites` are the tables it already holds.
     */
    constructor (databaseOpened: bool, storedFiles: Table, storedFavorites: map<string, string>)
      requires WellFormed(storedFiles)
      ensures Valid() && dbOpen == databaseOpened
      ensures queue == [] && !timerArmed && timerStarts == 0 && watchers == map[]
      ensures files == (if databaseOpened then storedFiles else map[])
      ensures favorites == (if databaseOpened then storedFavorites else map[])
      ensures totalIndexedFiles == 0 && progress == []
    {
      dbOpen := databaseOpened;
      queue := [];
      timerArmed := false;
      timerStarts := 0;
      watchers := map[];
      files := if databaseOpened then storedFiles else map[];
      filesFts := ShadowOf(if databaseOpened then storedFiles else map[]);
      favorites := if databaseOpened then storedFavorites else map[];
      totalIndexedFiles := 0;
      progress := [];
    }

    /**
     * `flushQueue`: disarm the timer; if there is work and a database, detach
     * the whole queue and apply it as one transaction of change-suppressed
     * upserts, in queue order. A committed batch advances the counter by its
     * full length, failed and suppressed items included, and emits the new
     * total; a transaction that raises leaves the tables and the counter as
     * they were, but the detached batch is gone.
     */
    method FlushQueue(clock: nat -> int, failed: set<nat>, commitFails: bool)
      requires TablesValid()
      modifies this
      ensures Valid()
      ensures !timerArmed && timerStarts == old(timerStarts)
      ensures old(queue) == [] || !dbOpen ==>
        queue == old(queue) && files == old(files) &&
        totalIndexedFiles == old(totalIndexedFiles) && progress == old(progress)
      ensures old(queue) != [] && dbOpen ==> queue == []
      ensures old(queue) != [] && dbOpen && commitFails ==>
        files == old(files) && totalIndexedFiles == old(totalIndexedFiles) && progress == old(progress)
      ensures old(queue) != [] && dbOpen && !commitFails ==>
        && files == ApplyBatch(old(files), old(queue), clock, failed)
        && totalIndexedFiles == old(totalIndexedFiles) + |old(queue)|
        && progress == old(progress) + [totalIndexedFiles]
      ensures watchers == old(watchers) && favorites == old(favorites)
    {
      timerArmed := false;
      if |queue| == 0 || !dbOpen {
        return;
      }
      var batch := queue;
      queue := [];
      var t, fts := RunBatch(files, filesFts, batch, clock, failed);
      if !commitFails {
        files, filesFts := t, fts;
        totalIndexedFiles := totalIndexedFiles + |batch|;
        progress := progress + [totalIndexedFiles];
      }
    }

    /**
     * `queueFileForIndex`: append the notification; a queue that reaches
     * `BatchSize` is flushed at once, otherwise a timer is armed only if none
     * is pending. The flush parameters are used only by that immediate flush.
     */
    method QueueFileForIndex(path: string, stats: Option<Stats>, clock: nat -> int, failed: set<nat>, commitFails: bool)
      requires Valid()
      modifies this
      ensures Valid()
      ensures watchers == old(watchers) && favorites == old(favorites)
      ensures |old(queue)| + 1 < BatchSize ==>
        && queue == old(queue) + [QueueItem(path, stats)]
        && timerArmed
        && timerStarts == old(timerStarts) + (if old(timerArmed) then 0 else 1)
        && files == old(files) && totalIndexedFiles == old(totalIndexedFiles) && progress == old(progress)
      ensures |old(queue)| + 1 >= BatchSize ==>
        && !timerArmed && timerStarts == old(timerStarts)
        && (!dbOpen ==> queue == old(queue) + [QueueItem(path, stats)] && files == old(files)
                        && totalIndexedFiles == old(totalIndexedFiles) && progress == old(progress))
        && (dbOpen ==> queue == [])
        && (dbOpen && !commitFails ==>
              && files == ApplyBatch(old(files), old(queue) + [QueueItem(path, stats)], clock, failed)
              && totalIndexedFiles == old(totalIndexedFiles) + BatchSize
              && progress == old(progress) + [totalIndexedFiles])
        && (dbOpen && commitFails ==>
              files == old(files) && totalIndexedFiles == old(totalIndexedFiles) && progress == old(progress))
    {
      queue := queue + [QueueItem(path, stats)];
      if |queue| >= BatchSize {
        FlushQueue(clock, failed, commitFails);
      } else if !timerArmed {
        timerArmed := true;
        timerStarts := timerStarts + 1;
      }
    }

    /** The pending timer fires (`FLUSH_DELAY` after it was armed) and flushes. */
    method TimerFires(clock: nat -> int, failed: set<nat>, commitFails: bool)
      requires Valid() && timerArmed
      modifies this
      ensures Valid() && !timerArmed && timerStarts == old(timerStarts)
      ensures dbOpen ==> queue == []
      ensures dbOpen && !commitFails ==>
        && files == ApplyBatch(old(files), old(queue), clock, failed)
        && totalIndexedFiles == old(totalIndexedFiles) + |old(queue)|
        && progress == old(progress) + [totalIndexedFiles]
      ensures !dbOpen || commitFails ==>
        files == old(files) && totalIndexedFiles == old(totalIndexedFiles) && progress == old(progress)
      ensures !dbOpen ==> queue == old(queue)
      ensures watchers == old(watchers) && favorites == old(favorites)
    {
      FlushQueue(clock, failed, commitFails);
    }

    /**
     * `removeFileFromIndex`: delete the path's row (the delete trigger drops
     * its shadow row). The queue is not touched.
     */
    method RemoveFileFromIndex(path: string, deleteFails: bool)
      requires Valid()
      modifies this`files, this`filesFts
      ensures Valid()
      ensures files == if dbOpen && !deleteFails then old(files) - {path} else old(files)
    {
      if !dbOpen || deleteFails {
        return;
      }
      ShadowOfRemove(files, path);
      files := files - {path};
      filesFts := filesFts - {path};
    }

    /**
     * The registry part of `indexDirectory`: a root already registered, by the
     * exact same string, is left alone whatever the depth; any other root is
     * registered with its depth. Scanning and watching are not modelled.
     */
    method IndexDirectory(dirPath: string, depth: int) returns (registered: bool)
      requires Valid()
      modifies this`watchers
      ensures Valid()
      ensures registered == (dirPath !in old(watchers))
      ensures watchers == if registered then old(watchers)[dirPath := depth] else old(watchers)
    {
      if dirPath in watchers {
        return false;
      }
      watchers := watchers[dirPath := depth];
      return true;
    }

    /**
     * `resetIndex`: drop every watcher, the queue and its timer; then, with a
     * database, delete every `files` row in one transaction and zero the
     * counter. A failing delete leaves the tables and the counter. Favorites
     * are not touched.
     */
    method ResetIndex(clearFails: bool)
      requires Valid()
      modifies this
      ensures Valid()
      ensures watchers == map[] && queue == [] && !timerArmed && timerStarts == old(timerStarts)
      ensures dbOpen && !clearFails ==> files == map[] && filesFts == map[] && totalIndexedFiles == 0
      ensures !dbOpen || clearFails ==> files == old(files) && totalIndexedFiles == old(totalIndexedFiles)
      ensures favorites == old(favorites) && progress == old(progress)
    {
      watchers := map[];
      queue := [];
      timerArmed := false;
      if dbOpen && !clearFails {
        files := map[];
        filesFts := map[];
        totalIndexedFiles := 0;
      }
    }

    /**
     * `hasIndexedFiles`: the cold-start probe. True exactly when the database
     * is open, the probe does not raise and some row exists; the search table
     * then has a row too.
     */
    method HasIndexedFiles(probeFails: bool) returns (r: bool)
      requires Valid()
      ensures r <==> dbOpen && !probeFails && files != map[]
      ensures r ==> filesFts != map[]
    {
      if !dbOpen || probeFails {
        return false;
      }
      if files == map[] {
        return false;
      }
      var p :| p in files;
      assert p in filesFts;
      return true;
    }

    /**
     * `searchFiles`: no database or a query that raises gives no results.
     * Otherwise the rows of `files_fts` that match the compiled pattern,
     * at most `MaxResults` of them, each one once, in an order left to the
     * rank; all of them when there are no more than `MaxResults`.
     */
    method SearchFiles(query: string, matches: (string, SearchEntry) -> bool, queryFails: bool)
      returns (r: seq<SearchEntry>)
      requires Valid()
      ensures !dbOpen || queryFails ==> r == []
      ensures |r| <= MaxResults
      ensures forall i :: 0 <= i < |r| ==>
        && r[i].path in files
        && r[i] == EntryOf(r[i].path, files[r[i].path])
        && matches(SearchPattern(query), r[i])
      ensures forall i, j :: 0 <= i < j < |r| ==> r[i].path != r[j].path
      ensures dbOpen && !queryFails ==>
        |r| == Min(MaxResults, |Hits(filesFts, SearchPattern(query), matches)|)
      ensures dbOpen && !queryFails && |Hits(filesFts, SearchPattern(query), matches)| <= MaxResults ==>
        PathsOf(r) == Hits(filesFts, SearchPattern(query), matches)
    {
      if !dbOpen || queryFails {
        return [];
      }
      var hits := Hits(filesFts, SearchPattern(query), matches);
      r := TakeEntries(filesFts, hits, MaxResults);
    }

    /** `getFavorites`: the stored favorites, or none without a database or when the read raises. */
    method GetFavorites(readFails: bool) returns (r: map<string, string>)
      ensures r == if dbOpen && !readFails then favorites else map[]
    {
      if !dbOpen || readFails {
        return map[];
      }
      return favorites;
    }

    /** `addFavorite`: `INSERT OR IGNORE`, so a path already present keeps its first name. */
    method AddFavorite(path: string, name: string, insertFails: bool)
      modifies this`favorites
      ensures favorites ==
        if dbOpen && !insertFails && path !in old(favorites) then old(favorites)[path := name] else old(favorites)
      ensures dbOpen && !insertFails ==> path in favorites
    {
      if !dbOpen || insertFails {
        return;
      }
      if path !in favorites {
        favorites := favorites[path := name];
      }
    }

    /** `removeFavorite` */
    method RemoveFavorite(path: string, deleteFails: bool)
      modifies this`favorites
      ensures favorites == if dbOpen && !deleteFails then old(favorites) - {path} else old(favorites)
      ensures dbOpen && !deleteFails ==> path !in favorites
    {
      if !dbOpen || deleteFails {
        return;
      }
      favorites := favorites - {path};
    }
  }

  /** After a reset that commits, every search comes back empty. */
  method ResetThenSearch(svc: IndexerService, query: string, matches: (string, SearchEntry) -> bool)
    returns (r: seq<SearchEntry>)
    requires svc.Valid()
    modifies svc
    ensures r == []
  {
    svc.ResetIndex(false);
    r := svc.SearchFiles(query, matches, false);
  }
}
