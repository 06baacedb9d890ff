# File explorer indexer and tabs, modelled in Dafny

This project models two parts of a desktop file explorer built on Electron and React.

**The background indexer** (`electron/indexer.ts`) is a sequential state machine. Watcher events put file paths in a pending queue. The queue is flushed every 500 items, or when a single armed timer fires. A flush applies the batch, in order, as change-suppressed upserts into a `files` table that holds one row per path. SQLite triggers are meant to keep a full-text shadow table, `files_fts`, equal to a function of `files`. The model states that intent; the schema as written falls short of it (see "Findings"). Alongside these sit:

- a registry of watched roots
- direct removal of a path
- a reset
- a cold-start probe
- a favorites table with insert-or-ignore
- a query compiler that returns at most 100 rows

In the model, `Indexer.IndexerService` is a class over these collections. Its invariant says the shadow table is derived from `files`. Each method's contract, together with its `modifies` frame, states the exact new state and the error paths.

**The explorer front end** (`src/App.tsx`) covers:

- tabs, each with a browser-style history, plus the active tab id (`Tabs.Explorer`)
- the folders-first comparator that orders a listing (`FileSort`)
- breadcrumb targets (`Breadcrumbs`)
- the drag-and-drop move plan and the favorite display name (`ExplorerActions`)

Outside effects are replaced by parameters:

- **Clock:** `clock(i)` is the `Date.now()` value read for batch item `i`.
- **Failing operations:** `failed` is the set of batch items whose insert raises. The `...Fails` flags mark a statement or transaction that raises.
- **FTS matching:** a `matches` oracle stands in for the FTS5 `MATCH` test.
- **Directory listing:** `Option<seq<FileEntry>>` is the answer of `listDirectory`, where `None` means it failed.

The modules are:

- `Wrappers`: `Option`
- `Text`: separator splitting and joining
- `NodePath`: `basename`, `extname` and `dirname` for Windows paths
- `IgnoreRules`: the watcher's `ignored` regular expressions
- `Catalog`: rows, upsert, shadow table and batch application
- `SearchQuery`
- `Indexer`
- `FileSort`
- `Tabs`
- `Breadcrumbs`
- `ExplorerActions`

## Model

| member | source | states |
|---|---|---|
| Catalog.RowOf | electron/indexer.ts:171-176 | The row for a queued path has name, extension and parent taken from the path. Size and mtime come from the stats; an item without stats gets size 0 and mtime equal to the current time. |
| Catalog.Upsert | electron/indexer.ts:154-164 | The upsert adds the path as a key and leaves every other row alone. The path ends up with the incoming row, or keeps its stored row only when size and mtime are both unchanged. |
| Catalog.SuppressionUnobservable | electron/indexer.ts:157-163 | On a table whose rows fit their paths, skipping an unchanged row gives the same table as rewriting it. Change suppression saves the write but cannot be observed. |
| Catalog.UpsertWellFormed | electron/indexer.ts:154-176 | An upsert keeps every row consistent with its path (name, extension and parent). |
| Catalog.ShadowOfUpdate | electron/indexer.ts:41-43 | Insert and update triggers: the shadow of the updated table equals the old shadow with this path's entry replaced. |
| Catalog.ShadowOfRemove | electron/indexer.ts:44-46 | Delete trigger: the shadow of the table without a path equals the old shadow without that path's entry. |
| Catalog.InsertStep | electron/indexer.ts:41-43 | Inserting a new path plus the insert trigger's entry keeps `files_fts` equal to the derived shadow. |
| Catalog.UpdateStep | electron/indexer.ts:47-50 | Rewriting a changed row plus the update trigger's delete-then-insert keeps `files_fts` equal to the derived shadow. |
| Catalog.ApplyKeys | electron/indexer.ts:168-189 | After a batch, the table holds exactly the old paths plus the paths of the items that did not raise. A batch never deletes a row, so a still-queued add re-inserts a path removed in the meantime. |
| Catalog.ApplyLeavesOthers | electron/indexer.ts:168-189 | The row of a path that no successful item mentions is unchanged. |
| Catalog.ApplyWellFormed | electron/indexer.ts:168-189 | Every row a batch writes is consistent with its path. |
| Catalog.LastWins | electron/indexer.ts:168-189 | For a path that appears several times in a batch, the row is that of its last successful item, whatever came before. |
| Indexer.RunBatch | electron/indexer.ts:168-192 | The per-item loop produces the table `ApplyBatch` specifies. Through the trigger steps, the search map stays equal to the table's shadow, and the rows stay consistent with their paths. |
| Indexer.TakeEntries | electron/indexer.ts:64-72 | Reading matching rows up to a limit returns `min(limit, hits)` entries. Each is the stored shadow row of a hit, and no path appears twice. When the hits fit under the limit, all of them are returned. |
| Indexer.IndexerService.constructor | electron/indexer.ts:13-57 | Startup state: empty queue, no timer, no watchers, counter 0. The tables are the stored ones if the database opened and empty otherwise. The service invariant holds. |
| Indexer.IndexerService.QueueFileForIndex | electron/indexer.ts:133-140 | The item is appended. Below 500 items, a timer is armed only when none is pending, so at most one is pending at a time. Reaching 500 flushes at once, so with a database fewer than 500 items stay pending. |
| Indexer.IndexerService.FlushQueue | electron/indexer.ts:142-201 | The timer is always disarmed. With an empty queue or no database, nothing else changes. Otherwise the queue is detached, and on commit the table becomes `ApplyBatch` of the batch and the counter rises by the full batch length and is emitted. A failing transaction loses the batch but keeps tables and counter. |
| Indexer.IndexerService.TimerFires | electron/indexer.ts:138 | The armed timer's flush has the same outcome as `FlushQueue`, and leaves no timer armed. |
| Indexer.IndexerService.RemoveFileFromIndex | electron/indexer.ts:208-216 | With a database and no error, exactly the path's row is deleted and its shadow entry goes with it. The queue is untouched. |
| Indexer.IndexerService.IndexDirectory | electron/indexer.ts:93-98 | A root already registered under the exact same string is a no-op, whatever the depth. Any other root is registered with its depth. |
| Indexer.IndexerService.ResetIndex | electron/indexer.ts:257-288 | Watchers, queue and timer are always cleared. With a database and no error, every row and shadow entry goes and the counter becomes 0; on error, tables and counter stay. Favorites are untouched. |
| Indexer.IndexerService.HasIndexedFiles | electron/indexer.ts:246-255 | True exactly when the database is open, the probe does not raise and `files` has a row. The search table then has an entry too. |
| Indexer.IndexerService.SearchFiles | electron/indexer.ts:59-77 | No database, or a query that raises, gives `[]`. Otherwise the result has at most 100 entries, each a current shadow row of `files` that matches the compiled pattern, with no path twice. There are `min(100, matches)` of them, and all matches when they fit. |
| Indexer.IndexerService.GetFavorites | electron/indexer.ts:218-226 | The stored favorites, or none without a database or when the read raises. |
| Indexer.IndexerService.AddFavorite | electron/indexer.ts:228-235 | Insert-or-ignore: a new path gets the name, and a path already present keeps its first name. Afterwards the path is a favorite unless the insert failed. |
| Indexer.IndexerService.RemoveFavorite | electron/indexer.ts:237-244 | The path is no longer a favorite, and nothing else changes. |
| Indexer.ResetThenSearch | electron/indexer.ts:257-288 | After a reset that commits, any search returns no results. |
| IgnoreRules.IgnoredBelow | electron/indexer.ts:105-112 | An ignored path stays ignored with any further components appended, so the whole subtree below an ignored folder is skipped. |
| IgnoreRules.DotfileSkipped | electron/indexer.ts:106 | Any component that starts with `.` followed by a character other than a line terminator is ignored, whether it opens the path or follows any separator. |
| IgnoreRules.LoneDotNotDotfile | electron/indexer.ts:106 | Appending a lone `.` as the last component never creates a dotfile match, because the rule needs a character after the dot. |
| IgnoreRules.LoneDotKept | electron/indexer.ts:106-111 | An example: `E:\.`, a lone dot under a drive root, is matched by no rule at all. |
| IgnoreRules.NamedFolderSkipped | electron/indexer.ts:107-109 | A component that is exactly `node_modules`, `.git` or `AppData`, at the start of the path or after a separator, and followed by the end of the path or a separator, is ignored. |
| IgnoreRules.SystemFolderPrefixSkipped | electron/indexer.ts:111 | Without a trailing anchor and ignoring ASCII case, any component that merely starts with a system folder name, such as `Windows.old` or `windows-tips.txt`, is ignored. |
| IgnoreRules.SystemFilePrefixSkipped | electron/indexer.ts:110 | Any component that merely starts with a system file name, in any ASCII case, is ignored. |
| IgnoreRules.DocumentKept | electron/indexer.ts:105-112 | A path none of whose components starts with a character some rule can match first is kept. Those characters are `.`, `n`, `A`, and the first letters of the system names in any case. |
| NodePath.BasenameShape | electron/indexer.ts:172 | The base name is the longest suffix without a separator. |
| NodePath.ExtnameShape | electron/indexer.ts:173 | The extension is empty, or a proper suffix of the base name that starts with its only dot. |
| NodePath.DecomposeJoin | electron/indexer.ts:172-174 | For `d\n` with a non-empty, separator-free `n`, the base name is `n`. The parent is `d`, with a trailing `\` kept for a bare drive. |
| FileSort.Collate | src/App.tsx:178 | The three-way string comparison returns -1, 0 or 1. |
| FileSort.CollateTiesOnlyEqual | src/App.tsx:178 | Two names compare equal if and only if they are equal. |
| FileSort.CollateAntisymmetric | src/App.tsx:178 | Swapping the arguments negates the comparison. |
| FileSort.CollateTransitive | src/App.tsx:178 | The comparison is transitive. |
| FileSort.TypeKeyShape | src/App.tsx:188-189 | The type key is the whole name when it has no dot. Otherwise it is the dot-free text after its last dot. |
| FileSort.CompareAntisymmetric | src/App.tsx:169-194 | The comparator is antisymmetric, by every key and in both orders. |
| FileSort.CompareTransitive | src/App.tsx:169-194 | The comparator is transitive. With antisymmetry, it is a total preorder, which is what `sort` needs. |
| FileSort.DescReversesOnlyWithinGroup | src/App.tsx:171-193 | Descending order swaps the comparison between two folders or between two files. It leaves the folder-versus-file comparison unchanged. |
| FileSort.Insert | src/App.tsx:169-194 | Placing one entry into a listing adds exactly that entry. |
| FileSort.InsertSorted | src/App.tsx:169-194 | Inserting into a listing in comparator order keeps it in comparator order. |
| FileSort.SortFiles | src/App.tsx:167-195 | The displayed listing is a permutation of the tab's files in comparator order. The tab's own list, a value, is left unchanged. |
| FileSort.SortedPairwise | src/App.tsx:167-195 | In the sorted listing, every earlier entry compares at most equal to every later one. |
| FileSort.FoldersFirst | src/App.tsx:171-173 | In the sorted listing, by any key and in either order, every folder precedes every file. |
| Breadcrumbs.Crumbs | src/App.tsx:370-374 | There is one crumb per non-empty component of the path split on `/` or `\`, and each crumb's text is that component. |
| Breadcrumbs.CrumbEndsWithSep | src/App.tsx:374 | A crumb's target ends in a separator exactly when it is the first crumb and holds a `:`. That crumb then leads to the drive root (`C:\`), not to the drive-relative `C:`. |
| Breadcrumbs.CrumbLeadsToPrefix | src/App.tsx:374 | Crumb `i` leads to a path whose components are exactly the first `i+1` components of the current path. The crumb's own text is the last of them. |
| Breadcrumbs.LastCrumbIsCurrent | src/App.tsx:370-374 | The last crumb leads to a path with the same components as the current one. |
| Text.SplitAtSep | src/App.tsx:370 | Splitting at a separator splits the two sides independently. |
| Text.ComponentsOfJoin | src/App.tsx:374 | Joining non-empty, separator-free components with `\`, with or without one trailing `\`, gives back exactly those components. |
| Tabs.SliceTo | src/App.tsx:149 | `slice(0, end)` is the prefix of length `end` when `end` is in range, and always some prefix. |
| Tabs.FindTab | src/App.tsx:57 | `tabs.find` returns the first tab carrying the id, or reports that no tab carries it. |
| Tabs.Retarget | src/App.tsx:147-161 | Navigation changes the tab's path and files. With history on, the entries after the current one are dropped, the path is appended, and the position moves to the new last entry. With history off, history and position stay. |
| Tabs.MoveTo | src/App.tsx:197-216 | The position moves to the given entry and history is unchanged. The tab shows that entry when the listing answers, and keeps its old path and files when it fails. |
| Tabs.NavigateThenBack | src/App.tsx:147-206 | After navigating with history on, Back leads to the entry the tab was on, and Forward is refused. |
| Tabs.BackThenForward | src/App.tsx:197-216 | Forward after Back restores the position, the history and, once listed, the path. |
| Tabs.Without | src/App.tsx:230 | Filtering never lengthens the tab list. |
| Tabs.WithoutMembers | src/App.tsx:230 | The filter keeps exactly the tabs that do not carry the id. |
| Tabs.WithoutRemovesOne | src/App.tsx:230 | When ids are unique, the filter removes exactly the one tab carrying the id and keeps the order of the rest. |
| Tabs.ClosingKeepsOthers | src/App.tsx:226-235 | Closing keeps ids unique and positions in range, drops at most one tab, and keeps every other tab findable. |
| Tabs.Explorer.constructor | src/App.tsx:76-95 | With a home directory, there is one tab `1` on it with history `[home]`, listed without touching history. Without one, the fallback navigation finds no tab and the list stays empty. The active id is `1`. |
| Tabs.Explorer.NavigateTo | src/App.tsx:141-164 | When the listing answers, exactly the tabs carrying the id are retargeted. A failed listing changes nothing. The invariant "positions in range, ids unique" is kept. |
| Tabs.Explorer.Reposition | src/App.tsx:204-213 | The `setTabs` step of Back and Forward: every tab carrying the active id moves to the given history position. All other tabs, the histories and the invariant are kept. |
| Tabs.Explorer.Back | src/App.tsx:197-207 | Acts only when the position is above 0. It then moves the active tab down by one and lists that entry; other tabs and the history are unchanged. |
| Tabs.Explorer.Forward | src/App.tsx:209-216 | Acts only when the position is below the last entry. It then moves the active tab up by one and lists that entry; other tabs and the history are unchanged. |
| Tabs.Explorer.NewTab | src/App.tsx:218-224 | Appends a tab on `C:\` with history `[C:\]` and position 0, listed once the listing answers, and makes it the active tab. |
| Tabs.Explorer.CloseTab | src/App.tsx:226-235 | Refused while exactly one tab exists. Otherwise exactly the tab with the id is removed. A closed active tab hands over to the last remaining tab; otherwise the active id stays and remains findable. |
| ExplorerActions.HandleDrop | src/App.tsx:310-322 | The loop requests exactly the planned moves, in order, with at most one per file. The target is the drop folder, or the active folder when none or an empty one is given. |
| ExplorerActions.PlannedMovesExactly | src/App.tsx:318-322 | A move is planned if and only if a dropped file's path does not start with the target. Its destination is the target, then `\`, then the file name. |
| ExplorerActions.MoveLandsInTarget | src/App.tsx:322 | A move's destination has the file's own name as its base name and the target folder as its parent. |
| ExplorerActions.SiblingSkipped | src/App.tsx:319 | The skip test compares text, not folders: for any target, a file whose path is the target's text followed by anything is skipped, including a file in a sibling folder whose name extends the target's. |
| ExplorerActions.DriveRootSkipsAll | src/App.tsx:319 | Any file of a drive dropped onto that drive's root (`d:\`) is skipped. |
| ExplorerActions.SlashSpellingMoved | src/App.tsx:319 | For any folder, a file whose path spells the folder with a `/` after it is not skipped when dropped onto the folder written with `\`, so it gets a move. |
| ExplorerActions.FavoriteName | src/App.tsx:238 | An empty path, a path without `\` and a path ending in `\` are named by the whole path. Any other path is named by the non-empty text after its last `\`, which is a proper suffix. |
| Catalog.UpsertAsWritten | electron/indexer.ts:154-164 | The upsert under the schema as written: a new path is inserted, and a stored path keeps its row because the update trigger raises. |
| Catalog.StaleAfterChange | electron/indexer.ts:47-49 | Under the schema as written, a stored file whose size or mtime changed keeps its stale row. The intended upsert stores the new row. |
| Catalog.DeleteAsWritten | electron/indexer.ts:208-216 | The delete under the schema as written leaves every stored path in place with its row unchanged: the statement rolls back. |
| Catalog.DeletedRowStays | electron/indexer.ts:44-46 | Under the schema as written, a stored path survives its removal. The intended delete drops it and its shadow row. |
| ExplorerActions.DriveRootFavoriteName | src/App.tsx:238 | A drive root such as `C:\` is named by its full path. |

## Left out

- `Indexer.IndexerService.RemoveFileFromIndex`, `Indexer.IndexerService.ResetIndex` and the update branch of `Indexer.RunBatch`: these model the intended trigger behaviour, in which the FTS5 `'delete'` command succeeds. Under the schema as written, that command raises (see "Findings"). That outcome is reachable in these members only through `deleteFails`, `clearFails` and `failed`, and is modelled separately by `Catalog.UpsertAsWritten` and `Catalog.DeleteAsWritten`.
- Scanning and live watching by the watcher library (electron/indexer.ts:100-131) are I/O. Only the registry insertion of `indexDirectory` is modelled, and watcher events become explicit `QueueFileForIndex` and `RemoveFileFromIndex` calls. The ignore list is modelled as `IgnoreRules.IsIgnored`, a predicate over the path.
- Closing the watchers on reset is asynchronous (`await watcher.close()`). The model only empties the registry.
- Timers are replaced by a boolean and an explicit `TimerFires` call: the 200 ms flush delay, and the 300 ms search debounce in the front end. A ghost counter records how many timers were created.
- `Date.now()` becomes the `clock` parameter. Per-item insert failures become the `failed` parameter, and statement or transaction failures become boolean parameters.
- FTS5 tokenisation and the `MATCH` grammar become the `matches` oracle. The order of results by `rank` is left unspecified.
- Row ids, the WAL and synchronous pragmas, and the schema creation are left out. `files_fts` is keyed by the path of the row it shadows.
- The database opening once at start-up is a constructor parameter. A database that opened but whose schema creation failed shows up as failures of each statement.
- `Indexer.IndexerService.GetFavorites`: returns the favorites as a path-to-name map, not as rows in table order.
- `Indexer.IndexerService.SearchFiles`: does not state which rows are kept when more than 100 match, because that depends on the rank order.
- `Indexer.IndexerService.RemoveFileFromIndex`: its contract does not restate that the queue and the timer are unchanged. Its frame allows only `files` and `files_fts` to change.
- A flush can run while a watcher is being stopped. This race is concurrency and cannot be expressed in a sequential model.
- `NodePath` covers drive and plain paths with `/` or `\` separators. Trailing or repeated separators, UNC roots and drive-relative paths such as `C:foo` are not handled as Node does.
- `FileSort.Collate`: replaces `localeCompare` with a lexicographic order on code points (Unicode scalar values). Above U+FFFF this differs from JavaScript's UTF-16 code-unit order as well as from locale collation. Locale collation is a foreign library, and the comparator properties are proved for this order.
- `FileSort.Within`: dates are integer milliseconds. Parsing `mtime` through `Date` and invalid dates (NaN) are not modelled.
- `FileSort.SortFiles`: specifies the result as a sorted permutation, not as the output of the engine's stable sort. Equal-comparing entries may come out in a different order than the engine's.
- `Tabs.Explorer.NewTab`: requires that no tab already carries the new id. The source takes the id from `Date.now()` and relies on it being fresh.
- `Tabs.Explorer.CloseTab`: requires that the call not be on an empty tab list with the active id, which is the only case where the source reads the id of a missing last tab and throws.
- The asynchronous interleaving of front-end handlers is not modelled. Each handler's steps run in order, and the listing's answer arrives before any other event.
- `scrollPos` is carried but never changed, as in the handlers modelled.
- The refresh `handleDrop` issues after its moves is a plain `NavigateTo` of the active folder and is not repeated in `ExplorerActions.HandleDrop`. The moves are returned as a plan, and performing them is left to the main process.
- The main process (electron/main.ts) is not part of this model: directory listing, drive probing, trash, rename, moves and start-up sequencing. Neither are the preload bridge or the presentation components.
- The rest of src/App.tsx is rendering, settings, accent colours, slider parsing and size/date formatting: all presentation.

## Findings

| source | as written | input that shows it | evidently intended | confidence | as-written member | corrected member |
|---|---|---|---|---|---|---|
| electron/indexer.ts:47-49 | The update trigger issues the FTS5 `'delete'` command on `files_fts`, declared at line 33 without `content=`. FTS5 accepts that command only on contentless and external-content tables, so the trigger raises, the update is rolled back and the error is swallowed per item. | A stored path re-queued with a different size or mtime: the row and its search entry keep the old values. | The changed row is rewritten and its search entry replaced. | not executed; medium (rests on the FTS5 documentation of the `'delete'` command) | Catalog.StaleAfterChange | Catalog.UpdateStep |
| electron/indexer.ts:44-46 | The delete trigger issues the same `'delete'` command, so `DELETE FROM files` raises for any stored row. `removeFileFromIndex` (line 211) and `resetIndex` (line 278) catch the error and delete nothing. | `removeFileFromIndex` of a stored path, or `resetIndex` on a non-empty index: the rows stay, and the reset leaves the counter as it was. | The row and its search entry are removed. | not executed; medium (rests on the FTS5 documentation of the `'delete'` command) | Catalog.DeletedRowStays | Catalog.ShadowOfRemove |
