/**
 * The explorer's tabs and their browser-style history (src/App.tsx): the
 * `tabs` list and `activeTabId`, changed by `navigateTo`, `handleBack`,
 * `handleForward`, `handleNewTab` and `handleCloseTab`. A directory listing
 * is a parameter: `Some(files)` when `listDirectory` answered, `None` when it
 * failed. Each handler's asynchronous steps are taken in order, with the
 * listing's answer arriving before any other event.
 */
module Tabs {
  import opened Wrappers
  import opened FileSort

  datatype Tab = Tab(id: string, path: string, history: seq<string>, historyIndex: int, files: seq<FileEntry>, scrollPos: int)

  /** What the explorer shows while no tab carries the active id. */
  const DefaultTab := Tab("1", "", [], 0, [], 0)

  /** Where a new tab starts. */
  const DriveRoot := "C:\\"

  /** The history position points at an entry. */
  predicate InRange(t: Tab) {
    0 <= t.historyIndex < |t.history|
  }

  /** No two tabs share an id. */
  predicate UniqueIds(ts: seq<Tab>) {
    forall i, j :: 0 <= i < j < |ts| ==> ts[i].id != ts[j].id
  }

  /** `Array.prototype.slice(0, end)`: a negative end counts from the back, and both ends are clamped. */
  function SliceTo(h: seq<string>, end: int): (r: seq<string>)
    ensures 0 <= end <= |h| ==> r == h[..end]
    ensures |r| <= |h| && r == h[..|r|]
  {
    if end < 0 then (if |h| + end < 0 then [] else h[..|h| + end])
    else if end > |h| then h
    else h[..end]
  }

  /**
   * The first tab carrying `id`, as `tabs.find` finds it, or `None` when no
   * tab carries it.
   */
  function FindTab(ts: seq<Tab>, id: string): (r: Option<nat>)
    ensures r.Some? ==> r.value < |ts| && ts[r.value].id == id && forall j :: 0 <= j < r.value ==> ts[j].id != id
    ensures r.None? ==> forall j :: 0 <= j < |ts| ==> ts[j].id != id
  {
    if ts == [] then None
    else if ts[0].id == id then Some(0)
    else match FindTab(ts[1..], id)
      case None => None
      case Some(k) => Some(k + 1)
  }

  /** A tab appended under an id no other tab carries is the one `FindTab` finds. */
  lemma {:induction false} FindAppended(ts: seq<Tab>, t: Tab)
    requires FindTab(ts, t.id).None?
    ensures FindTab(ts + [t], t.id) == Some(|ts|)
  {
    if ts != [] {
      assert (ts + [t])[1..] == ts[1..] + [t];
      FindAppended(ts[1..], t);
    }
  }

  /**
   * `navigateTo`'s update of one tab: the new path and files and, with
   * history on, the history cut after the current entry and extended by
   * `path`, with the position on the new last entry.
   */
  function Retarget(t: Tab, path: string, addToHistory: bool, files: seq<FileEntry>): (r: Tab)
    ensures r.id == t.id && r.path == path && r.files == files && r.scrollPos == t.scrollPos
    ensures !addToHistory ==> r.history == t.history && r.historyIndex == t.historyIndex
    ensures addToHistory ==> InRange(r) && r.historyIndex == |r.history| - 1 && r.history[r.historyIndex] == path
    ensures addToHistory && InRange(t) ==> r.history[..r.historyIndex] == t.history[..t.historyIndex + 1]
  {
    if addToHistory then
      var h := SliceTo(t.history, t.historyIndex + 1) + [path];
      t.(path := path, files := files, history := h, historyIndex := |h| - 1)
    else
      t.(path := path, files := files)
  }

  /**
   * A tab moved to history position `index` and, when the listing answered,
   * shown at the entry there; when it failed, the position moves but the
   * tab stays on its old path and files.
   */
  function MoveTo(t: Tab, index: int, listing: Option<seq<FileEntry>>): (r: Tab)
    requires 0 <= index < |t.history|
    ensures InRange(r) && r.id == t.id && r.history == t.history && r.historyIndex == index
    ensures listing.Some? ==> r.path == t.history[index] && r.files == listing.value
    ensures listing.None? ==> r.path == t.path && r.files == t.files
  {
    var moved := t.(historyIndex := index);
    if listing.Some? then Retarget(moved, t.history[index], false, listing.value) else moved
  }

  /**
   * After navigating with history on, going back leads to the entry the tab
   * was on, and going forward is refused.
   */
  lemma NavigateThenBack(t: Tab, path: string, files: seq<FileEntry>)
    requires InRange(t)
    ensures var r := Retarget(t, path, true, files);
      && r.historyIndex > 0 && r.history[r.historyIndex - 1] == t.history[t.historyIndex]
      && !(r.historyIndex < |r.history| - 1)
  {
    var r := Retarget(t, path, true, files);
    assert r.history[..r.historyIndex][t.historyIndex] == t.history[..t.historyIndex + 1][t.historyIndex];
  }

  /** Forward undoes Back: the position and, once listed, the path are restored. */
  lemma BackThenForward(t: Tab, l1: Option<seq<FileEntry>>, l2: Option<seq<FileEntry>>)
    requires InRange(t) && t.historyIndex > 0
    ensures var back := MoveTo(t, t.historyIndex - 1, l1);
      && back.historyIndex < |back.history| - 1
      && MoveTo(back, back.historyIndex + 1, l2).historyIndex == t.historyIndex
      && MoveTo(back, back.historyIndex + 1, l2).history == t.history
      && (l2.Some? ==> MoveTo(back, back.historyIndex + 1, l2).path == t.history[t.historyIndex])
  {
  }

  /** `tabs.filter(t => t.id !== id)` */
  function Without(ts: seq<Tab>, id: string): (r: seq<Tab>)
    ensures |r| <= |ts|
  {
    if ts == [] then []
    else (if ts[0].id == id then [] else [ts[0]]) + Without(ts[1..], id)
  }

  /** The filter keeps exactly the tabs that do not carry `id`. */
  lemma {:induction false} WithoutMembers(ts: seq<Tab>, id: string)
    ensures forall t :: t in Without(ts, id) <==> t in ts && t.id != id
  {
    if ts != [] {
      WithoutMembers(ts[1..], id);
      assert ts == [ts[0]] + ts[1..];
    }
  }

  lemma {:induction false} WithoutAbsent(ts: seq<Tab>, id: string)
    requires forall j :: 0 <= j < |ts| ==> ts[j].id != id
    ensures Without(ts, id) == ts
  {
    if ts != [] {
      WithoutAbsent(ts[1..], id);
      assert ts == [ts[0]] + ts[1..];
    }
  }

  /** With unique ids, the filter removes exactly the one tab carrying `id`. */
  lemma {:induction false} WithoutRemovesOne(ts: seq<Tab>, id: string, k: nat)
    requires UniqueIds(ts) && k < |ts| && ts[k].id == id
    ensures Without(ts, id) == ts[..k] + ts[k + 1..]
  {
    var rest := ts[1..];
    assert ts == [ts[0]] + rest;
    if k == 0 {
      assert forall j :: 0 <= j < |rest| ==> rest[j] == ts[j + 1];
      WithoutAbsent(rest, id);
      assert Without(ts, id) == Without(rest, id);
    } else {
      assert ts[0].id != id;
      assert Without(ts, id) == [ts[0]] + Without(rest, id);
      assert UniqueIds(rest) by {
        assert forall i :: 0 <= i < |rest| ==> rest[i] == ts[i + 1];
      }
      WithoutRemovesOne(rest, id, k - 1);
      assert ts[..k] == [ts[0]] + rest[..k - 1];
      assert ts[k + 1..] == rest[k..];
    }
  }

  lemma RemovalKeepsUnique(ts: seq<Tab>, k: nat)
    requires UniqueIds(ts) && k < |ts|
    ensures UniqueIds(ts[..k] + ts[k + 1..])
  {
    var r := ts[..k] + ts[k + 1..];
    forall i, j | 0 <= i < j < |r|
      ensures r[i].id != r[j].id
    {
      var i', j' := if i < k then i else i + 1, if j < k then j else j + 1;
      assert r[i] == ts[i'] && r[j] == ts[j'];
    }
  }

  /**
   * Filtering one id out of tabs with unique ids and in-range positions
   * keeps both, drops at most one tab, and keeps every other id findable.
   */
  lemma ClosingKeepsOthers(ts: seq<Tab>, id: string, other: string)
    requires UniqueIds(ts) && forall i :: 0 <= i < |ts| ==> InRange(ts[i])
    ensures var kept := Without(ts, id);
      && UniqueIds(kept) && (forall i :: 0 <= i < |kept| ==> InRange(kept[i]))
      && |kept| >= |ts| - 1
      && (other != id && FindTab(ts, other).Some? ==> FindTab(kept, other).Some?)
  {
    var kept := Without(ts, id);
    var gone := FindTab(ts, id);
    if gone.Some? {
      WithoutRemovesOne(ts, id, gone.value);
      RemovalKeepsUnique(ts, gone.value);
      assert forall i :: 0 <= i < |kept| ==> kept[i] == ts[if i < gone.value then i else i + 1];
    } else {
      WithoutAbsent(ts, id);
    }
    if other != id && FindTab(ts, other).Some? {
      var a := FindTab(ts, other).value;
      var j := if gone.Some? && gone.value < a then a - 1 else a;
      assert kept[j] == ts[a];
    }
  }

  class Explorer {
    var tabs: seq<Tab>
    var activeTabId: string

    ghost predicate Valid()
      reads this
    {
      (forall i :: 0 <= i < |tabs| ==> InRange(tabs[i])) && UniqueIds(tabs)
    }

    /** `activeTab`: the tab carrying the active id, or the default tab. */
    function ActiveTab(): Tab
      reads this
    {
      match FindTab(tabs, activeTabId)
      case None => DefaultTab
      case Some(k) => tabs[k]
    }

    /**
     * Start-up: with a home directory, one tab `1` on it, then listed
     * without touching its history; without one, the fallback navigation
     * finds no tab to update and the list stays empty.
     */
    constructor(home: Option<string>, listing: Option<seq<FileEntry>>)
      ensures Valid() && activeTabId == "1"
      ensures home.None? ==> tabs == []
      ensures home.Some? ==> tabs == [Tab("1", home.value, [home.value], 0, if listing.Some? then listing.value else [], 0)]
    {
      tabs := [];
      activeTabId := "1";
      new;
      if home.Some? {
        tabs := [Tab("1", home.value, [home.value], 0, [], 0)];
        NavigateTo(home.value, false, "1", listing);
      } else {
        NavigateTo(DriveRoot, false, "1", listing);
      }
    }

    /**
     * `navigateTo`: when the listing answers, every tab carrying `tabId` is
     * retargeted and every other tab is left as it was; when it fails,
     * nothing changes.
     */
    method NavigateTo(path: string, addToHistory: bool, tabId: string, listing: Option<seq<FileEntry>>)
      requires Valid()
      modifies this
      ensures Valid() && activeTabId == old(activeTabId) && |tabs| == |old(tabs)|
      ensures forall i :: 0 <= i < |tabs| ==>
        tabs[i] == if listing.Some? && old(tabs)[i].id == tabId
                   then Retarget(old(tabs)[i], path, addToHistory, listing.value)
                   else old(tabs)[i]
    {
      if listing.None? {
        return;
      }
      var ts := tabs;
      tabs := seq(|ts|, i requires 0 <= i < |ts| =>
        if ts[i].id == tabId then Retarget(ts[i], path, addToHistory, listing.value) else ts[i]);
      assert forall i :: 0 <= i < |tabs| ==> tabs[i].id == ts[i].id;
    }

    /**
     * `handleBack`: only when the active tab's position is above 0, it moves
     * down by one (on every tab carrying the active id) and the tab is
     * listed at that entry without touching its history.
     */
    method Back(listing: Option<seq<FileEntry>>)
      requires Valid()
      modifies this
      ensures Valid() && activeTabId == old(activeTabId) && |tabs| == |old(tabs)|
      ensures old(ActiveTab()).historyIndex <= 0 ==> tabs == old(tabs)
      ensures old(ActiveTab()).historyIndex > 0 ==>
        && ActiveTab() == MoveTo(old(ActiveTab()), old(ActiveTab()).historyIndex - 1, listing)
        && forall i :: 0 <= i < |tabs| && old(tabs)[i].id != activeTabId ==> tabs[i] == old(tabs)[i]
    {
      var current := ActiveTab();
      if current.historyIndex > 0 {
        var index := current.historyIndex - 1;
        var target := current.history[index];
        Reposition(index);
        NavigateTo(target, false, activeTabId, listing);
      }
    }

    /**
     * `handleForward`: only when the active tab's position is below its
     * last entry, it moves up by one and the tab is listed at that entry.
     */
    method Forward(listing: Option<seq<FileEntry>>)
      requires Valid()
      modifies this
      ensures Valid() && activeTabId == old(activeTabId) && |tabs| == |old(tabs)|
      ensures old(ActiveTab()).historyIndex >= |old(ActiveTab()).history| - 1 ==> tabs == old(tabs)
      ensures old(ActiveTab()).historyIndex < |old(ActiveTab()).history| - 1 ==>
        && ActiveTab() == MoveTo(old(ActiveTab()), old(ActiveTab()).historyIndex + 1, listing)
        && forall i :: 0 <= i < |tabs| && old(tabs)[i].id != activeTabId ==> tabs[i] == old(tabs)[i]
    {
      var current := ActiveTab();
      if current.historyIndex < |current.history| - 1 {
        var index := current.historyIndex + 1;
        var target := current.history[index];
        Reposition(index);
        NavigateTo(target, false, activeTabId, listing);
      }
    }

    /** The `setTabs` step shared by Back and Forward: the active tab's position becomes `index`. */
    method Reposition(index: int)
      requires Valid()
      requires FindTab(tabs, activeTabId).Some? && 0 <= index < |ActiveTab().history|
      modifies this
      ensures Valid() && activeTabId == old(activeTabId) && |tabs| == |old(tabs)|
      ensures forall i :: 0 <= i < |tabs| ==>
        tabs[i] == if old(tabs)[i].id == activeTabId then old(tabs)[i].(historyIndex := index) else old(tabs)[i]
    {
      var ts, active := tabs, activeTabId;
      var k := FindTab(ts, active).value;
      tabs := seq(|ts|, i requires 0 <= i < |ts| =>
        if ts[i].id == active then ts[i].(historyIndex := index) else ts[i]);
      assert forall i :: 0 <= i < |tabs| ==> tabs[i].id == ts[i].id;
      forall i | 0 <= i < |tabs|
        ensures InRange(tabs[i])
      {
        if ts[i].id == active {
          assert i == k;
        }
      }
    }

    /** `handleNewTab`: a tab on `C:\` with that one history entry, appended and made active. */
    method NewTab(newId: string, listing: Option<seq<FileEntry>>)
      requires Valid()
      requires FindTab(tabs, newId).None?
      modifies this
      ensures Valid() && activeTabId == newId
      ensures tabs == old(tabs) + [Tab(newId, DriveRoot, [DriveRoot], 0, if listing.Some? then listing.value else [], 0)]
      ensures ActiveTab() == tabs[|tabs| - 1]
    {
      tabs := tabs + [Tab(newId, DriveRoot, [DriveRoot], 0, [], 0)];
      assert UniqueIds(tabs) by {
        assert forall i :: 0 <= i < |tabs| - 1 ==> tabs[i] == old(tabs)[i];
      }
      activeTabId := newId;
      FindAppended(old(tabs), tabs[|tabs| - 1]);
      NavigateTo(DriveRoot, false, newId, listing);
    }

    /**
     * `handleCloseTab`: refused while only one tab is open; otherwise the tab
     * carrying `id` is removed and, when it was the active one, the last
     * remaining tab becomes active.
     */
    method CloseTab(id: string)
      requires Valid()
      requires tabs != [] || activeTabId != id
      modifies this
      ensures Valid()
      ensures old(|tabs|) == 1 ==> tabs == old(tabs) && activeTabId == old(activeTabId)
      ensures old(|tabs|) != 1 ==> tabs == Without(old(tabs), id)
      ensures old(|tabs|) != 1 && old(activeTabId) == id ==> tabs != [] && activeTabId == tabs[|tabs| - 1].id
      ensures old(activeTabId) != id ==> activeTabId == old(activeTabId)
      ensures old(|tabs|) != 1 && (old(activeTabId) == id || FindTab(old(tabs), old(activeTabId)).Some?) ==>
        FindTab(tabs, activeTabId).Some?
    {
      if |tabs| == 1 {
        return;
      }
      var kept := Without(tabs, id);
      ClosingKeepsOthers(tabs, id, activeTabId);
      tabs := kept;
      if activeTabId == id {
        activeTabId := kept[|kept| - 1].id;
      }
    }
  }
}
