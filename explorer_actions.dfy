/**
 * Two explorer actions of src/App.tsx that work on path strings: the moves a
 * drop onto a folder asks for (`handleDrop`) and the display name a new
 * favorite gets (`handleAddFavorite`). The moves themselves go to the main
 * process and are returned here as a plan.
 */
module ExplorerActions {
  import opened Wrappers
  import opened Text
  import opened NodePath

  /** A file carried by the drag: its full path and its name. */
  datatype DroppedFile = DroppedFile(path: string, name: string)

  /** One `move-file` request. */
  datatype Move = Move(source: string, destination: string)

  /** `targetFolder || activeTab.path`: an absent or empty target folder means the active folder. */
  function DropTarget(targetFolder: Option<string>, activePath: string): string {
    if targetFolder.Some? && targetFolder.value != "" then targetFolder.value else activePath
  }

  /** Whether the drop leaves `f` where it is: its path starts with the target's text. */
  predicate Skipped(f: DroppedFile, target: string) {
    StartsWith(f.path, target)
  }

  /** The moves for `files`, in order: one per file that is not skipped, into the target. */
  function PlannedMoves(files: seq<DroppedFile>, target: string): seq<Move> {
    if files == [] then []
    else
      var earlier := PlannedMoves(files[..|files| - 1], target);
      var f := files[|files| - 1];
      if Skipped(f, target) then earlier
      else earlier + [Move(f.path, target + "\\" + f.name)]
  }

  /**
   * A move is planned exactly for the files that are not skipped, from
   * their path to the target joined with their name.
   */
  lemma {:induction false} PlannedMovesExactly(files: seq<DroppedFile>, target: string)
    ensures forall m :: m in PlannedMoves(files, target) <==>
      exists f :: f in files && !Skipped(f, target) && m == Move(f.path, target + "\\" + f.name)
  {
    if files != [] {
      var init := files[..|files| - 1];
      PlannedMovesExactly(init, target);
      assert files == init + [files[|files| - 1]];
    }
  }

  /**
   * `handleDrop`: walks the dropped files in order, skips those whose path
   * starts with the target, and requests a move for each other one.
   */
  method HandleDrop(files: seq<DroppedFile>, targetFolder: Option<string>, activePath: string)
    returns (moves: seq<Move>)
    ensures moves == PlannedMoves(files, DropTarget(targetFolder, activePath))
    ensures |moves| <= |files|
  {
    var target := DropTarget(targetFolder, activePath);
    moves := [];
    for i := 0 to |files|
      invariant moves == PlannedMoves(files[..i], target)
      invariant |moves| <= i
    {
      assert files[..i + 1][..i] == files[..i];
      if !Skipped(files[i], target) {
        moves := moves + [Move(files[i].path, target + "\\" + files[i].name)];
      }
    }
    assert files[..|files|] == files;
  }

  /**
   * Each planned move puts the file, under its own name, straight into the
   * target folder, as long as the name holds no separator.
   */
  lemma MoveLandsInTarget(target: string, f: DroppedFile)
    requires target != "" && NoSep(f.name) && f.name != ""
    ensures Basename(target + "\\" + f.name) == f.name
    ensures Dirname(target + "\\" + f.name) == if |target| == 2 && target[1] == ':' then target + "\\" else target
  {
    DecomposeJoin(target, f.name);
  }

  /**
   * The skip test compares text, not folders: a file whose path merely
   * starts with the target's text is skipped, so a file in a sibling folder
   * whose name extends the target's (`C:\foo2\a.txt` onto `C:\foo`) stays.
   */
  lemma SiblingSkipped(target: string, x: string, rest: string, n: string)
    ensures Skipped(DroppedFile(target + x + rest, n), target)
  {
    assert (target + x + rest)[..|target|] == target;
  }

  /** Every file of a drive dropped onto that drive's root stays where it is. */
  lemma DriveRootSkipsAll(d: char, rest: string, n: string)
    ensures Skipped(DroppedFile([d, ':', '\\'] + rest, n), [d, ':', '\\'])
  {
    assert ([d, ':', '\\'] + rest)[..3] == [d, ':', '\\'];
  }

  /**
   * A file already in the target, but whose path spells the separator as
   * `/`, is not skipped and gets a move.
   */
  lemma SlashSpellingMoved(d: string, rest: string, n: string)
    ensures !Skipped(DroppedFile(d + "/" + rest, n), d + "\\")
  {
    assert (d + "/" + rest)[|d|] == '/' && (d + "\\")[|d|] == '\\';
  }

  /**
   * `activePath.split('\\').pop() || activePath`: the text after the last
   * backslash or, when that is empty (an empty path or one ending in a
   * backslash), the whole path.
   */
  function FavoriteName(activePath: string): (r: string)
    ensures activePath != "" ==> r != ""
    ensures '\\' !in activePath ==> r == activePath
    ensures activePath == "" || activePath[|activePath| - 1] == '\\' ==> r == activePath
    ensures activePath != "" && activePath[|activePath| - 1] != '\\' && '\\' in activePath ==>
      && r != activePath && r != "" && '\\' !in r && |r| < |activePath|
      && activePath[|activePath| - |r| - 1..] == "\\" + r
  {
    var last := LastSegment(activePath, {'\\'});
    LastSegmentShape(activePath, {'\\'});
    if last == "" then activePath
    else
      assert forall k :: 0 <= k < |last| ==> last[k] != '\\';
      assert '\\' in activePath ==> |last| < |activePath|;
      last
  }

  /** A drive root is listed under its full path: `C:\` has nothing after its backslash. */
  lemma DriveRootFavoriteName()
    ensures FavoriteName("C:\\") == "C:\\"
  {
  }
}
