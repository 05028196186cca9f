/** The save manager as the menu loop runs it: the saves folder, the trash
    folder and the active id live in one object, and each menu branch
    (switch, new world, delete, undo delete, clear trash, rename) is a
    method that moves, renames or removes entries in place.

    Where the program would stop on an uncaught `OSError` (the active
    folder does not exist), the method reports `ok == false` and changes
    nothing. Console input arrives as parameters: the chosen folder, the
    answers typed, the clock's timestamp and the order in which the
    operating system lists a folder. */
module Manager {
  import opened Options
  import opened Text
  import opened FreshNames
  import opened ActiveId
  import opened SaveFolder

  class SaveManager {
    var saves: map<string, Entry>
    var trash: map<string, Entry>
    var activeId: string

    function State(): SaveDir
      reads this
    {
      SaveDir(saves, trash, activeId)
    }

    ghost predicate Valid()
      reads this
    {
      SaveFolder.Valid(State())
    }

    /** Startup: the saves folder's entries and the trash folder's entries as
        found, the lines of `GameUserSettings.ini` when that file exists, and
        what the user would type at the manual prompt. */
    constructor Start(entries: map<string, Entry>, trashEntries: map<string, Entry>,
                      settingsFile: Option<seq<string>>, manualEntry: string)
      requires TrashDirName !in entries
      ensures Valid()
      ensures saves == entries && trash == trashEntries
      ensures activeId == ResolveActiveId(
                if settingsFile.Some? then ActiveIdIn(settingsFile.value) else None,
                entries.Keys + {TrashDirName}, manualEntry)
    {
      var found: Option<string> := None;
      if settingsFile.Some? {
        found := ScanActiveId(settingsFile.value);
      }
      saves := entries;
      trash := trashEntries;
      activeId := ResolveActiveId(found, entries.Keys + {TrashDirName}, manualEntry);
    }

    /** `list_worlds`: walks the saves folder in the operating system's
        `order` and collects every world folder other than the active one
        and the trash, with its display name. */
    method ListWorlds(order: seq<string>) returns (worlds: seq<Listed>)
      ensures worlds == Listing(saves, WorldsView(activeId), order)
    {
      worlds := [];
      var i := 0;
      while i < |order|
        invariant 0 <= i <= |order|
        invariant worlds == Listing(saves, WorldsView(activeId), order[..i])
      {
        var f := order[i];
        if f in saves && saves[f].Folder? && f != activeId && !StartsWith(f, TrashDirName) {
          worlds := worlds + [Listed(f, DisplayName(f, saves[f].world))];
        }
        assert order[..i + 1][..i] == order[..i];
        i := i + 1;
      }
      assert order[..|order|] == order;
    }

    /** `list_deleted`: walks the trash folder in `order` and collects every
        folder in it with its display name. */
    method ListDeleted(order: seq<string>) returns (deleted: seq<Listed>)
      ensures deleted == Listing(trash, TrashView, order)
    {
      deleted := [];
      var i := 0;
      while i < |order|
        invariant 0 <= i <= |order|
        invariant deleted == Listing(trash, TrashView, order[..i])
      {
        var f := order[i];
        if f in trash && trash[f].Folder? {
          deleted := deleted + [Listed(f, DisplayName(f, trash[f].world))];
        }
        assert order[..i + 1][..i] == order[..i];
        i := i + 1;
      }
      assert order[..|order|] == order;
    }

    /** [S] Switch: park the active world under the lowest free `worldK`,
        then rename the selected world to the active id. */
    method SwitchWorld(sel: string) returns (ok: bool, parked: string, ghost k: nat)
      requires Valid() && IsListedWorld(State(), sel)
      modifies this
      ensures Valid()
      ensures ok == ActiveIsFolder(old(State()))
      ensures !ok ==> State() == old(State())
      ensures ok ==> IsLowestFreeWorld(Occupied(old(State())), k) && parked == WorldName(k)
      ensures ok ==> State() == Switched(old(State()), sel, parked)
    {
      // backing up first creates <active>/Mods, which raises without the folder
      ok := activeId in saves && saves[activeId].Folder?;
      if !ok {
        parked, k := "", 0;
        return;
      }
      parked, k := NextWorldName(Occupied(State()));
      saves := Moved(saves, activeId, parked);
      saves := Moved(saves, sel, activeId);
    }

    /** [N] New world: park the active world under the lowest free `worldK`
        and create the active folder anew, with `name.txt` holding the
        stripped input or "New World"; `rest` is what else the new folder
        holds (its settings file). */
    method NewWorld(input: string, rest: Contents) returns (ok: bool, parked: string, ghost k: nat)
      requires Valid()
      modifies this
      ensures Valid()
      ensures ok == ActiveIsFolder(old(State()))
      ensures !ok ==> State() == old(State())
      ensures ok ==> IsLowestFreeWorld(Occupied(old(State())), k) && parked == WorldName(k)
      ensures ok ==> State() == WithNewWorld(old(State()), parked, NewWorldName(input), rest)
    {
      ok := activeId in saves && saves[activeId].Folder?;
      if !ok {
        parked, k := "", 0;
        return;
      }
      parked, k := NextWorldName(Occupied(State()));
      saves := Moved(saves, activeId, parked);
      var name := Strip(input);
      if name == "" {
        name := DefaultWorldName;
      }
      saves := saves[activeId := Folder(World(Some(name), rest))];
    }

    /** [D] Delete: on a "Y" answer, move the selected world into the trash
        as `<folder>_<timestamp>`; any other answer changes nothing. */
    method DeleteWorld(sel: string, answer: string, timestamp: nat) returns (moved: bool)
      requires Valid() && IsListedWorld(State(), sel)
      requires Suffixed(sel, timestamp) !in trash
      modifies this
      ensures Valid()
      ensures moved == IsYes(answer)
      ensures State() == if moved then Trashed(old(State()), sel, Suffixed(sel, timestamp)) else old(State())
    {
      var confirm := Strip(answer);
      moved := confirm == "Y" || confirm == "y";
      if moved {
        var deletedName := Suffixed(sel, timestamp);
        trash := trash[deletedName := saves[sel]];
        saves := saves - {sel};
      }
    }

    /** [U] Undo delete: move the chosen trash folder back into the saves
        folder under `safe_rename` of its display name. */
    method UndoDelete(folder: string) returns (restored: string, ghost i: nat)
      requires Valid() && IsDeletedWorld(State(), folder)
      modifies this
      ensures Valid()
      ensures restored !in Occupied(old(State()))
      ensures var friendly := Line(old(trash), folder).name;
              && (friendly !in Occupied(old(State())) ==> restored == friendly)
              && (friendly in Occupied(old(State())) ==>
                    IsLowestFreeSuffix(Occupied(old(State())), friendly, i) && restored == Suffixed(friendly, i))
      ensures State() == Restored(old(State()), folder, restored)
    {
      var friendlyName := DisplayName(folder, trash[folder].world);
      restored, i := SafeRename(Occupied(State()), friendlyName);
      saves := saves[restored := trash[folder]];
      trash := trash - {folder};
    }

    /** [C] Clear trash: when the trash holds any folder and the answer is
        "Y", remove every folder in it; plain files stay. `order` is the
        trash folder's entries in the order the operating system lists them. */
    method ClearTrash(order: seq<string>, answer: string) returns (cleared: bool)
      requires Valid()
      requires forall f :: f in trash <==> f in order
      modifies this
      ensures Valid()
      ensures cleared <==> (exists f :: IsDeletedWorld(old(State()), f)) && IsYes(answer)
      ensures State() == if cleared then TrashCleared(old(State())) else old(State())
    {
      var deleted := ListDeleted(order);
      if deleted == [] {
        // "Trash is already empty!"
        assert forall f :: !IsDeletedWorld(State(), f);
        return false;
      }
      assert deleted[0] in deleted && IsDeletedWorld(State(), deleted[0].folder);
      var confirm := Strip(answer);
      cleared := confirm == "Y" || confirm == "y";
      if cleared {
        RemoveFolders(order);
        assert trash == TrashCleared(old(State())).trash;
      }
    }

    /** The removal loop of [C]: every folder of the trash that `order`
        names is removed, one `rmtree` at a time. */
    method RemoveFolders(order: seq<string>)
      modifies this
      ensures saves == old(saves) && activeId == old(activeId)
      ensures forall f :: f in trash <==> f in old(trash) && (old(trash)[f].PlainFile? || f !in order)
      ensures forall f :: f in trash ==> trash[f] == old(trash)[f]
    {
      var i := 0;
      while i < |order|
        invariant 0 <= i <= |order|
        invariant saves == old(saves) && activeId == old(activeId)
        invariant forall f :: f in trash <==> f in old(trash) && (old(trash)[f].PlainFile? || f !in order[..i])
        invariant forall f :: f in trash ==> trash[f] == old(trash)[f]
      {
        var f := order[i];
        if f in trash && trash[f].Folder? {
          trash := trash - {f};
        }
        assert order[..i + 1] == order[..i] + [f];
        i := i + 1;
      }
      assert order[..|order|] == order;
    }

    /** [R] Rename: write the stripped input to the folder's `name.txt`
        when it is not empty; the folder name itself never changes. Writing
        into an active folder that does not exist raises. */
    method RenameWorld(folder: string, input: string) returns (ok: bool)
      requires Valid() && (folder == activeId || IsListedWorld(State(), folder))
      modifies this
      ensures Valid()
      ensures ok <==> Strip(input) == "" || (folder in old(saves) && old(saves)[folder].Folder?)
      ensures State() == if Strip(input) != "" && ok then Renamed(old(State()), folder, Strip(input)) else old(State())
    {
      var newName := Strip(input);
      if newName == "" {
        return true;
      }
      ok := folder in saves && saves[folder].Folder?;
      if ok {
        saves := saves[folder := Folder(saves[folder].world.(nameTxt := Some(newName)))];
      }
    }
  }
}
