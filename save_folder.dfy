/** The save-games folder `Pal/Saved/SaveGames/0` as values: its world
    folders, the `__trash__` folder inside it, and the active world's id;
    the two listings shown by the menu; and the effect of each menu branch
    as a function of the state before it. */
module SaveFolder {
  import opened Options
  import opened Text
  import opened FreshNames

  /** Everything in a world folder other than `name.txt` (the save files,
      its settings file, its Mods snapshot), carried along uninterpreted. */
  type Contents(==)

  /** A world folder: the raw text of its `name.txt`, if it has one, and the
      rest of what it holds. */
  datatype World = World(nameTxt: Option<string>, rest: Contents)

  /** An entry of the saves folder or of the trash folder. */
  datatype Entry = Folder(world: World) | PlainFile

  /** The saves folder's entries other than the trash folder, the trash
      folder's entries, and the active world's folder name. */
  datatype SaveDir = SaveDir(saves: map<string, Entry>, trash: map<string, Entry>, activeId: string)

  const TrashDirName := "__trash__"
  const DefaultWorldName := "New World"

  /** The trash folder is kept apart from the world entries. */
  predicate Valid(d: SaveDir) {
    TrashDirName !in d.saves
  }

  /** Every name that exists in the saves folder, the trash folder included. */
  function Occupied(d: SaveDir): set<string> {
    d.saves.Keys + {TrashDirName}
  }

  /** The active world's folder exists (the startup prompt does not ensure it). */
  predicate ActiveIsFolder(d: SaveDir) {
    d.activeId in d.saves && d.saves[d.activeId].Folder?
  }

  /** The name shown for a world folder: its stripped `name.txt` if there is
      one, else the folder name. */
  function DisplayName(folder: string, w: World): string {
    match w.nameTxt
    case Some(text) => Strip(text)
    case None => folder
  }

  /** Which folders a listing shows: the world listing hides the active
      world and every name starting with `__trash__`; the trash listing
      shows every folder. */
  datatype View = WorldsView(activeId: string) | TrashView

  predicate Shown(m: map<string, Entry>, view: View, f: string) {
    && f in m
    && m[f].Folder?
    && match view
       case WorldsView(activeId) => f != activeId && !StartsWith(f, TrashDirName)
       case TrashView => true
  }

  /** A world the switch, delete and paste menus offer. */
  predicate IsListedWorld(d: SaveDir, f: string) {
    Shown(d.saves, WorldsView(d.activeId), f)
  }

  /** A folder the undo menu offers. */
  predicate IsDeletedWorld(d: SaveDir, f: string) {
    Shown(d.trash, TrashView, f)
  }

  /** One line of a listing: the folder and the name shown for it. */
  datatype Listed = Listed(folder: string, name: string)

  function Line(m: map<string, Entry>, f: string): Listed
    requires f in m && m[f].Folder?
  {
    Listed(f, DisplayName(f, m[f].world))
  }

  /** The listing built while walking the folder's entries in `order`: the
      shown folders, in that order, each with its display name, and nothing
      else. */
  function Listing(m: map<string, Entry>, view: View, order: seq<string>): (r: seq<Listed>)
    ensures |r| <= |order|
    ensures forall e :: e in r ==> e.folder in order && Shown(m, view, e.folder) && e == Line(m, e.folder)
    ensures forall f :: f in order && Shown(m, view, f) ==> Line(m, f) in r
  {
    if order == [] then []
    else
      var f := order[|order| - 1];
      var init := order[..|order| - 1];
      assert order == init + [f];
      Listing(m, view, init) + (if Shown(m, view, f) then [Line(m, f)] else [])
  }

  /** Listing a concatenation lists the first part, then the second: the
      listing keeps the order in which the folder is walked. */
  lemma {:induction false} ListingAppend(m: map<string, Entry>, view: View, a: seq<string>, b: seq<string>)
    ensures Listing(m, view, a + b) == Listing(m, view, a) + Listing(m, view, b)
    decreases |b|
  {
    if b == [] {
      assert a + b == a;
    } else {
      var init := b[..|b| - 1];
      var f := b[|b| - 1];
      assert (a + b)[..|a + b| - 1] == a + init && (a + b)[|a + b| - 1] == f;
      ListingAppend(m, view, a, init);
    }
  }

  /** Listing a single entry shows it exactly when the filter does. */
  lemma ListingOne(m: map<string, Entry>, view: View, f: string)
    ensures Listing(m, view, [f]) == if Shown(m, view, f) then [Line(m, f)] else []
  {
    assert [f][..0] == [];
  }

  predicate FoldersDistinct(r: seq<Listed>) {
    forall i, j :: 0 <= i < j < |r| ==> r[i].folder != r[j].folder
  }

  /** No entry is listed twice when `order` names each entry once. */
  lemma {:induction false} ListingHasNoDuplicates(m: map<string, Entry>, view: View, order: seq<string>)
    requires forall i, j :: 0 <= i < j < |order| ==> order[i] != order[j]
    ensures FoldersDistinct(Listing(m, view, order))
  {
    if order != [] {
      var f := order[|order| - 1];
      var init := order[..|order| - 1];
      ListingHasNoDuplicates(m, view, init);
      assert f !in init;
      var r0 := Listing(m, view, init);
      assert forall i :: 0 <= i < |r0| ==> r0[i] in r0 && r0[i].folder in init;
      var r := Listing(m, view, order);
      assert r == r0 + (if Shown(m, view, f) then [Line(m, f)] else []);
      forall i, j | 0 <= i < j < |r| ensures r[i].folder != r[j].folder {
        if j < |r0| {
          assert r[i] == r0[i] && r[j] == r0[j];
        } else {
          assert Shown(m, view, f) && r[j] == Line(m, f);
          assert r[j].folder == f;
          assert r[i] == r0[i] && r0[i] in r0;
          assert r[i].folder in init;
        }
      }
    }
  }

  /** `input().strip().upper() == "Y"`: only `y` and `Y` upper-case to `Y`. */
  predicate IsYes(answer: string) {
    Strip(answer) == "Y" || Strip(answer) == "y"
  }

  /** `os.rename` / `shutil.move` within one folder map: the entry `from`
      now lives under `to`. */
  function Moved(m: map<string, Entry>, from: string, to: string): (r: map<string, Entry>)
    requires from in m
    ensures r.Keys == m.Keys - {from} + {to}
    ensures r[to] == m[from]
    ensures forall f :: f in m && f != from && f != to ==> r[f] == m[f]
  {
    (m - {from})[to := m[from]]
  }

  /** Switch: the active folder is parked under `parked`, then the selected
      folder is renamed to the active id. */
  function Switched(d: SaveDir, sel: string, parked: string): SaveDir
    requires d.activeId in d.saves && sel in d.saves && sel != d.activeId
  {
    var afterPark := Moved(d.saves, d.activeId, parked);
    d.(saves := Moved(afterPark, sel, d.activeId))
  }

  /** The name the new-world branch writes: the stripped input, or
      "New World" when that is empty. */
  function NewWorldName(input: string): string {
    if Strip(input) == "" then DefaultWorldName else Strip(input)
  }

  /** New world: the active folder is parked under `parked` and a fresh
      folder with the given name and contents takes the active id. */
  function WithNewWorld(d: SaveDir, parked: string, name: string, rest: Contents): SaveDir
    requires d.activeId in d.saves
  {
    var afterPark := Moved(d.saves, d.activeId, parked);
    d.(saves := afterPark[d.activeId := Folder(World(Some(name), rest))])
  }

  /** Delete: the selected folder moves into the trash as `trashName`. */
  function Trashed(d: SaveDir, sel: string, trashName: string): SaveDir
    requires sel in d.saves
  {
    d.(saves := d.saves - {sel}, trash := d.trash[trashName := d.saves[sel]])
  }

  /** Undo: the trashed folder moves back into the saves folder as
      `restoredName`. */
  function Restored(d: SaveDir, folder: string, restoredName: string): SaveDir
    requires folder in d.trash
  {
    d.(saves := d.saves[restoredName := d.trash[folder]], trash := d.trash - {folder})
  }

  /** Clear: every folder in the trash is removed; plain files stay. */
  function TrashCleared(d: SaveDir): SaveDir {
    d.(trash := map f | f in d.trash && d.trash[f].PlainFile? :: d.trash[f])
  }

  /** Rename: `name.txt` of `folder` now holds `name`. */
  function Renamed(d: SaveDir, folder: string, name: string): SaveDir
    requires folder in d.saves && d.saves[folder].Folder?
  {
    d.(saves := d.saves[folder := Folder(d.saves[folder].world.(nameTxt := Some(name)))])
  }

  /** Switch swaps the selected world in: the names become the old names
      without the selected one plus the fresh `worldK`, the active id now
      holds the selected world and `worldK` the previously active one, and
      nothing else changes. The old active world becomes listed and the
      selected name disappears. */
  lemma SwitchEffect(d: SaveDir, sel: string, k: nat)
    requires Valid(d) && ActiveIsFolder(d) && IsListedWorld(d, sel)
    requires IsLowestFreeWorld(Occupied(d), k)
    ensures var d' := Switched(d, sel, WorldName(k));
      && d'.saves.Keys == d.saves.Keys - {sel} + {WorldName(k)}
      && d'.saves[d.activeId] == d.saves[sel]
      && d'.saves[WorldName(k)] == d.saves[d.activeId]
      && (forall f :: f in d.saves && f != sel && f != d.activeId ==> d'.saves[f] == d.saves[f])
      && d'.trash == d.trash && d'.activeId == d.activeId
      && Valid(d') && ActiveIsFolder(d')
      && IsListedWorld(d', WorldName(k)) && !IsListedWorld(d', sel)
  {
    var parked := WorldName(k);
    assert parked[0] == 'w' != TrashDirName[0];
  }

  /** The name written by the new-world branch is never empty and is
      already stripped, so it is the name the menu will show. */
  lemma NewWorldNameShape(input: string)
    ensures NewWorldName(input) != ""
    ensures Strip(NewWorldName(input)) == NewWorldName(input)
  {
    var name := NewWorldName(input);
    if Strip(input) == "" {
      assert name == DefaultWorldName;
      StripOfTrimmed(DefaultWorldName);
    } else {
      assert name == Strip(input);
      StripIdempotent(input);
    }
  }

  /** New world parks the active world under the fresh `worldK` and creates
      the active folder anew, shown under the stripped name written to its
      `name.txt`. */
  lemma NewWorldEffect(d: SaveDir, k: nat, name: string, rest: Contents)
    requires Valid(d) && ActiveIsFolder(d)
    requires IsLowestFreeWorld(Occupied(d), k)
    requires Strip(name) == name
    ensures var d' := WithNewWorld(d, WorldName(k), name, rest);
      && d'.saves.Keys == d.saves.Keys + {WorldName(k)}
      && d'.saves[WorldName(k)] == d.saves[d.activeId]
      && d'.saves[d.activeId] == Folder(World(Some(name), rest))
      && (forall f :: f in d.saves && f != d.activeId ==> d'.saves[f] == d.saves[f])
      && d'.trash == d.trash && d'.activeId == d.activeId
      && Valid(d') && ActiveIsFolder(d')
      && DisplayName(d.activeId, d'.saves[d.activeId].world) == name
  {
  }

  /** Delete takes the selected world out of the saves folder and out of
      the world listing, and the trash holds it under its timestamped name. */
  lemma TrashEffect(d: SaveDir, sel: string, timestamp: nat)
    requires Valid(d) && IsListedWorld(d, sel)
    requires Suffixed(sel, timestamp) !in d.trash
    ensures var d' := Trashed(d, sel, Suffixed(sel, timestamp));
      && d'.saves.Keys == d.saves.Keys - {sel}
      && d'.trash.Keys == d.trash.Keys + {Suffixed(sel, timestamp)}
      && !IsListedWorld(d', sel)
      && IsDeletedWorld(d', Suffixed(sel, timestamp))
      && d'.trash[Suffixed(sel, timestamp)] == d.saves[sel]
      && (forall f :: f in d'.saves ==> d'.saves[f] == d.saves[f])
      && (forall f :: f in d.trash ==> d'.trash[f] == d.trash[f])
      && d'.activeId == d.activeId
      && Valid(d') && (ActiveIsFolder(d) ==> ActiveIsFolder(d'))
  {
  }

  /** Undo brings the trashed world back under a name that collides with
      nothing, takes it out of the trash, and disturbs no other world. */
  lemma RestoreEffect(d: SaveDir, folder: string, restoredName: string)
    requires Valid(d) && IsDeletedWorld(d, folder)
    requires restoredName !in Occupied(d)
    ensures var d' := Restored(d, folder, restoredName);
      && d'.saves.Keys == d.saves.Keys + {restoredName}
      && d'.saves[restoredName] == d.trash[folder]
      && (forall f :: f in d.saves ==> d'.saves[f] == d.saves[f])
      && d'.trash.Keys == d.trash.Keys - {folder}
      && (forall f :: f in d'.trash ==> d'.trash[f] == d.trash[f])
      && d'.activeId == d.activeId
      && Valid(d') && (ActiveIsFolder(d) ==> ActiveIsFolder(d'))
  {
  }

  /** Deleting a world and undoing it gives back the same world, possibly
      under another folder name, and leaves the trash as it was. */
  lemma DeleteThenUndo(d: SaveDir, sel: string, timestamp: nat, restoredName: string)
    requires Valid(d) && IsListedWorld(d, sel)
    requires Suffixed(sel, timestamp) !in d.trash
    requires restoredName !in Occupied(Trashed(d, sel, Suffixed(sel, timestamp)))
    ensures var d' := Restored(Trashed(d, sel, Suffixed(sel, timestamp)), Suffixed(sel, timestamp), restoredName);
      && d'.saves == (d.saves - {sel})[restoredName := d.saves[sel]]
      && d'.trash == d.trash
      && d'.activeId == d.activeId
  {
    var t := Suffixed(sel, timestamp);
    var d' := Restored(Trashed(d, sel, t), t, restoredName);
    assert d'.trash == d.trash by {
      assert d'.trash == d.trash[t := d.saves[sel]] - {t};
    }
  }

  /** A trashed world without `name.txt` is shown, and so restored, under
      its timestamped trash name rather than its old folder name. */
  lemma UndoNameWithoutNameTxt(d: SaveDir, sel: string, timestamp: nat)
    requires IsListedWorld(d, sel) && d.saves[sel].world.nameTxt.None?
    requires Suffixed(sel, timestamp) !in d.trash
    ensures var d' := Trashed(d, sel, Suffixed(sel, timestamp));
      Line(d'.trash, Suffixed(sel, timestamp)).name == Suffixed(sel, timestamp) != sel
  {
    assert |Suffixed(sel, timestamp)| > |sel|;
  }

  /** Clearing leaves no folder in the trash, keeps its plain files and
      touches nothing else; clearing again changes nothing. */
  lemma ClearEffect(d: SaveDir)
    ensures var d' := TrashCleared(d);
      && (forall f :: !IsDeletedWorld(d', f))
      && (forall f :: f in d.trash && d.trash[f].PlainFile? ==> f in d'.trash && d'.trash[f] == d.trash[f])
      && d'.saves == d.saves && d'.activeId == d.activeId
      && TrashCleared(d') == d'
  {
  }

  /** Rename never changes a folder name; the renamed world is then shown
      under the new name, which the caller has already stripped. */
  lemma RenameEffect(d: SaveDir, folder: string, name: string)
    requires folder in d.saves && d.saves[folder].Folder?
    requires Strip(name) == name
    ensures var d' := Renamed(d, folder, name);
      && d'.saves.Keys == d.saves.Keys
      && DisplayName(folder, d'.saves[folder].world) == name
      && d'.saves[folder].world.rest == d.saves[folder].world.rest
      && (forall f :: f in d.saves && f != folder ==> d'.saves[f] == d.saves[f])
      && d'.trash == d.trash && d'.activeId == d.activeId
  {
  }
}
