# Palworld save manager — a Dafny model of its bookkeeping

`PalworldSaveManager.py` is a console tool that keeps several Palworld
dedicated-server worlds side by side in the server's save folder
`Pal/Saved/SaveGames/0`. The *active* world is the folder named by the
*active id*. That id is the `DedicatedServerName` in `GameUserSettings.ini`,
or, when that names no existing entry, whatever the user types at startup,
which is not checked; so the active folder may be missing. Every other world
folder is parked under some other name, and worlds that are deleted go to a
`__trash__` folder inside the save folder, from which they can be restored or
cleared.

This project models that bookkeeping with the file system abstracted to maps
from names to entries:

- `options.dfy` — an `Option` type.
- `text.dfy` — the Python string operations the tool relies on:
  - `str.strip()` with Python's whitespace set;
  - `startswith`;
  - `split("=", 1)[1]`;
  - `str(n)`.
- `fresh_names.dfy` — the two fresh-name generators, as while-loops proved
  against specification predicates:
  - `get_next_world_name` picks the lowest free `worldK`;
  - `safe_rename` picks `name`, then `name_1`, `name_2`, ….
- `active_id.dfy` — the startup scan of `GameUserSettings.ini` for the active
  id, and the fallback to the manually typed id.
- `save_folder.dfy` — the save folder as a value, plus:
  - the two listings the menu shows;
  - the effect of every menu branch as a function of the old state;
  - lemmas stating what each branch does to the set of names and to the worlds.
- `manager.dfy` — class `SaveManager` with fields `saves`, `trash` and
  `activeId`:
  - the startup is its constructor;
  - each menu branch (switch, new, delete, undo, clear, rename) is a method
    that updates the maps in place;
  - each method is proved to produce exactly the state the matching function
    of `save_folder.dfy` describes.

Choices that shape the model:

- **Entries.** An entry of the save folder or of the trash is either a world
  folder or a plain file. The listings and the trash clearing look only at
  folders, so plain files must be represented.
- **World contents.** A world folder is its optional `name.txt` text plus
  the rest of its contents. The rest is opaque and carried along unchanged.
- **The trash folder.** It is kept apart from the other entries of the save
  folder. Its name still counts as taken when a fresh name is chosen.
- **Outside inputs.** These arrive as parameters:
  - what the user types, already reduced to a valid menu index by the
    re-prompt loops;
  - the clock value used in a trash name;
  - the new world's settings file;
  - the order in which the operating system lists a folder.
- **Uncaught errors.** The program handles only `KeyboardInterrupt`. A branch
  that would raise on a missing active folder is modelled as a method that
  returns `ok == false` and leaves the state unchanged. The program itself
  stops there, and it too has changed nothing by then.

## Model

| member | source | states |
|---|---|---|
| `FreshNames.NextWorldName` | PalworldSaveManager.py:83-87 | the result is `worldK` with K ≥ 1, where `worldK` is not taken and every `world1` … `world(K-1)` is; the loop ends because each taken candidate is a distinct member of the finite name set, so K ≤ number of names + 1 |
| `FreshNames.SafeRename` | PalworldSaveManager.py:75-81 | the result is never a taken name; it is `name` itself when free, otherwise `name_i` for the smallest i ≥ 1 whose name is free; i is bounded by the number of names |
| `FreshNames.WorldNameInjective` | PalworldSaveManager.py:87 | different indices give different `worldK` names, so each loop step of `get_next_world_name` probes a new name |
| `FreshNames.SuffixedInjective` | PalworldSaveManager.py:79 | different suffixes give different `name_i`, so each loop step of `safe_rename` probes a new name |
| `FreshNames.CandidateInjective` | PalworldSaveManager.py:77-79 | the names `safe_rename` tries (`name`, `name_1`, `name_2`, …) are pairwise distinct |
| `FreshNames.LowestFreeWorldUnique` | PalworldSaveManager.py:83-87 | the lowest free world index is unique, so the generator's answer is determined by the set of names |
| `FreshNames.SubsetSize` | PalworldSaveManager.py:78 | a subset of the existing names is no larger than they are; this gives the generators' index bounds K ≤ number of names + 1 and i ≤ number of names |
| `Text.Strip` | PalworldSaveManager.py:41 | the stripped line is no longer than the line and neither starts nor ends with whitespace |
| `Text.StripIsInnerSlice` | PalworldSaveManager.py:41 | `strip()` returns a slice of the line, and everything it drops from either end is whitespace |
| `Text.StripIdempotent` | PalworldSaveManager.py:291 | stripping an already stripped name changes nothing |
| `Text.NatToString` | PalworldSaveManager.py:326-327 | `str(n)` is non-empty, all decimal digits, and has at least two digits from 10 on |
| `Text.NatToStringInjective` | PalworldSaveManager.py:327 | different numbers print differently |
| `Text.AfterFirstPastPrefix` | PalworldSaveManager.py:45 | `split(c, 1)[1]` of `p + c + rest`, where `p` holds no `c`, is `rest` whole, even when `rest` contains `c` |
| `ActiveId.KeyValueIsRestOfLine` | PalworldSaveManager.py:44-45 | on a `DedicatedServerName=` line the value taken is everything after the key, `=` signs included |
| `ActiveId.StripAll` | PalworldSaveManager.py:40-41 | every line is compared in its stripped form |
| `ActiveId.ScanActiveId` | PalworldSaveManager.py:37-46 | the loop with its `inside_section` flag and early `break` returns exactly the specification scan's answer on the stripped lines |
| `ActiveId.FlagAtMeansHeaderBefore` | PalworldSaveManager.py:42-43 | the flag is set at a line exactly when some earlier line is the section header: it is never reset |
| `ActiveId.ScanFindsFirstMatch` | PalworldSaveManager.py:42-46 | the answer is the text after the key on the first key line that comes after a header line |
| `ActiveId.ScanNoneIffNoMatch` | PalworldSaveManager.py:34-46 | the active id stays `None` exactly when no key line follows a header line |
| `ActiveId.KeyBeforeHeaderIgnored` | PalworldSaveManager.py:39-44 | no line before the first header line can be the one the scan accepts, for every file |
| `ActiveId.EarlyKeyExample` | PalworldSaveManager.py:39-46 | example: a file whose only key line precedes the header names no active id |
| `ActiveId.LaterSectionCounts` | PalworldSaveManager.py:42-46 | for every file: a key line anywhere after a header line, whatever sections lie between, is the answer once no earlier line matched |
| `ActiveId.LaterSectionExample` | PalworldSaveManager.py:42-45 | example: a key line in a later section counts, and a value `a=b` is kept whole |
| `ActiveId.ResolveActiveId` | PalworldSaveManager.py:48-51 | the id found in the file is kept when it is non-empty and names an existing entry; otherwise the id is the stripped manual entry; it is never anything else |
| `Manager.SaveManager.Start` | PalworldSaveManager.py:36-54 | startup: the id comes from the file's scan, when the file exists, and is resolved against the save folder's entries (the trash folder included) |
| `SaveFolder.Listing` | PalworldSaveManager.py:57-73 | a listing holds only folders the filter shows, each with its stripped `name.txt` or else its folder name as display name, and it holds every shown folder of the order; the world filter is the one the paste menu uses too (lines 411-414) |
| `SaveFolder.ListingAppend` | PalworldSaveManager.py:59-63 | the listing of a concatenated walk is the listing of the first part followed by that of the second: entries are appended in the order the folder is walked |
| `SaveFolder.ListingOne` | PalworldSaveManager.py:60-63 | a single entry is listed, with its display name, exactly when the filter shows it |
| `SaveFolder.Moved` | PalworldSaveManager.py:271-273 | a rename inside one folder takes away the old name and adds the new one, and nothing else |
| `SaveFolder.ListingHasNoDuplicates` | PalworldSaveManager.py:59-63 | when the folder order lists each name once, no folder appears twice in a listing |
| `Manager.SaveManager.ListWorlds` | PalworldSaveManager.py:57-64 | the append loop builds the world listing: folders other than the active one whose names do not start with `__trash__` |
| `Manager.SaveManager.ListDeleted` | PalworldSaveManager.py:66-73 | the append loop builds the trash listing: every folder in the trash |
| `Manager.SaveManager.SwitchWorld` | PalworldSaveManager.py:266-273 | with the active folder present, the active world is parked under the lowest free `worldK` and the selected world is renamed to the active id; without it, nothing changes |
| `SaveFolder.SwitchEffect` | PalworldSaveManager.py:266-273 | after a switch the names are the old names minus the selected one plus the fresh `worldK`; the active id holds the selected world and `worldK` the previously active one; every other entry, the trash and the active id are unchanged |
| `Manager.SaveManager.NewWorld` | PalworldSaveManager.py:284-302 | the active world is parked under the lowest free `worldK`, and a fresh active folder is created whose `name.txt` is the stripped input or `New World` |
| `SaveFolder.NewWorldNameShape` | PalworldSaveManager.py:291-295 | the name written to `name.txt` is never empty and is already stripped |
| `SaveFolder.NewWorldEffect` | PalworldSaveManager.py:284-302 | a new world adds exactly the fresh `worldK`, which holds the old active world; the active folder becomes a world whose `name.txt` is the name written, with the given settings contents, shown under that name; no other world, the trash and the active id change |
| `Manager.SaveManager.DeleteWorld` | PalworldSaveManager.py:324-328 | on a "Y" answer (after strip and upper-case) the selected world moves to the trash as `folder_timestamp`; any other answer changes nothing |
| `SaveFolder.TrashEffect` | PalworldSaveManager.py:324-328 | a delete removes exactly the selected name from the save folder and adds exactly the timestamped name to the trash, holding the same world; every other entry of either folder and the active id stay |
| `Manager.SaveManager.UndoDelete` | PalworldSaveManager.py:352-354 | the chosen trash folder moves back under `safe_rename` of its display name; the name is fresh, and it is the display name itself when that is free |
| `SaveFolder.RestoreEffect` | PalworldSaveManager.py:352-354 | undo adds exactly the fresh name, holding the trashed world; the entry leaves the trash; every other entry of either folder and the active id stay |
| `SaveFolder.DeleteThenUndo` | PalworldSaveManager.py:324-354 | delete followed by undo gives back the same world, possibly under another folder name, and the same trash |
| `SaveFolder.UndoNameWithoutNameTxt` | PalworldSaveManager.py:71 | a trashed world without `name.txt` is shown, and so restored, under its timestamped name rather than its old folder name |
| `Manager.SaveManager.ClearTrash` | PalworldSaveManager.py:358-371 | with a folder in the trash and a "Y" answer, every folder in the trash is removed and its plain files stay; an empty trash or any other answer changes nothing |
| `Manager.SaveManager.RemoveFolders` | PalworldSaveManager.py:369-371 | the removal loop deletes exactly the folders among the listed trash entries and keeps every other entry as it was |
| `SaveFolder.ClearEffect` | PalworldSaveManager.py:368-371 | after clearing, no folder is left in the trash, plain files are kept, nothing else changes, and clearing again changes nothing |
| `Manager.SaveManager.RenameWorld` | PalworldSaveManager.py:391-394 | a non-empty stripped name is written to the folder's `name.txt`; an empty one changes nothing; writing into a missing active folder raises |
| `SaveFolder.RenameEffect` | PalworldSaveManager.py:391-394 | rename never changes a folder name or the folder's other contents, and the world is then shown under the new name |

## Left out

- Console I/O is not modelled: colour output, `cls`, the prompts and the
  digit-checking re-prompt loops. Each method receives the already chosen
  folder and the answers typed.
- First-run `config.ini` creation and reading (lines 13-25) is left out: it
  only locates the server folder.
- Launching `PalServer.exe` (lines 399-407) is left out: it is a foreign
  process.
- The mirroring of settings and mods between world folders and the live
  server folders is left out. It covers `backup_current_world`,
  `restore_world`, `copy_from_world_to_active` and the paste branch,
  lines 89-203 and 410-465. The contents it changes, such as the `Mods`
  snapshot and the settings file, are the opaque part of a world and are
  carried along unchanged.
- `Manager.SaveManager.SwitchWorld` and `Manager.SaveManager.NewWorld` do not
  model the `Mods` folder that the backup creates inside the active world
  before it is parked.
- `st_mtime` is read by `list_worlds` but never used, so it is left out.
- `time.time()` is not modelled: it becomes the `timestamp` parameter.
- The `KeyboardInterrupt` handler (lines 469-473) is left out: it is signal
  handling.
- File-system errors do not stop the program in the model. A branch that
  would end it with an `OSError` instead returns `ok == false` with the
  state unchanged.
- Path semantics are not modelled: names are plain strings. Names such as
  `""`, `..` or names with separators, and case-insensitive file systems,
  are outside the model.
- The model keeps the trash folder in the save folder from the start. The
  program creates it after resolving the active id, so on a first run it
  is not yet among the existing names then.
- An active id equal to `__trash__` is not modelled.
- `name.txt` is assumed to be a file; a `name.txt` that is a directory is
  not modelled.
- `Manager.SaveManager.DeleteWorld` requires that the timestamped trash
  name is free. If it were taken by a folder, `shutil.move` would nest the
  world inside that folder.
- The folder order given to `Manager.SaveManager.ClearTrash` must list the
  trash's entries. It stands for `iterdir`.
- Moves and renames are not modelled as interruptible. The real branches
  are several file-system calls, not atomic steps.
