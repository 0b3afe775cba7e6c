# ArmA 3 mod synchroniser — a Dafny model

This project models the mod-synchronisation engine of `a3down.py`, a script that keeps the workshop mods of an ArmA 3 dedicated server up to date. The script reads an exported preset (the registry of `@name` → workshop id). It then:

- brings every mod up to date with the download tool, recording failures in `failed_mods.txt`;
- retries the failed ones until they arrive;
- links each mod folder into the server's mods directory;
- links every mod's key files into the server's keys directory;
- writes the `-mod=` launch parameters to `ModsParam.txt`.

The filesystem is a value, `FileSystem.State`. It holds the workshop folders, the mods directory, the keys directory, the text of the ledger, a journal of every effect in order, and the `lowercase` flag. Everything the script cannot see into is an oracle in `FileSystem.Env`:

- what the download tool leaves behind on its n-th run;
- the changelog timestamp of each mod;
- whether a symbolic link, a junction or a copy succeeds;
- the host's `os.name` and `sys.platform`.

Modules, following the script's parts:

- `Text`: Python's `strip`, ASCII `lower`, line iteration and `"\n".join`.
- `Platform`: `os_type`.
- `Registry`: the name and id derivation of `mods()`. `A3Modnames` is a list that keeps duplicates. `A3Modlist` is an insertion-ordered dict. The class `Registry.Registry` holds the two globals, and `Load` refills them.
- `Checks`: `mod_needs_update` (the timestamp comparison) and `mod_check`.
- `Ledger`: writing and reading the failed-mods ledger.
- `Orchestrator`: `update_mods`, `ForeUpdate` and `clearmods`, as functions on `State`.
- `Retry`: `retry_failed_mods`.
- `Links`: `create_mod_symlinks`.
- `Keys`: `copy_keys`.
- `LaunchParams`: `print_launch_params`.
- `Engine`: the class `Engine.Server`, whose fields are the directories and files. Its methods run the script's loops step by step. Each method is proved to end in the state given by the matching specification function, so the lemmas about those functions hold of the methods.

Behaviours of the script that the model keeps as written:

- **Launch lines on Windows.** They are built with `str(Path)`, so they use `\` between parts (`mods\@ace;`), not `/`.
- **Lines come from `A3Modnames`.** That list keeps duplicate names, so there is one line per name, not one per registry entry.
- **A mods directory outside the server root is fatal.** `relative_to` raises outside the `try`, so `print_launch_params` fails instead of logging (`LaunchParams.Outcome.NotUnderServer`).
- **The ledger test is the attempt counter.** `update_mods` records an id when `tries` reached `MAX_TRIES`, even when the folder appeared on that last run. It never looks at whether an `addons` folder is filled.
- **A dangling link at a mod's link path.** `exists()` is false, so the creation branch is entered and `symlink_created` becomes true. Both link calls then find the path taken, and nothing is made.
- **Fallbacks differ by target.** Mod folders fall back from a symbolic link to a junction (Windows only). Key files fall back from a symbolic link to a copy (Windows only). A failed key link elsewhere still claims the key. A failed copy on Windows does not.
- **The `mod_name not in A3Modlist.items()` test is always true.** It compares a string against `(name, id)` pairs, so the model omits it.

## Model

| member | source | states |
|---|---|---|
| Platform.OsType | a3down.py:126-135 | the result is one of the four names; "Windows" exactly when `os.name` is `nt`; "macOS" exactly for `posix` with a `darwin` platform; "Linux" exactly for other `posix` platforms |
| Text.Strip | a3down.py:251 | the result has no white space at either end and is no longer than the input |
| Text.StripPadded | a3down.py:251 | stripping white space around a stripped word gives back exactly that word |
| Text.StripStripped | a3down.py:251 | a string without white space at its ends is unchanged |
| Text.AsciiLowerChars | a3down.py:254 | character by character, each ASCII capital becomes its own small letter (`A` to `a` … `Z` to `z`) and every other character is kept in place; no ASCII capital remains |
| Text.LinesJoinLines | a3down.py:456 | splitting `"\n".join(ls)` into lines gives back `ls` when no element holds a break |
| Registry.DropSpecials | a3down.py:252-253 | no character of the special set survives |
| Registry.DropSpecialsAppend | a3down.py:252-253 | deleting specials from `a + b` is deleting them from `a` and from `b` and joining the results |
| Registry.DropSpecialsChar | a3down.py:252-253 | one character is kept exactly when it is not in the special set; with the lemma above this fixes the result: the non-special characters, in order |
| Registry.DropSpecialsKeeps | a3down.py:252-253 | text without a special character comes back unchanged |
| Registry.SpacesToUnderscoresChars | a3down.py:254 | at every position, a space becomes `_` and any other character is kept |
| Registry.CollapseDoublesChars | a3down.py:254 | every character of the result occurs in the input |
| Registry.CollapseDoublesAppend | a3down.py:254 | collapsing `a + b` is collapsing `a` and `b` apart and joining them, when `a` does not end in `_` (no pair spans the seam) |
| Registry.CollapseDoublesKeeps | a3down.py:254 | text without two underscores in a row comes back unchanged |
| Registry.CollapseRun | a3down.py:254 | a run of n underscores followed by text that does not start with `_` becomes (n + 1) / 2 underscores followed by that text collapsed: one non-overlapping pass, so `___` becomes `__` |
| Registry.ModName | a3down.py:251-255 | the name is `@` followed by the stripped display text with its specials deleted, each character normalised on its own (space to `_`, ASCII capital to small letter) and each non-overlapping `__` collapsed |
| Registry.NormalizedIsLowerThenUnderscores | a3down.py:254 | lower-casing and then replacing spaces is the same as normalising each character on its own |
| Registry.ModNameShape | a3down.py:251-255 | after the `@` the name holds no special character, no upper-case letter and no space, and its letters are those of the stripped, cleaned, lower-cased display name in order |
| Registry.ModId | a3down.py:256-257 | the id holds no `=` and is no longer than the link |
| Registry.ModIdIsLastField | a3down.py:256-257 | the id is the suffix of the link after its last `=` (the whole link when there is none) |
| Registry.PutKeys | a3down.py:258 | assigning a dict key keeps the key order, and appends the key when it is new |
| Registry.PutAt | a3down.py:258 | assigning replaces the value in place of an existing key and otherwise appends the pair at the end |
| Registry.PutDistinct | a3down.py:258 | the dict never holds a name twice |
| Registry.NamesPerRow | a3down.py:255 | `A3Modnames` has one entry per preset row, in row order, duplicates kept |
| Registry.DictKeys | a3down.py:255-258 | the keys of `A3Modlist` are the names in order of first appearance |
| Registry.DictValues | a3down.py:255-258 | each name of `A3Modlist` maps to the id of its last row |
| Registry.FirstOccurrencesMembers | a3down.py:255-258 | the first-appearance order holds exactly the names that occur |
| Registry.ModlistSpec | a3down.py:232-260 | `A3Modlist` has distinct names in first-appearance order, each with the last id given for it |
| Registry.Registry.constructor | a3down.py:229-230 | both globals start empty |
| Registry.Registry.Load | a3down.py:232-260 | `mods()` clears both globals and refills them: `A3Modnames` with every row's name, `A3Modlist` as the ordered dict |
| Checks.NeedsUpdate | a3down.py:179-196 | true exactly when a remote timestamp was found and is at least the local ctime; false when there is no match or the request failed |
| Checks.AddonsProbe | a3down.py:269-273 | `Addons` is probed when it is a folder, else `addons` |
| Checks.NeedsReinstall | a3down.py:264-283 | false exactly when the probed folder exists and has at least one entry |
| Checks.Stale | a3down.py:301-311 | a mod is refetched exactly when a remote timestamp was found that is at least its folder's ctime, or when neither a filled `Addons` folder nor (with no `Addons` folder) a filled `addons` folder is there |
| Ledger.ReadLedger | a3down.py:358-359 | every id read is non-empty, stripped and holds no line break |
| Ledger.SerializeSnoc | a3down.py:329-330 | appending `id\n` extends the ledger text by exactly that line |
| Ledger.ReadSerialize | a3down.py:358-359 | reading back a ledger of stripped, non-empty, single-line ids gives the ids in order |
| Orchestrator.AfterFetchesFrame | a3down.py:313-325 | k runs of the tool add k `Fetch` entries and touch only that id's folder |
| Orchestrator.FetchUntilSpec | a3down.py:312-325 | the download loop stops at the first moment the folder exists or the counter reaches `MAX_TRIES`; it never counts past `MAX_TRIES`; every earlier state lacked the folder |
| Orchestrator.SyncModSpec | a3down.py:296-330 | a skipped mod changes nothing; otherwise an installed copy is removed first, the tool runs at most `MAX_TRIES` times, the id is appended to the ledger exactly when the counter reached `MAX_TRIES`, and nothing but that folder, the ledger, the journal and `lowercase` changes |
| Orchestrator.PreparedSpec | a3down.py:301-306 | removing an installed copy touches only its folder, journals the removal and sets `lowercase` |
| Orchestrator.DownloadLoop | a3down.py:313-325 | from a zero counter the loop runs the tool at most `MAX_TRIES` times, leaves the folder in place unless the counter ran out, and touches nothing else |
| Orchestrator.SyncModRecord | a3down.py:312-330 | the journal and the ledger after one mod that is not skipped |
| Orchestrator.NoTriesRecordsAll | a3down.py:312-330 | with `MAX_TRIES <= 0` a mod that is not skipped is recorded without a single download |
| Orchestrator.LastAttemptRecorded | a3down.py:312-330 | for any `MAX_TRIES` of at least 1, a mod that is not installed, whose first `MAX_TRIES - 1` runs leave no folder and whose last permitted run delivers one, ends with the counter at `MAX_TRIES`, installed, and still appended to the ledger |
| Orchestrator.DeliversLast | a3down.py:312-320 | from counter `t`, when every run before the last permitted one leaves no folder and that one delivers, the loop stops at `MAX_TRIES` with the folder in place |
| Orchestrator.AppendedConcat | a3down.py:329-330 | the ledger appends of two journals in a row are those of the first, then those of the second |
| Orchestrator.SerializeConcat | a3down.py:329-330 | the ledger text of two runs of ids is the text of the first, then of the second |
| Orchestrator.SyncOpsAppended | a3down.py:327-330 | one mod appends its id to the ledger at most once, exactly when it reached `MAX_TRIES` |
| Orchestrator.SyncModLedger | a3down.py:327-330 | one more mod extends the ledger's appended ids by its own id exactly when its iteration was not skipped and its counter reached `MAX_TRIES`, and by nothing otherwise |
| Orchestrator.SyncAllLedger | a3down.py:296-330 | the ids appended during the loop are exactly `Recorded`: the ids, in registry order, of the items whose iteration was not skipped and reached `MAX_TRIES`; the ledger's new text is those ids one per line |
| Orchestrator.UpdateModsAppends | a3down.py:290-330 | after the old ledger is deleted, the ledger holds exactly the ids appended since; they are `Recorded` over the registry, so each is an id of a registry item |
| Orchestrator.UpdateModsLedger | a3down.py:293-330 | the old ledger is deleted first; afterwards the ledger exists exactly when some item was exhausted, holds the `Recorded` ids in registry order one per line, and reads back as those ids when every registry id is non-empty, without white space at its ends and without a line break |
| Orchestrator.ForceAllSpec | a3down.py:337-350 | exactly one run of the tool per registry item, in order, and only those items' folders change |
| Orchestrator.ClearAllSpec | a3down.py:571-576 | the folder of every listed id is removed and every other folder, the mods, keys, ledger and flag are kept |
| Retry.SearchFrom | a3down.py:365-378 | the first delivering run at or after a position, given one that delivers |
| Retry.FirstDelivery | a3down.py:365-378 | the first delivering run from the current position on, under a tool that does not fail for ever |
| Retry.NotReadyBefore | a3down.py:365-378 | runs that do not deliver leave a missing or empty folder missing or empty |
| Retry.RetryOneSpec | a3down.py:362-378 | the loop for one id ends with a non-empty folder, runs the tool zero times exactly when the folder was already non-empty, stops at the first moment it is non-empty, and touches only that folder and the journal |
| Retry.RetryAllFrame | a3down.py:360-378 | the loops only run the tool for listed ids and leave other folders, the mods, keys and ledger as they were |
| Retry.RetryAllSnoc | a3down.py:360-378 | the loops go in ledger order: one more id appends exactly that id's own run of fetches after the earlier ids' runs |
| Retry.NeverDeliversNeverStops | a3down.py:364-378 | when the folder is missing or empty and no later run of the tool delivers, no number of runs leaves the folder non-empty, so the `while True` loop never ends |
| Retry.RetryAllReady | a3down.py:360-378 | after the loops every listed folder is non-empty |
| Retry.RetryFailedSpec | a3down.py:353-380 | nothing happens without a ledger; otherwise every id read from it ends non-empty, only those ids are fetched, and the ledger is deleted as the very last step |
| Links.LinkModEffect | a3down.py:421-439 | one iteration keeps every entry, adds at most the link of its own item to an existing workshop folder, and adds it whenever that folder exists and a link can be made |
| Links.ProvisionFrame | a3down.py:418-443 | no entry of the mods directory is replaced or removed; only the mods directory and the journal change; nothing changes when `symlink_created` stays false |
| Links.ProvisionLinks | a3down.py:418-443 | every new entry is a link named after an item and leading to that item's existing folder; every item whose folder exists and whose link can be made has an entry afterwards |
| Links.LinkModStable | a3down.py:424 | an item whose link exists or cannot be made changes nothing |
| Links.ProvisionStable | a3down.py:418-443 | a pass over settled items changes nothing |
| Links.ProvisionIdempotent | a3down.py:418-443 | a second run with unchanged outcomes creates nothing |
| Keys.AllOffersResolve | a3down.py:479-502 | every offered key file exists |
| Keys.FirstClaimsSpec | a3down.py:501-504 | each offered key has a first offer, which is the earliest offer of that key |
| Keys.PruneSpec | a3down.py:470-475 | the first loop removes exactly the dangling links among the listed entries; with a complete listing nothing dangles afterwards; nothing changes when nothing dangled |
| Keys.PruneKeyEffect | a3down.py:471-475 | one iteration of the first loop removes the listed key when its link dangles and changes nothing else |
| Keys.PruneKeys | a3down.py:470-475 | the first loop removes exactly the dangling links among the listed entries and keeps every other entry |
| Keys.PruneFrame | a3down.py:470-475 | the first loop changes only the keys directory and the journal |
| Keys.NoDanglingPrune | a3down.py:470-475 | with no dangling link the first loop changes nothing, the journal included |
| Keys.ClaimStep | a3down.py:500-533 | one iteration leaves no dangling link and does not touch the installed mods |
| Keys.CreateSafe | a3down.py:514-531 | removing the old entry and making the link leaves no dangling link and the installed mods untouched |
| Keys.Pass | a3down.py:477-533 | the second phase leaves no dangling link and does not touch the installed mods |
| Keys.PassConcat | a3down.py:477-533 | running the second phase over two runs of offers is running it over each in turn |
| Keys.CreateFrame | a3down.py:522-531 | making the link changes only the offered key and journals at most that change |
| Keys.ClaimStepFrame | a3down.py:500-533 | one iteration changes only the offered key's destination and journals only changes to it |
| Keys.PassFrame | a3down.py:477-533 | an unoffered key keeps its entry, every journal entry names an offered key, and only the keys directory and the journal change |
| Keys.PassKeysFrame | a3down.py:477-533 | an unoffered key keeps its presence and value through the second phase |
| Keys.PassJournal | a3down.py:477-533 | the second phase only appends journal entries naming offered keys and changes only the keys directory and the journal |
| Keys.CorrectKept | a3down.py:506-512 | an existing link to the same file is kept as it is, and the key is claimed for the offerer |
| Keys.FirstClaimsSnoc | a3down.py:501-504 | one more offer claims its key only when that key is new |
| Keys.ClaimStepHeld | a3down.py:501-531 | one iteration adds the offer's key to `existing_keys` unless it is held already or a Windows copy fails |
| Keys.FailedLinkClaims | a3down.py:515-531 | on a host other than Windows, a failed link for an unclaimed, not already correct key creates nothing, yet claims it: afterwards the key is absent from the keys directory, which is otherwise as before, and `existing_keys` maps it to the offer's mod |
| Keys.HeldSkipped | a3down.py:501-503 | an offer of a key already in `existing_keys` changes nothing: the whole state and `existing_keys` stay as they were |
| Keys.FailedLinkStaysAbsent | a3down.py:501-531 | after such a failed link, a later offer of the same key from another mod is skipped: the key stays absent and stays claimed by the first mod |
| Keys.PassClaims | a3down.py:477-533 | first writer wins: when every offer on Windows can at least be copied, `existing_keys` maps each key to the name of its earliest offer |
| Keys.SettleStep | a3down.py:506-531 | an iteration whose link can be made extends correct linking to one more offer |
| Keys.PassSettles | a3down.py:477-533 | when every link can be made, every offered key ends correctly linked to its first offer |
| Keys.PassOnSettled | a3down.py:477-533 | a keys directory that is already correct passes through unchanged |
| Keys.CopyKeysIdempotent | a3down.py:466-533 | when every link can be made, a second `copy_keys()` changes nothing |
| LaunchParams.RelativeTo | a3down.py:453 | `relative_to` succeeds exactly when the anchors and the leading parts match (ignoring case on Windows) and then gives the remaining parts |
| LaunchParams.RelativeToBelow | a3down.py:453 | a path below the server root gives back exactly the parts added to it |
| LaunchParams.Launch | a3down.py:449-456 | the outcome is `NoMods` (nothing written, no mods directory consulted) exactly when `A3Modnames` is empty, and `NotUnderServer` (the uncaught `relative_to` error) exactly when `A3Modnames` is not empty and `MODS_DIR` is not below `SERVER_DIR` |
| LaunchParams.LaunchWritten | a3down.py:449-456 | when the mods directory lies below the server root and there are names, the file holds the launch lines joined by line breaks |
| LaunchParams.LaunchReadBack | a3down.py:453-456 | the written text has one line per name, in order and with duplicates: the relative path of the mod, then `;` on Windows and `\;` elsewhere |
| LaunchParams.LaunchLineEnds | a3down.py:454-456 | every line ends with the mod name followed by the host's separator |
| LaunchParams.JoinPartsNoBreak | a3down.py:454 | a path holds no line break unless one of its parts does |
| LaunchParams.LinuxExample | a3down.py:453-456 | on Linux, `/srv/arma3/mods` under `/srv/arma3` gives `mods/@CBA_A3\;` and `mods/@ace\;` |
| LaunchParams.WindowsExample | a3down.py:453-456 | on Windows the comparison ignores case and the line is `Mods\@CBA_A3;` |
| LaunchParams.OutsideExample | a3down.py:453 | a mods directory outside the server root makes the call fail |
| Engine.Server.constructor | a3down.py:77-81 | the server starts from the given directories and files |
| Engine.Server.RunTool | a3down.py:314-325 | one run of the download tool: the folder is what the tool leaves, and the run is journalled |
| Engine.Server.SyncMod | a3down.py:298-330 | one iteration of `update_mods` ends in the state `Orchestrator.SyncMod` gives |
| Engine.Server.UpdateMods | a3down.py:287-334 | `update_mods()` ends in the state `Orchestrator.UpdateMods` gives |
| Engine.Server.ForceUpdate | a3down.py:337-350 | `ForeUpdate()` ends in the state `Orchestrator.ForceAll` gives |
| Engine.Server.RetryOne | a3down.py:362-378 | the `while True` loop for one id ends in the state `Retry.RetryOne` gives |
| Engine.Server.RetryAll | a3down.py:360-378 | the loop over the ledger's ids ends in the state `Retry.RetryAll` gives |
| Engine.Server.RetryFailedMods | a3down.py:353-380 | `retry_failed_mods()` ends in the state `Retry.RetryFailed` gives |
| Engine.Server.CreateModSymlinks | a3down.py:418-443 | `create_mod_symlinks()` ends in the state and `symlink_created` value `Links.Provision` gives |
| Engine.Server.PruneKeys | a3down.py:470-475 | the first loop of `copy_keys()` ends in the state `Keys.Prune` gives |
| Engine.Server.ClaimKey | a3down.py:500-533 | one key file ends in the state and `existing_keys` that `Keys.ClaimStep` gives |
| Engine.Server.ClaimKeys | a3down.py:500-533 | the loop over one mod's key files ends as `Keys.Pass` gives |
| Engine.Server.CopyKeys | a3down.py:466-533 | `copy_keys()` ends in the state and `existing_keys` that `Keys.CopyKeys` gives |
| Engine.Server.ClearMods | a3down.py:571-576 | `clearmods()` ends in the state `Orchestrator.ClearAll` gives |

## Left out

- `call_steamcmd` and `update_server`: process launch and output streaming. A run of the tool is one oracle outcome: what is left at the workshop folder.
- The HTTP request and regex scan of `mod_needs_update`: network I/O. The changelog oracle gives the matched timestamp, or None for no match or a request error.
- `html_file`: interactive input and choosing a file by ctime. The preset's rows are a parameter.
- The BeautifulSoup traversal in `mods()`: a foreign library. The model starts from each row's display text and link.
- `lowercase_workshop_dir`: its result depends on the host filesystem's case sensitivity. The `lowercase` flag it reads is modelled.
- `clearallmods`: bulk deletion of whole directories.
- Configuration loading, logging, colours, `debug`, argument parsing, the composite `update()`/`param()` and the main dispatch. These include `time.sleep` and the log messages, such as "No Mod Updates required".
- The internals of `os.symlink`, `mklink /J` and `shutil.copy2`. Each is a success or failure oracle. The junction call's exit status is not checked by the script and is an oracle too.
- Floating-point ctimes and timestamps: integers are used.
- Unicode case mapping: `lower()` is modelled for ASCII letters only.
- Path strings: configured paths are given already split into anchor and parts, as `pathlib` splits them.
- The write of `ModsParam.txt`, and its failure path: `LaunchParams.Launch` gives the text that is written.
- A workshop entry that is a file rather than a folder, and sub-folders inside a key folder. The model's workshop holds folders only, and key folders hold files only.
- `Retry.RetryFailedSpec`: the script's retry loop has no bound and runs for ever when the tool never delivers a non-empty folder. The model requires `Retry.Fair` (a later run always delivers) and says nothing about the diverging case beyond `Retry.NeverDeliversNeverStops`, which shows that with a tool that never delivers the loop does not end. The log line at a3down.py:357 announces retrying "until success", so the missing bound is kept as written rather than treated as a defect.
- `Keys.ClaimStep`: the model requires that the keys directory holds no dangling link. The first loop of `copy_keys()` establishes this when it is given the complete listing, so the case where a dangling destination survives is not modelled.
- `Keys.PassClaims`: first-writer-wins is proved when no Windows copy fails. A failed copy leaves the key unclaimed, so a later offer may take it.
- `Keys.CopyKeysIdempotent`: stated when every key link can be made. With a failed link elsewhere the key is claimed without an entry (`Keys.FailedLinkClaims`, `Keys.FailedLinkStaysAbsent`).
- Registry.ModNameShape: states the letters and that no special, capital or space remains, not where the underscores fall. `Registry.ModName`'s own ensures, with `Registry.CollapseRun` and `Registry.CollapseDoublesAppend`, fixes those.
- Registry.CollapseDoublesChars: states only that no new character appears. The exact result is fixed by `Registry.CollapseRun`, `Registry.CollapseDoublesAppend` and `Registry.CollapseDoublesKeeps`.
- Ids as path components: `ModId` of a link ending in `=` is the empty string, and `WORKSHOP_DIR / ""` names the workshop folder itself, so the script's `rmtree` (a3down.py:304) and `clearmods` (a3down.py:576) would delete every mod. An id holding `/` or `..` would reach another folder. The model keeps each id as a separate key of the workshop map and does not model either case.
- Checks.NeedsUpdate: the script compares naive local `datetime.fromtimestamp` values. Across a daylight-saving fall-back these are not monotone in the underlying time, and the model compares the integer timestamps instead.
- Checks.NeedsUpdate: an `OverflowError`, `OSError` or `ValueError` from `fromtimestamp`, and an `OSError` from reading the ctime, are not caught (only `RequestException` is) and end the script. The model has no such failures.
- Case-insensitive lookups: every map of the model's file system is case-sensitive, while a Windows host ignores case in `(WORKSHOP_DIR/id/"Addons").is_dir()` (a3down.py:270), `link_path.exists()` (a3down.py:424) and `key_dest.exists()` (a3down.py:507). On such a host the script finds an `ADDONS` folder where `Checks.NeedsReinstall` asks for a reinstall, skips an existing `@ACE` entry where `Links.LinkMod` creates `@ace`, and lets `cba.bikey` unlink and replace an earlier `CBA.bikey` (last case variant wins) where `Keys.PassClaims` keeps two keys, first writer wins.
- A folder directly inside `KEYS_DIR`: `key_dest.unlink()` (a3down.py:520) sits outside the `try` and raises on a folder, ending the script. The model's keys directory holds only links and files, so this failure is not modelled.
- A missing `KEYS_DIR`: `os.listdir` (a3down.py:471) raises and ends the script. The model's keys directory always exists.
- The `lowercase` flag when `A3Modlist` is empty, and other branches that only choose a log message.
