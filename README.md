# Lyall fix assistant: the fix lifecycle, modelled in Dafny

This project models the core of `lyall_assistant.py`, a command-line package
manager for the game compatibility fixes that one author publishes as releases
on a code-hosting service. The model covers:

- the derivation of a game title from a repository's description;
- the paginated, filtered listing of fix repositories;
- the install/update reconciler. It checks the latest release, decides whether
  anything needs doing, removes the previous install, extracts the archive
  without its junk entries, picks a Wine DLL-override hint and records the
  installed files;
- uninstall, and the "check all installed fixes" sweep.

Network answers, the archive's entry list and the disk are plain values. The
mutable parts (`state`, the disk and the saved state file) are the fields of
class `Lifecycle.Assistant`. Its methods are proved to have exactly the effect
of the functions `InstallEffect`, `UninstallEffect` and `CheckAllEffect`. The
properties of those functions are lemmas in module `LifecycleFacts`.

Modules, one per file:

- `Wrappers`: `Option`.
- `Text`: ASCII lower-casing, `startswith`/`endswith`, substring search,
  `strip()` and `replace(pat, "")` on `seq<char>`.
- `GameName`: `parse_game_name`.
- `GameNameExamples`: three worked titles, proved step by step.
- `Catalog`: `get_lyall_repos` without HTTP. The pages are a sequence of
  responses, and past its end the catalog answers with an empty page.
- `Archive`: the choice of asset, the junk filter and the override hint.
- `Lifecycle`: records, the disk, release lookups, downloads, the effect
  functions and the class `Assistant`.
- `LifecycleFacts`: the lifecycle properties.

Modelling choices:

- The disk is a map from `FullPath(dir, entry)` (the pair given to
  `os.path.join`) to `File` or `Dir`. `FullPath(dir, "")` is the folder itself,
  and `os.path.exists(dir)` means that this key is present.
- An `os.remove` that raises is modelled by a fixed set `locked` of paths. Such
  a file stays, and the loop carries on.
- A download is either `DownloadError` (a request failure or an unreadable zip)
  or the archive's entry names. `failAt == Some(k)` means the `k`-th extract
  call raises. The entries extracted before it stay on disk.
- The state file is the field `saved`. It is overwritten with `state` wherever
  the source calls `save_json`.
- Python's dictionary iteration order in `check_installed_updates` is the
  parameter `order`, which lists every key once.
- Records have a fixed shape, so `'files' in local_data` holds exactly when the
  repository has a record.

Two consequences of the code are worth stating:

- A failed re-download keeps the old record. The pre-uninstall is quiet, and a
  quiet uninstall never deletes the record (lines 150-151 and 213-215), while
  the old files are already gone. `FailedInstallKeepsRecord` states this, and
  `StaleRecordAfterFailedMove` shows one consequence: the next check of the old
  folder reports the fix as up to date.
- The stop words are applied one after another, in list order (lines 49-52),
  and `CutAll` does the same. This is not the same as cutting at the earliest
  stop word: "A which that B" keeps "A which".

## Model

| member | source | states |
|---|---|---|
| GameName.CleanDescription | lyall_assistant.py:34 | a `None` or empty description is treated as `""` |
| GameName.FirstPrefix | lyall_assistant.py:36-44 | the prefix removed is the first one, in list order, that the lower-cased description starts with; `None` exactly when no prefix matches |
| GameName.GameTitle | lyall_assistant.py:32-54 | the title `parse_game_name` returns; it starts and ends with a non-whitespace character |
| GameName.CutAt | lyall_assistant.py:51-52 | `x.split(w)[0]` when `w in x`: a prefix of the text, and the text itself when `w` does not occur |
| GameName.CutAll | lyall_assistant.py:49-52 | the stop words applied one after another, in list order (properties in `CutAllIsPrefix`, `CutAllRemoves`) |
| GameName.FindPrefix | lyall_assistant.py:39-44 | the prefix loop stops at the first prefix, in list order, that the lower-cased text starts with, and finds one iff `FirstPrefix` does |
| GameName.CutStopWords | lyall_assistant.py:49-52 | the stop-word loop cuts at each stop word in turn, giving `CutAll(text, StopWords)` |
| GameName.ParseGameName | lyall_assistant.py:32-54 | the prefix search, then either the stop-word cuts or the name fallback, then the final strip, compute `GameTitle` |
| GameName.CutAllIsPrefix | lyall_assistant.py:49-52 | applying the stop words keeps a prefix of the text after the prefix |
| GameName.CutAllRemoves | lyall_assistant.py:49-52 | after the sequential cuts none of the non-empty stop words occurs in the text |
| GameName.TitleAfterPrefix | lyall_assistant.py:40-54 | when a prefix matched, exactly its length is removed, the untrimmed result is a prefix of the remaining text, and the title contains none of the five stop words |
| GameName.FallbackIgnoresDescription | lyall_assistant.py:46-54 | without a matching prefix the title is the repository name with "Fix" and then "Tweak" removed, trimmed, whatever the description |
| GameName.MissingDescriptionFallsBack | lyall_assistant.py:34-47 | a `None` description gives the same title as `""`, and both use the name fallback |
| GameName.TitleWithPrefix | lyall_assistant.py:40-54 | when the `j`-th prefix is the first match, the title is the text after exactly `len(Prefixes[j])` characters, cut at the stop words and trimmed |
| GameName.CutAllAbsent | lyall_assistant.py:50-52 | stop words that do not occur in the text leave it unchanged |
| GameNameExamples.SuperGame | lyall_assistant.py:32-54 | "A fix for Super Game that adds ultrawide support." gives "Super Game": "A fix for " is stripped and " that " cuts |
| GameNameExamples.Widescreen | lyall_assistant.py:32-54 | "An ASI plugin for Widescreen Fixer, see notes." gives "Widescreen Fixer": "." cuts first, then "," |
| GameNameExamples.NameFallback | lyall_assistant.py:34-54 | repository "SuperGameFix" with an empty description gives "SuperGame" by the name fallback |
| Catalog.GetOr | lyall_assistant.py:70-75 | `repo.get(key, default)`: the default for an absent member, `None` for a JSON `null` |
| Catalog.IsFixRepo | lyall_assistant.py:69 | the name contains "Fix", "Patch" or "Tweak", case-sensitively |
| Catalog.FixListings | lyall_assistant.py:68-76 | the normalised entries of the fix repositories among the ones read, in order (properties in `FixListingsMembers` and the lemmas after it) |
| Catalog.Consumed | lyall_assistant.py:60-77 | the repositories of the pages read before the first empty page, or `None` when a request fails first |
| Catalog.RepoListing | lyall_assistant.py:56-81 | what `get_lyall_repos` returns: the fix entries of the pages consumed, or `[]` after a failure |
| Catalog.Normalize | lyall_assistant.py:70-76 | each entry keeps the repository name, its title is `GameTitle(name, description)`, and a missing `updated_at` becomes "1970-01-01" (a missing description becomes "") |
| Catalog.CollectPage | lyall_assistant.py:68-76 | the loop over one page yields the entries of its fix repositories, in page order |
| Catalog.GetLyallRepos | lyall_assistant.py:56-81 | the page loop returns `RepoListing(pages)`: the fix repositories of all pages before the first empty one, in order, or `[]` after a failed request |
| Catalog.KeepMapAppend | lyall_assistant.py:68-77 | the filtered listing of two concatenated page contents is the first page's entries followed by the second's |
| Catalog.ResumeStep | lyall_assistant.py:62-77 | one turn of the page loop: a failed request empties the result, an empty page ends it with the entries so far, any other page adds its fix entries and goes on |
| Catalog.FixListingsMembers | lyall_assistant.py:68-69 | an entry is listed iff it normalises a repository whose name contains "Fix", "Patch" or "Tweak" (case-sensitive) |
| Catalog.FixListingsLength | lyall_assistant.py:68-76 | the listing is never longer than the repositories read |
| Catalog.FixListingsAllFix | lyall_assistant.py:68-76 | when all repositories are fixes, entries correspond position by position to them |
| Catalog.FixListingsNoFix | lyall_assistant.py:68-69 | when no repository is a fix, the listing is empty |
| Catalog.ConsumedPages | lyall_assistant.py:62-77 | a non-empty page is consumed whole and followed by the next page's repositories, so the listing is page-then-position ordered |
| Catalog.StopsAtEmptyPage | lyall_assistant.py:62-66 | no page after the first empty one is read: what follows it does not change the result |
| Catalog.ErrorDiscardsAll | lyall_assistant.py:59-81 | a failed request before the first empty page discards all pages read before it and yields `[]` |
| Archive.FirstZip | lyall_assistant.py:144 | the asset used is the first whose name ends in ".zip"; `None` iff there is none |
| Archive.IsJunk | lyall_assistant.py:163 | the entry name contains "EXTRACT_TO_GAME_FOLDER" or "__MACOSX" |
| Archive.Kept | lyall_assistant.py:158-166 | the list `files_to_extract` built by the loop (properties in `KeptIsFilter`) |
| Archive.Dlls | lyall_assistant.py:170 | the recorded entries ending in ".dll", in order (properties in `DllsMembers`) |
| Archive.KeptIsFilter | lyall_assistant.py:158-166 | the extracted and recorded entries are exactly the entries containing neither "EXTRACT_TO_GAME_FOLDER" nor "__MACOSX", as a subsequence of the archive's names |
| Archive.KeptSnoc | lyall_assistant.py:161-165 | each archive entry is appended to the list unless it is junk |
| Archive.KeptPrefix | lyall_assistant.py:161-166 | the list built from the first entries is a prefix of the full list, so an interrupted loop has extracted a prefix of it |
| Archive.KeptBefore | lyall_assistant.py:161-166 | when the loop stops at a kept entry, the entries kept before it are a proper prefix of the full kept list |
| Archive.DllsMembers | lyall_assistant.py:170 | the DLL list holds exactly the recorded entries ending in ".dll" |
| Archive.OverrideHint | lyall_assistant.py:170-180 | the hint matches entry names exactly, in priority winmm, dinput8, dsound, version, and is "" iff none of the four is present |
| Lifecycle.Folder | lyall_assistant.py:226 | the game folder itself, whose presence on disk is `os.path.exists(path)` |
| Lifecycle.Removes | lyall_assistant.py:207-211 | a path uninstall deletes: listed in the record, under its folder, existing, not a directory, and removable |
| Lifecycle.RemoveOwned | lyall_assistant.py:207-211 | the disk after the file loop of uninstall: exactly the paths it removes are gone, every other path keeps its node |
| Lifecycle.UninstallEffect | lyall_assistant.py:200-216 | `uninstall_fix` on the world (properties in `UninstallEffects`, `UninstallAbsentIsNoop`) |
| Lifecycle.NodeFor | lyall_assistant.py:166 | what `z.extract` creates for an entry: a directory for a name ending in "/", otherwise a file |
| Lifecycle.Extract | lyall_assistant.py:161-166 | the disk after extracting the given entries into the game folder, in order (properties in `ExtractFacts`) |
| Lifecycle.InstallEffect | lyall_assistant.py:119-198 | `install_update_fix` on the world: the early exits, the quiet pre-uninstall, the extraction and the record write (properties in `LifecycleFacts`) |
| Lifecycle.Snapshot | lyall_assistant.py:225 | `list(state.items())` in the dictionary's iteration order |
| Lifecycle.CheckEntry | lyall_assistant.py:226-230 | one turn of `check_installed_updates`: re-install at the recorded path and game name, or skip when the folder is missing |
| Lifecycle.CheckAllEffect | lyall_assistant.py:218-231 | `check_installed_updates` over a snapshot, entry by entry (properties in `CheckAllKeepsRecords` and the lemmas after it) |
| Lifecycle.ExtractFacts | lyall_assistant.py:161-166 | extraction adds exactly the paths of the extracted entries, each as a file or (for a name ending in "/") a directory, and keeps every other path's node |
| Lifecycle.Assistant.constructor | lyall_assistant.py:234 | the loaded state is both the in-memory state and the saved file |
| Lifecycle.Assistant.UninstallFix | lyall_assistant.py:200-216 | the file loop removes the listed regular files that exist and can be removed; unless quiet, the key is deleted and the state saved |
| Lifecycle.Assistant.ExtractEntries | lyall_assistant.py:158-166 | the extraction loop writes the kept entries in order into the game folder, stops at a failing extract, and never touches the state |
| Lifecycle.Assistant.InstallUpdateFix | lyall_assistant.py:119-198 | the new state, disk, saved file and outcome are the ones `InstallEffect` gives |
| Lifecycle.Assistant.CheckOne | lyall_assistant.py:226-230 | one loop turn re-installs the entry at its recorded path and game name, or skips it when the folder is missing, as `CheckEntry` gives |
| Lifecycle.Assistant.CheckInstalledUpdates | lyall_assistant.py:218-231 | iterating a snapshot of the state gives the effect and reports of `CheckAllEffect` |
| LifecycleFacts.EarlyExits | lyall_assistant.py:121-148 | a missing release, an API error, up-to-date (same tag AND same path) and no zip asset are each recognised in that order and change nothing |
| LifecycleFacts.NoZipKeepsOldInstall | lyall_assistant.py:144-151 | the no-zip check precedes the pre-uninstall, so an installed fix keeps its files and record |
| LifecycleFacts.InstallOutcomes | lyall_assistant.py:121-195 | an install succeeds iff the release passes the four early exits and the whole archive extracts; it fails iff it passes them and the download or an extraction raises; otherwise it is one of the early exits |
| LifecycleFacts.SuccessfulInstall | lyall_assistant.py:182-188 | when the release passes the early exits and the archive extracts, the call succeeds and `state[repo]` becomes `{game_name, path, latest tag, kept entries}`, the state is saved, every other key is unchanged, and the hint is computed from the kept entries |
| LifecycleFacts.InstalledFilesOnDisk | lyall_assistant.py:161-186 | after a successful install every recorded entry exists under the game folder, with its node kind |
| LifecycleFacts.InstallIsIdempotent | lyall_assistant.py:137-140 | a second call with the same path and unchanged release hits the up-to-date branch and changes nothing |
| LifecycleFacts.InstallDisk | lyall_assistant.py:121-166 | the disk after an install call: unchanged on an early exit, otherwise the quiet uninstall followed by the entries actually extracted |
| LifecycleFacts.InstallFrame | lyall_assistant.py:150-187 | an install changes no path except the entries it extracts, and removes only removable listed files of the old record |
| LifecycleFacts.UpdateReplaces | lyall_assistant.py:150-166 | after an update attempt no removable file of the old record survives unless the new archive wrote the same path |
| LifecycleFacts.FailedInstallKeepsRecord | lyall_assistant.py:150-195 | a failed download or extraction keeps the old record and saved file, and the entries already extracted are not rolled back |
| LifecycleFacts.UninstallAbsentIsNoop | lyall_assistant.py:200-202 | uninstalling a repository without a record changes nothing |
| LifecycleFacts.UninstallEffects | lyall_assistant.py:203-216 | uninstall deletes exactly the listed, existing, non-directory, removable paths; unlisted paths are untouched; non-quiet drops the key and saves, quiet leaves state and file unchanged |
| LifecycleFacts.InstallStateOnly | lyall_assistant.py:182-187 | one install call changes at most `state[repo]`, to a record with the requested path and game name |
| LifecycleFacts.SnapshotIsSnapshotOf | lyall_assistant.py:225 | the snapshot `CheckInstalledUpdates` iterates lists each key of the state once, with its current record, as the check-all lemmas assume |
| LifecycleFacts.CheckEntryKeeps | lyall_assistant.py:226-228 | one check-all entry keeps its key, path and game name, touches no other record, and changes its record only on a successful re-install |
| LifecycleFacts.CheckAllKeepsRecords | lyall_assistant.py:225-228 | check-all keeps the set of keys and every record's path and game name, and a record changes only if its entry was re-installed |
| LifecycleFacts.CheckAllLeavesOthers | lyall_assistant.py:225-228 | a key that is not in the snapshot is not touched by check-all |
| LifecycleFacts.CheckAllMissingFolders | lyall_assistant.py:220-230 | when every game folder is missing, every entry is reported skipped and nothing changes |
| LifecycleFacts.CheckAllSkipsMissing | lyall_assistant.py:226-230 | an entry whose folder is missing is skipped without any effect |
| LifecycleFacts.StaleRecordAfterFailedMove | lyall_assistant.py:137-151 | moving a fix to a new folder whose download fails deletes the old files, keeps the old record, and the next check of the old folder reports up to date |

## Left out

- HTTP (`requests`), JSON parsing and zip byte parsing: releases, pages and
  archives are input values.
- Interactive prompts, `print` and the `interactive` flag: they have no effect
  on state.
- The `main` menu loop, choice parsing and the two sort orders. The
  alphabetical sort uses Python's Unicode `.lower()`.
- `get_installed_games`, which parses Steam library manifests. It is platform
  I/O, and its result only supplies a path to install into.
- `load_json`/`save_json` as file I/O. Loading is the constructor's argument,
  and saving is the `saved` snapshot. A failing `save_json` is not modelled.
- Python's Unicode `lower()` and `strip()`. The model uses ASCII lower-casing
  and the ASCII whitespace set of `str.isspace()`.
- `os.path.join` normalisation, and absolute or `..` entry names. A path is the
  pair of folder and entry.
- The contents of extracted files. The model records only whether a file or a
  directory exists.
- The parent directories that `z.extract` creates implicitly. The way a
  particular extract fails is folded into `failAt`.
- `InstallDisk` and `Assistant.ExtractEntries`: do not model what a failing
  `z.extract` call leaves at its own entry's path. Such a call opens its target
  before copying, so it can leave a truncated file, or the entry's directory,
  there; the model's disk after the failure, `Extract(..., kept[..k])`, leaves
  that path out. `InstallFrame` and `UpdateReplaces` are not affected, because
  `Written` includes that entry.
- Exceptions the source does not catch, such as a release without `tag_name`
  or a record without `path`. Records and releases have a fixed shape.
- A dictionary record that is empty, and so falsy. Records always carry their
  four fields.
