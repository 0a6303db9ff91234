# Hoppercloud update channel, modelled in Dafny

Hoppercloud is a game launcher that keeps a player's game directory in step
with a modpack published on a git host. This project models the four pieces
that make up that update channel.

- **`GameUpdater`** (utils/GameUpdater.js) works on the player's side. It
  fetches `manifest.json` and removes mods the manifest no longer declares
  (unless an `.admin` marker is present). It then downloads every declared
  file in chunks of five; preserved user files and files whose SHA-1 already
  matches are skipped. After that it installs a self-contained loader
  descriptor `versions/<id>/<id>.json`, built by merging the loader profile
  with the base game profile. Last, it saves the manifest as
  `client-manifest.json`. `compareVersions` orders dotted version strings.
- **`generate_manifest.js`** works on the publisher's side. It checks the
  builder configuration and derives the base URL, the composite game version
  `fabric-loader-<L>-<G>` and the dated manifest version. It then walks
  `update_files/` for every non-hidden file and writes `manifest.json`.
- **`validateConfig`** (utils/config-validator.js) reports missing fields
  first, then fields that are not strings.
- **`cleanupGameFiles`** (utils/cleanup.js) deletes logs, crash reports and
  caches below the game root. It counts what it deletes and stops at the
  first failure.

The file system is a value: `FileTree.Tree`, a map from paths (sequences of
names) to nodes. A directory node keeps its listing in `readdir` order.
`WellFormed` says four things:
- the root is a directory;
- every other path's parent is a directory that lists it;
- listings hold no duplicates;
- listings name only present paths.

The class `FileTree.Disk` holds the tree, the set of paths whose removal
the system refuses, and a ghost log of the operations performed. The
procedures that change the disk step by step are methods:
- `GameUpdater`'s methods;
- `ScanDirectory` and `GenerateManifest`;
- `CleanupGameFiles` and its loops.

Each of these methods is proved to leave the disk in the state a
specification function computes. The properties are lemmas about those
functions.

These are parameters:
- the network: a function from URL to response;
- SHA-1, the file size, the clock and the current git branch.

Modules follow the source:
- `Versions`: `compareVersions`.
- `Descriptor`: the descriptor merge of `patchFabric`.
- `Updater`: the rest of `GameUpdater`.
- `ManifestGenerator`, `ConfigValidator`, `Cleanup`: the other three scripts.
- `FileTree`: the file system.
- `Documents`: the JSON documents exchanged.
- `Js`: JavaScript values, truthiness and `typeof`.
- `Strings`: `split`, `join`, `replace`.
- `Wrappers`: `Option` and `Result`.

Behaviour of the code worth noting (the model follows it except where "Left out" says otherwise):
- A non-404 transfer error is not retried. The task throws, `Promise.all`
  rejects at once and `downloadFiles` throws; the other tasks of that chunk
  keep running unawaited, and no later chunk starts.
- The write stream is opened before the request. A 404, or any failed
  transfer, therefore leaves a truncated empty file under the destination's
  own name.
- The mod pruning does not consult the preservation list. Only the manifest's
  `mods/` basenames and the `.admin` marker protect a file in `mods`.
- The updater manages the manifest's files only: there are no nested content
  bundles and no archive installation.
- The loader descriptor is written under the updater's own game root, not
  under the target directory of the sync.

## Model

| member | source | states |
|---|---|---|
| Versions.CompareVersions | utils/GameUpdater.js:17-28 | the loop over `max(len1, len2)` components returns the order `CompareVersionStrings` defines on the two strings |
| Versions.FirstDifferenceDecides | utils/GameUpdater.js:21-27 | the result is 0 exactly when every component (missing ones read as 0) agrees; it is 1 or -1 exactly when the first differing component of the first or the second version is the greater |
| Versions.OrderFromDecided | utils/GameUpdater.js:21-27 | from any component index on, the three answers 0, 1 and -1 correspond exactly to "same from here", "first difference greater in p" and "first difference greater in q" |
| Versions.VersionOrderAntisymmetric | utils/GameUpdater.js:17-28 | swapping the two versions negates the result |
| Versions.TrailingZeroIgnored | utils/GameUpdater.js:22-23 | appending a zero component never changes the comparison (`1.0` equals `1.0.0`) |
| Versions.ComponentsOfDigits | utils/GameUpdater.js:18-19 | `split('.').map(Number)` of a version of three one-digit components yields their three values |
| Versions.UnitTestGreater | tests/updater.test.js:7-10 | `1.0.1` > `1.0.0` and `2.0.0` > `1.9.9` give 1 |
| Versions.UnitTestLess | tests/updater.test.js:12-15 | `1.0.0` < `1.0.1` and `0.9.9` < `1.0.0` give -1 |
| Versions.UnitTestEqual | tests/updater.test.js:17-19 | `1.0.0` against itself gives 0 |
| Versions.UnitTestDifferentLengths | tests/updater.test.js:21-24 | `1.0` equals `1.0.0`, and `1.0.1` is later than `1.0` |
| Updater.ModNamesMembership | utils/GameUpdater.js:130-132 | a name is in the kept list exactly when some manifest entry under `mods/` has it as basename |
| Updater.PruneListingEffect | utils/GameUpdater.js:134-139 | the removal loop keeps the tree well formed and `mods` a directory, only removes paths, keeps every path not inside an undeclared entry, and when it completes every undeclared entry is gone |
| Updater.PruneEffect | utils/GameUpdater.js:120-141 | with `.admin` nothing changes; otherwise nothing outside `mods` and no declared mod changes, and on completion the `mods` listing is exactly its old names that the manifest declares |
| Updater.TaskDecision | utils/GameUpdater.js:147-221 | a task keeps an existing preserved file, skips a file whose declared SHA-1 matches, otherwise transfers; a written body is the fetched one (with whether its digest matches); a 404 leaves an empty file |
| Updater.TaskFrame | utils/GameUpdater.js:147-221 | a task keeps the tree well formed, removes nothing, changes no file other than its destination, and unless it throws leaves the destination present |
| Updater.ChunksPartition | utils/GameUpdater.js:223-224 | the chunks, concatenated, are the file list; each holds 1 to `k` entries and all but the last exactly `k` |
| Updater.DownloadAllSequential | utils/GameUpdater.js:223-226 | the chunked run fails exactly when running every task in order records a failure, and when neither fails the two end in the same state |
| Updater.DownloadAllTally | utils/GameUpdater.js:143-227 | in a run without failure the progress counter equals the number of entries minus those answered with a 404 |
| Updater.DownloadAllCount | utils/GameUpdater.js:143-227 | the progress counter never exceeds the number of entries |
| Updater.DownloadAllFrame | utils/GameUpdater.js:152-157 | a file on which only preserved-name entries land (or none) is never overwritten by a run |
| Updater.DownloadAllPresent | utils/GameUpdater.js:143-227 | a run removes nothing, and a run without failure leaves every entry's destination present |
| Updater.DownloadAllConverged | utils/GameUpdater.js:172-182 | a run over a directory already in sync changes nothing, does not fail, and counts every entry |
| Updater.FindVersionFirst | utils/GameUpdater.js:258 | `find` answers the first index entry with the id, and nothing exactly when no entry has it |
| Updater.FetchProfilesOutcome | utils/GameUpdater.js:251-263 | each of the three requests fails with its own error; the base game profile is the one the first index entry with the game version points to; "not found" exactly when no entry has that id |
| Updater.PatchGuards | utils/GameUpdater.js:235-246 | a non-string id is refused and a short id (fewer than three dashes) is refused, both before any change; an installed descriptor is never rewritten |
| Updater.PatchFrame | utils/GameUpdater.js:229-327 | patching keeps the tree well formed, removes nothing, and changes no file but the descriptor it installs |
| Updater.PatchInstalled | utils/GameUpdater.js:246-320 | a fresh install writes the descriptor merged from the two fetched profiles, after which patching again answers "already installed" and changes nothing |
| Updater.PatchSucceededPresent | utils/GameUpdater.js:246-326 | whenever patching succeeds the descriptor exists |
| Updater.PatchDescriptor | utils/GameUpdater.js:265-318 | pushing the missing base game libraries, merging the arguments, copying the assets and filling in artifacts one library at a time produces `PatchedProfile` |
| Updater.SyncEarlyExits | utils/GameUpdater.js:46-91 | an unreachable manifest skips the update; a body that is not a manifest, or lacks a truthy `gameVersion` or `files`, aborts as invalid; a `files` that is not an array does nothing; each leaves only the target directory created |
| Updater.ApplyManifestPhases | utils/GameUpdater.js:91-110 | a failed pruning is only a warning (only its tree matters); the sync aborts with a download failure exactly when the download run fails, with a patch failure exactly when the download succeeded and patching failed, and is an update exactly when both succeeded |
| Updater.SyncFrame | utils/GameUpdater.js:46-118 | whatever the network answers, the tree stays well formed and a file the manifest gives the sync no business with is unchanged |
| Updater.ApplyManifestFrame | utils/GameUpdater.js:91-117 | the phases after validation keep the tree well formed and leave such a file unchanged |
| Updater.ApplyManifestComplete | utils/GameUpdater.js:91-117 | after an update every entry is at its destination, the descriptor is installed, and a saved snapshot holds the manifest |
| Updater.SyncUpdatedComplete | utils/GameUpdater.js:46-118 | an update implies a fetched manifest with a file list and a string game version, every entry present at its destination, the descriptor installed, and a saved snapshot equal to the manifest |
| Updater.GameUpdater.constructor | utils/GameUpdater.js:10-15 | the updater starts with its game root, a chunk size of 5 and the four preserved settings files |
| Updater.GameUpdater.CleanupOldMods | utils/GameUpdater.js:120-141 | the disk ends as `Prune` says, and every removal logged is inside `mods` |
| Updater.GameUpdater.DownloadFile | utils/GameUpdater.js:147-221 | one task leaves the disk and reports the outcome `DownloadTask` gives |
| Updater.GameUpdater.TransferFile | utils/GameUpdater.js:184-220 | the transfer leaves the disk and reports the outcome `Transfer` gives |
| Updater.GameUpdater.DownloadChunk | utils/GameUpdater.js:224-225 | every task of the chunk runs even after one throws, as `RunChunk` says, and the progress values go `1, 2, ...` |
| Updater.GameUpdater.DownloadFiles | utils/GameUpdater.js:143-227 | the disk, the failure flag and the counter end as `DownloadAll` says; the counter is at most the number of entries and the progress events carry `1 .. processed` |
| Updater.GameUpdater.PatchFabric | utils/GameUpdater.js:229-327 | the disk and the outcome are those of `PatchSpec` |
| Updater.GameUpdater.CheckAndDownloadUpdates | utils/GameUpdater.js:46-118 | the disk and the outcome are those of `Sync` into the given or default directory; a saved snapshot is the last write; the early exits only create directories |
| Descriptor.ParseRejectsShortIds | utils/GameUpdater.js:235-244 | a composite id is rejected exactly when it holds fewer than three dashes |
| Descriptor.ParseThenRebuild | utils/GameUpdater.js:235-240 | rebuilding `fabric-loader-<loader>-<game>` from a parsed id gives the id back |
| Descriptor.LibKeyOfCoordinate | utils/GameUpdater.js:265-268 | the key of `g:a:v` is `g:a` |
| Descriptor.AppendedCounts | utils/GameUpdater.js:267-272 | each base game library is pushed as often as it occurs when its key is new to the loader, and never otherwise |
| Descriptor.MergedLibrariesShape | utils/GameUpdater.js:265-272 | the loader's libraries come first and unchanged, followed by exactly the base game libraries whose key the loader lacks |
| Descriptor.MergeExample | utils/GameUpdater.js:265-272 | a base game library that shares a key with a loader library is dropped, and one with a new key is appended |
| Descriptor.ArgumentsExample | utils/GameUpdater.js:275-278 | base `[x, y]` and loader `[z]` give `[x, y, z]` |
| Descriptor.PatchedArguments | utils/GameUpdater.js:274-283 | the written descriptor always has `arguments`; with base game arguments each list is the base game's entries followed by the loader's, and without them the loader's arguments (or `{}`) are kept |
| Descriptor.ArtifactPathLayout | utils/GameUpdater.js:296-299 | the synthesised path is the group's dotted parts, then the artifact, the version and `<artifact>-<version>.jar` |
| Descriptor.FixLibraryEffect | utils/GameUpdater.js:289-316 | the fix keeps name and URL, always leaves a `downloads` object, keeps an existing artifact, skips names of fewer than three parts, and otherwise adds the artifact with its path, URL and size 0 |
| Descriptor.FixLibraryIdempotent | utils/GameUpdater.js:289-316 | fixing a fixed library changes nothing |
| Descriptor.PatchedArtifact | utils/GameUpdater.js:289-316 | library `i` of the written descriptor is library `i` of the merge: an existing artifact is kept; a full coordinate gets the Maven path with size 0, fetched from the library's own URL, else `maven.fabricmc.net` for `fabricmc`/`ow2`/`jetbrains` groups, else `libraries.minecraft.net` |
| Descriptor.PatchedProfileSelfContained | utils/GameUpdater.js:254-318 | the descriptor carries the id, no `inheritsFrom`, the base game's assets and downloads, the loader's main class, the merged libraries, and an artifact for every library with a full coordinate |
| ConfigValidator.MissingAmongExact | utils/config-validator.js:12 | the missing list holds exactly the falsy required fields |
| ConfigValidator.NonStringAmongExact | utils/config-validator.js:22 | the type report holds exactly the fields whose `typeof` is not `string`, each with that type |
| ConfigValidator.MissingReportedFirst | utils/config-validator.js:12-18 | validation reports missing fields exactly when some field is falsy, and then names exactly those |
| ConfigValidator.NoneMissing | utils/config-validator.js:12-14 | nothing is missing exactly when every field is truthy |
| ConfigValidator.TypeOfString | utils/config-validator.js:22 | `typeof v` is `string` exactly for strings |
| ConfigValidator.TypesReportedSecond | utils/config-validator.js:20-28 | a type report comes only when all fields are truthy, and names exactly the non-string fields with their types |
| ConfigValidator.NothingToReport | utils/config-validator.js:12-24 | both lists are empty exactly when every field is a non-empty string |
| ConfigValidator.ValidIff | utils/config-validator.js:3-31 | validation passes exactly when all five fields are non-empty strings |
| ManifestGenerator.ScanDirectory | generate_manifest.js:41-66 | the walk appends to the given list the entries `ScanDir` defines |
| ManifestGenerator.ScanDirSound | generate_manifest.js:41-66 | every entry describes a non-hidden file below the walked directory, with its relative path, URL, digest and size |
| ManifestGenerator.ScanNamesSound | generate_manifest.js:44-63 | every entry the listing loop produces describes such a file |
| ManifestGenerator.ContributionSound | generate_manifest.js:45-62 | what one listed name adds describes such a file |
| ManifestGenerator.ScanNamesIncludes | generate_manifest.js:44-63 | what any listed name adds appears in the listing's result |
| ManifestGenerator.ScanDirComplete | generate_manifest.js:41-66 | in a well-formed tree every non-hidden file below the walked directory gets its entry |
| ManifestGenerator.EntryDestination | generate_manifest.js:51 | the relative path of a published file, joined under the client's target directory, is the file's own position below the target |
| ManifestGenerator.PublishedCopyIsCurrent | generate_manifest.js:56-61 | a client holding a published file's bytes at that destination keeps its copy without transfer |
| ManifestGenerator.CompositeIdRoundTrip | generate_manifest.js:31 | `fabric-loader-<L>-<G>` with a dash-free `L` parses back into `L` and `G` |
| ManifestGenerator.DashedParse | utils/GameUpdater.js:235-240 | any two dash-free leading tokens give way to the loader token and the rejoined rest |
| ManifestGenerator.GameVersionParses | generate_manifest.js:31 | the published game version names the configured loader and game versions when the loader version has no dash |
| ManifestGenerator.ManifestVersionOfIso | generate_manifest.js:32 | `YYYY-MM-DDT...` becomes `YYYY.MM.DD` |
| ManifestGenerator.GenerateRejectsMissing | generate_manifest.js:10-16 | the script stops with a missing-fields error exactly when some required field is falsy, naming exactly those fields; no error writes anything |
| ManifestGenerator.GenerateWrites | generate_manifest.js:75-87 | a run that succeeds adds or replaces only `manifest.json`, which holds the manifest carrying the composite game version, launcher version `1.1.1` and the walk's entries |
| ManifestGenerator.PublishedManifestApplied | generate_manifest.js:79-85 | a manifest the script publishes passes the updater's validation, so the updater proceeds to pruning and downloads |
| ManifestGenerator.GenerateManifest | generate_manifest.js:10-87 | the disk and the result are those of `Generate`, and only a success logs a write of `manifest.json` |
| Cleanup.CompressedLogsSelected | utils/cleanup.js:14 | the first `logs` target selects exactly the names ending in `.log.gz` |
| Cleanup.LatestLogIsSuffixMatch | utils/cleanup.js:15 | the second `logs` target selects exactly the names ending in `latest.log` |
| Cleanup.PrefixedLatestLogSelected | utils/cleanup.js:46 | any name ending in `latest.log` is selected, such as `notlatest.log` |
| Cleanup.RemoveListedWellFormed | utils/cleanup.js:44-53 | filtering a listing keeps the tree well formed |
| Cleanup.RemoveListedFrame | utils/cleanup.js:44-53 | filtering only removes paths inside selected entries, keeps the directory, and never lowers the count |
| Cleanup.RemoveListedOutcome | utils/cleanup.js:44-53 | filtering succeeds exactly when no selected entry is refused, and on success counts exactly the selected names |
| Cleanup.RemoveListedClears | utils/cleanup.js:44-53 | after a successful filter no selected entry of the listing is left |
| Cleanup.SweepTargetWellFormed | utils/cleanup.js:27-67 | one target keeps the tree well formed |
| Cleanup.SweepTargetFrame | utils/cleanup.js:27-67 | one target only removes paths below its own path, never lowers the count, and keeps a filtered directory |
| Cleanup.SweepTargetOutcome | utils/cleanup.js:27-67 | a missing target is skipped; a whole-path target succeeds exactly when its removal is allowed and counts 1; a glob target succeeds exactly when it is a directory whose selected entries may all be removed, and counts them |
| Cleanup.SweepTargetClears | utils/cleanup.js:27-67 | a successful target leaves nothing it selects |
| Cleanup.CrashReportsEmptied | utils/cleanup.js:16 | a successful `crash-reports` target keeps the directory and empties it |
| Cleanup.SweepAllWellFormed | utils/cleanup.js:26-68 | the targets in order keep the tree well formed |
| Cleanup.SweepAllFrame | utils/cleanup.js:26-68 | the targets in order only remove paths, and a file below none of the target paths is untouched |
| Cleanup.SweepAllClears | utils/cleanup.js:26-68 | a successful run leaves every target cleared |
| Cleanup.SweepAllEffect | utils/cleanup.js:26-68 | the run keeps the tree well formed, only removes paths, leaves files outside the targets alone, and on success clears every target |
| Cleanup.MissingRootCleared | utils/cleanup.js:24 | below a missing game root every target is already cleared |
| Cleanup.CleanupEffect | utils/cleanup.js:9-77 | a missing root gives success with 0 deletions and no change; otherwise files outside the seven targets are untouched, nothing is added, and success leaves every target cleared |
| Cleanup.RemoveEntry | utils/cleanup.js:45-52 | one listed name is stat-ed and removed when selected, as `StepListed` says, logging exactly that removal |
| Cleanup.RemoveMatching | utils/cleanup.js:44-53 | the inner loop ends as `RemoveListed` says, logging one removal per deletion counted |
| Cleanup.SweepOne | utils/cleanup.js:27-67 | one target ends as `SweepTarget` says, logging one removal per deletion counted |
| Cleanup.SweepList | utils/cleanup.js:26-68 | the outer loop ends as `SweepAll` says over the given targets, logging one removal per deletion counted |
| Cleanup.CleanupGameFiles | utils/cleanup.js:9-77 | `success` and `filesDeleted` and the disk are those of `CleanupSpec`, with exactly `filesDeleted` removals logged |
| FileTree.Disk.Remove | utils/cleanup.js:39 | `fs.remove`, taken as all-or-nothing: it succeeds exactly when no present path at or below the target is refused, and then removes the whole subtree; a refusal leaves the tree unchanged |
| FileTree.Disk.EnsureDir | utils/GameUpdater.js:48 | `fs.ensureDir` creates the missing ancestors and the directory, and fails where a file is in the way |
| FileTree.Disk.WriteFile | utils/GameUpdater.js:113 | writing a file creates or replaces it when its parent is a directory and it is not itself one, and fails otherwise |

## Left out

- Network transfer, streams and `axios`: a response is a value given by a `Remote` function from URL to `Fetched(body)`, `NotFound` or `Failed`. The `?t=` cache-buster is a parameter `now`. `encodeURI` is treated as the identity.
- `calculateHash` and `getFileHash`: SHA-1 is an uninterpreted function parameter, and so is `stat.size`. A read error while hashing is not modelled.
- Concurrency inside a chunk: the tasks of a `Promise.all` chunk run one after another in list order, and all of them run. In the source a thrown task makes `Promise.all` reject at once and `downloadFiles` throw while the chunk's other tasks go on unawaited; the model's final tree agrees with the one left once they settle, because no later phase runs after the throw. The events emitted before the throw and their order are not modelled.
- DownloadAll: two entries with the same destination (the same `path` twice, or two paths that resolve to one file) race in the source; the model applies them one after another in list order, each task seeing the tree the earlier one left. The model does not require destinations to be distinct.
- Developer mode (`app.isPackaged` false): the local copy from `update_files/` and the `manifestUrl === 'local'` branch are not modelled. The model is the packaged application.
- Log lines, warnings and `EventEmitter` events: the model keeps only the progress count and the sequence of `current` values it carries.
- JSON serialisation: documents are held as parsed values, so `JSON.stringify` and `writeJson` formatting are not modelled. The type check on `manifest.files` is modelled as `FilesList` versus a truthy non-array.
- The freed-space figure of `cleanupGameFiles`: `stat.size`, the megabyte division and `toFixed(2)` are floating point and are left out.
- `fs.stat` failing on an entry that vanished between `readdir` and `stat` is modelled as a missing path. Symbolic links and permissions other than "removal refused" are not modelled.
- `Number()` on version components: only all-digit components are read as their decimal value; every other component reads as 0. Signs, decimals, exponents, hex and whitespace, which JavaScript's `Number` also accepts, are not modelled.
- `getCurrentBranch` (utils/git-check.js) and `new Date()` are parameters of the manifest generator. `process.exit` becomes an error result.
- A `readdir` or `remove` that throws for reasons other than a refused path (I/O errors) is not modelled.
- `fileList` is threaded by value through `scanDirectory`; the shared mutable array is not modelled.
- The electron `app` object and `GAME_ROOT` (utils/constants.js) are not part of this model; the game root is a constructor parameter.
- Remove (FileTree.Disk.Remove, with FileTree.Blocked): removal is all-or-nothing. A refused path anywhere below the target leaves the whole subtree in place, while the recursive `fs.remove` (utils/GameUpdater.js:137; utils/cleanup.js:39, 50, 58, 65) deletes whatever it reached before the refusal. The trees that `Prune`, `RemoveListed`, `SweepTarget` and `CleanupSpec` leave after a failure are therefore idealised; their success paths and their outcome flags and counts are as in the source.
- JoinPath, Basename: paths are split on `/` only. On Windows, which the launcher targets, `path.join` and `path.basename` also split on `\`, so a manifest path written with backslashes resolves differently there.
- Js.JsValue: JSON numbers are integers (`Number(n: int)`). A fractional configuration value such as `gameVersion: 1.21`, which a template literal would render as `1.21`, cannot be represented.
- DecimalValue: a version component is read exactly, while `Number()` rounds values above 2^53, so two very long components that JavaScript reads as equal compare as different here.
