# titaniumlib core, modelled in Dafny

titaniumlib finds, installs and removes Titanium SDKs and reads Titanium module
directories. This project models:

- the SDK installer of `src/sdk/index.js`:
  - the CI build and GA release catalogs;
  - classification of the `uri` parameter and its resolution to a download URL;
  - extraction of the SDK zip into a temporary directory;
  - moving the SDK and its bundled module versions into the install location;
  - cleanup;
  - `uninstall`;
- the helpers of `src/util.js`: `os`, `extractZip`, `TaskTracker` and the
  `version` helpers;
- the two module readers, `src/module/titanium-module.js` and the older
  `src/module.js`;
- the install locations of `src/locations.js`.

The model has three layers:

- **Specification functions.** Pure logic is a function. Regular expressions
  are written out as the functions that match them.
- **Imperative code.** Loops and object state are methods and classes:
  - `Disk.FileSystem` holds the file tree;
  - `Tasks.TaskTracker` holds the tracker's fields and the events its callback
    has received;
  - each `TitaniumModule` class holds the object's own properties, as an
    insertion-ordered dictionary.

  Each method is proved against its specification function.
- **Lemmas.** They state what the source promises about the specification
  functions.

Modules, one per file:

- `Base`: argument kinds, errors and their messages.
- `Text`: JavaScript string built-ins.
- `Paths`: path components.
- `Dict`: a JavaScript object as an ordered map.
- `Sorting`: `Array.prototype.sort` with a consistent comparator.
- `Version`.
- `Tasks`.
- `Disk`.
- `Extract`.
- `Catalog`.
- `Resolve`.
- `Install`.
- `Uninstall`.
- `Locations`.
- `Manifest`: the manifest parser shared by both readers.
- `ModuleReader`: `src/module/titanium-module.js`.
- `LegacyModuleReader`: `src/module.js`.

## Model

| member | source | states |
|---|---|---|
| Install.OsName | src/util.js:24 | `darwin` is reported as `osx`; every other platform is reported unchanged, so the result is never `darwin` |
| Extract.Mode | src/util.js:97 | an entry's file mode is `externalFileAttributes >>> 16`, a 16-bit value |
| Extract.ModeIsUpperHalf | src/util.js:97 | for 32-bit attributes, the mode and the low half rebuild the attributes exactly |
| Extract.ApplyEntry | src/util.js:85-104 | a name ending in `/` creates its directory with all its parents and never fails; any other name creates its parent directories and a file with the entry's mode; existing directories stay, and no other file appears |
| Extract.ApplyEntryWellFormed | src/util.js:85-104 | creating one entry keeps every file and directory inside an existing directory |
| Extract.ValidationOrder | src/util.js:36-63 | the checks run in the source's order: params object, destination, zip file name, existence, regular file, readable archive; a failed check leaves the tree as it was and calls no callback |
| Extract.ExtractCalls | src/util.js:66-83 | the callback is called once per entry, with the entry name, its 1-based index and the entry count, in entry order, up to the first failure |
| Extract.ThrowStopsBeforeEntry | src/util.js:78-82 | a callback that throws on the first entry rejects before that entry is written |
| Extract.ExtractWellFormed | src/util.js:66-105 | the whole extraction keeps the tree well-formed |
| Extract.ExtractSpecWellFormed | src/util.js:35-110 | `extractZip` keeps the tree well-formed, on every path through it |
| Extract.ExtractEntries | src/util.js:66-107 | the entry loop on the file system ends with the result, tree and callback calls of the specification |
| Extract.ExtractZip | src/util.js:35-110 | `extractZip` on the file system ends with the result, tree and callback calls of the specification |
| Tasks.TaskTracker.constructor | src/util.js:130-138 | the task count is stored, the current task is 1, progress is 0 and nothing has been sent |
| Tasks.TaskTracker.Create | src/util.js:131-137 | a truthy argument that is not a function is a TypeError; a falsy one or a function gives a fresh tracker that has sent nothing |
| Tasks.TaskTracker.StartTask | src/util.js:140-147 | the task count goes out once, before the first start; then a start event for the current task; the tracker invariant is kept |
| Tasks.TaskTracker.Progress | src/util.js:149-155 | progress is recorded and reported exactly when it is forced or rises by more than 0.01; otherwise nothing changes |
| Tasks.TaskTracker.EndTask | src/util.js:157-164 | an unfinished task first reports progress 1; then the end event; then the next task starts at progress 0 |
| Tasks.CompletedMeans | src/util.js:149-164 | a task counts as completed exactly when progress of at least 1 was reported for it |
| Tasks.ProgressCompletes | src/util.js:149-155 | a progress report of at least 1 completes the task |
| Tasks.EndPreserves | src/util.js:157-164 | ending a completed task keeps the invariant: the count comes first, ended tasks get no later events, and every end follows completion |
| Tasks.StartPreserves | src/util.js:140-147 | a start after the count keeps the tracker invariant |
| Tasks.ProgressPreserves | src/util.js:149-155 | a progress event for the current task keeps the tracker invariant |
| Tasks.CountPreserves | src/util.js:141-144 | sending the count first keeps the tracker invariant |
| Version.Format | src/util.js:173-188 | the loop that pads with `0` and slices computes `FormatSpec` |
| Version.FormatPadsAndTruncates | src/util.js:174-187 | the result has at least `min` and at most `max` components; they are the input's components, then zeros |
| Version.FormatThree | src/util.js:190-193 | normalising to three components keeps the first three and pads a shorter version with zeros |
| Version.RCompareMeaning | src/util.js:189-197 | `rcompare` fails exactly when a version is not valid; otherwise it is 0 for equal versions, 1 when the first is lower and -1 when it is higher |
| Version.RCompareAntisymmetric | src/util.js:195-197 | swapping the arguments negates the result, and a valid version compares equal to itself |
| Version.MissingComponentIsZero | src/util.js:190 | a missing component counts as 0, so `7.1` equals `7.1.0` |
| Version.ExtraComponentIgnored | src/util.js:190-193 | components after the third are ignored |
| Version.VersionOrder | src/util.js:195-197 | the order `rcompare` induces on valid versions is total and transitive, so sorting by it is well defined |
| Sorting.Sort | src/sdk/index.js:285-288 | sorting is a permutation of its input |
| Sorting.SortSorted | src/sdk/index.js:285-288 | with a total, transitive comparator the result is sorted |
| Sorting.SortedHeadFirst | src/sdk/index.js:307 | the first element of a sorted sequence comes before every other element |
| Catalog.CiMatch | src/sdk/index.js:44 | a match of `ciBuildRegExp` names a non-empty version and a 14-digit timestamp |
| Catalog.CiMatchName | src/sdk/index.js:44 | a `mobilesdk-<version>.v<timestamp>-<platform>` name matches with that version and timestamp |
| Catalog.GetBuilds | src/sdk/index.js:67-98 | a branch that is not a non-empty string is a TypeError; otherwise the loop builds the build dictionary of the fetched records |
| Catalog.BuildsKeys | src/sdk/index.js:78-95 | a name is listed exactly when some record for this platform has a CI build name that yields it |
| Catalog.BuildsLastWins | src/sdk/index.js:86-94 | a name holds the build of the last record that yields it, with version, timestamp, hash and URL |
| Catalog.DefaultIndexUrl | src/sdk/index.js:67-98 | the default index URL of a branch is `<host><branch>/index.json` |
| Catalog.DefaultBuildUrl | src/sdk/index.js:93 | the default build URL is `<host><branch>/<filename>` |
| Catalog.GetReleases | src/sdk/index.js:124-155 | `getReleases` returns the collected releases, plus `latest` unless `noLatest` is set |
| Catalog.CollectReleases | src/sdk/index.js:130-145 | the loop over the release records builds the release dictionary |
| Catalog.ReleasesKeys | src/sdk/index.js:133-141 | a version is listed exactly when a kept record has that version with `.GA` stripped; a record is kept when it is for this OS and, on Linux only, when its build type is 64-bit exactly when the machine is |
| Catalog.ReleasesLastWins | src/sdk/index.js:141-143 | a version holds the stripped version and URL of the last kept record that has it |
| Catalog.ReleaseVersionOf | src/sdk/index.js:141 | `.GA` and everything after it on the line are removed, and nothing before it |
| Catalog.Latest | src/sdk/index.js:147-152 | sorting the keys throws exactly when there are two or more keys and one is not a valid version; no keys means no latest; otherwise the latest is one of the keys |
| Catalog.LatestIsHighest | src/sdk/index.js:147-152 | no key compares higher than the chosen latest |
| Catalog.WithLatestErrors | src/sdk/index.js:147-152 | adding `latest` fails exactly when the sort throws; no releases means no `latest` |
| Catalog.WithLatestEntry | src/sdk/index.js:147-152 | `latest` is added with the release of a version that no listed version exceeds |
| Catalog.ReleasesLatest | src/sdk/index.js:124-155 | with `noLatest`, the result is the plain collection; without it, it fails only as the sort does and otherwise adds that `latest` entry |
| Resolve.HttpUriMatch | src/sdk/index.js:50 | an `http://` or `https://` URI matches the first alternative as a whole |
| Resolve.FileUriAnywhere | src/sdk/index.js:50 | the unanchored `file://` alternative matches wherever it first occurs and captures the rest of the line |
| Resolve.ClassifyErrors | src/sdk/index.js:211-242 | `install` checks params, then the URI type, then the local file; nothing else fails here |
| Resolve.AbsentUriIsLatest | src/sdk/index.js:219 | no URI, or an empty one, selects `latest` |
| Resolve.FileUriChecks | src/sdk/index.js:227-242 | a `file://` URI is a local file: one that does not exist, and then one without the `.zip` extension, is refused |
| Resolve.UrlIsRemote | src/sdk/index.js:246-248 | an HTTP(S) URL that names no existing path is downloaded |
| Resolve.OtherIsSelector | src/sdk/index.js:219-253 | any other string that names no path is trimmed and resolved as a version selector |
| Resolve.BranchHashOf | src/sdk/index.js:265 | `branch:hash` splits at the first colon after a word branch |
| Resolve.BranchCompareAsWrittenInconsistent | src/sdk/index.js:285-288 | the source's comparator puts both `master` before `7_5_X` and `7_5_X` before `master` when `7_5_X` is the default |
| Resolve.BranchCompareConsistent | src/sdk/index.js:285-288 | the corrected comparator is antisymmetric, total and transitive |
| Resolve.SortedBranches | src/sdk/index.js:285-288 | the sorted branches are a permutation; the default branch comes first when listed, and the others follow in descending order |
| Resolve.SortBuildsMeaning | src/sdk/index.js:301-304 | builds sort by version, highest first, then by newest timestamp |
| Resolve.NameOrderConsistent | src/sdk/index.js:301-307 | the build order is total and transitive |
| Resolve.LatestBuildIsNewest | src/sdk/index.js:307-309 | `latest` picks a build that no other build outranks |
| Resolve.SearchStopsAtFirst | src/sdk/index.js:294-313 | the first branch that yields a URL decides the result; what later branches' indexes hold makes no difference |
| Resolve.SearchBranchesErrors | src/sdk/index.js:294-313 | the branch search fails only on a bad branch argument or an invalid build version |
| Resolve.ReleaseWins | src/sdk/index.js:256-259 | a selector naming a release, with or without `.GA`, resolves to that release's URL, whatever the branches are |
| Resolve.UnknownBranchRejected | src/sdk/index.js:265-273 | a `branch:hash` with an unknown branch is `Invalid branch` |
| Resolve.KnownBranchRestricts | src/sdk/index.js:274-275 | a known branch restricts the search to that branch and the hash part |
| Resolve.BareBranchIsLatest | src/sdk/index.js:277-282 | a bare branch name selects that branch's latest build |
| Resolve.NoMatchQuotesUri | src/sdk/index.js:317-320 | no URL found is an error that quotes `params.uri`, not the trimmed selector |
| Resolve.FindBuild | src/sdk/index.js:307-311 | the loop returns the URL of the first build matching the selector, or nothing |
| Resolve.ResolveSelector | src/sdk/index.js:253-320 | the resolution method computes `ResolveSpec` |
| Resolve.DownloadName | src/sdk/index.js:354-359 | the downloaded file is renamed to the URL's last segment when that ends in `.zip` |
| Resolve.DownloadNameOf | src/sdk/index.js:354 | `<base>/<name>.zip` yields `<name>.zip` |
| Install.SdkDestOf | src/sdk/index.js:371 | an entry `mobilesdk/<os>/<name>`, with either slash, names SDK `<name>` |
| Install.NameHookOutcome | src/sdk/index.js:380-390 | the name is taken from the first matching entry; without `overwrite`, an already installed SDK stops the extraction there |
| Install.Place | src/sdk/index.js:376-448 | steps 2 and 3 on the file system end as the specification `Placement` says |
| Install.PlacePlatforms | src/sdk/index.js:405-439 | the three nested loops visit every module version directory exactly once and end as the module walk says |
| Install.PlaceModuleNames | src/sdk/index.js:415-437 | the loop over one platform's modules visits exactly that platform's versions |
| Install.PlaceVersions | src/sdk/index.js:421-436 | the loop over one module's versions visits exactly that module's version directories |
| Install.PlacedSdkName | src/sdk/index.js:380-395 | a successful install names the SDK of the first matching entry, and without `overwrite` that SDK was not installed |
| Install.ExistingSdkRefused | src/sdk/index.js:386-388 | without `overwrite`, an installed SDK fails the install and leaves everything outside the temporary directory unchanged |
| Install.TempRemoved | src/sdk/index.js:440-443 | whatever happens, nothing is left in the temporary directory |
| Install.SdkInstalled | src/sdk/index.js:399-402 | after success, the SDK directory holds exactly what was extracted for the SDK |
| Install.ModuleInstalled | src/sdk/index.js:427-435 | after success, each bundled module version not skipped holds exactly its extracted contents |
| Install.ExistingModuleKept | src/sdk/index.js:430-433 | without `overwrite`, an installed module version is left untouched |
| Install.ExistingVersionKept | src/sdk/index.js:430-433 | the module walk skips a version whose destination exists |
| Install.VersionMoved | src/sdk/index.js:435 | the module walk moves every version that is not skipped |
| Install.StageWellFormed | src/sdk/index.js:376-402 | extraction and the SDK move keep the tree well-formed |
| Install.StageFrame | src/sdk/index.js:376-402 | extraction and the SDK move leave the install location's `modules` directory alone |
| Disk.Mkdirp | src/util.js:88 | `mkdirp` creates the path and all its parents, adds nothing else, and does nothing below a file |
| Disk.WriteFile | src/util.js:96-98 | a write succeeds exactly when the parent is a directory and the path is not one; it adds that file with its mode |
| Disk.Remove | src/sdk/index.js:442 | `remove` deletes exactly what lies inside the path |
| Disk.MoveSucceeds | src/sdk/index.js:402 | a move succeeds exactly when the source exists and no file blocks the destination's parent |
| Disk.MoveDirs | src/sdk/index.js:402 | after a move, the destination holds the source's directories; the source is gone; other directories stay |
| Disk.MoveFiles | src/sdk/index.js:402 | after a move, the destination holds the source's files with their modes; the source is gone; other files stay |
| Disk.MoveWellFormed | src/sdk/index.js:402 | a move keeps the tree well-formed |
| Disk.FileSystem.MoveTo | src/sdk/index.js:402 | the file-system move updates the tree as `Move` says, and a failed move leaves it unchanged |
| Uninstall.Uninstall | src/sdk/index.js:458-481 | a non-string or empty argument is a TypeError; otherwise every matching SDK is removed and returned in order; no match is an error |
| Uninstall.RemoveMatching | src/sdk/index.js:466-474 | the loop collects exactly the matching SDKs and removes each one's path |
| Uninstall.MatchingMembers | src/sdk/index.js:466-474 | an SDK is removed exactly when it is installed and its name or path equals the argument |
| Uninstall.UninstallEffect | src/sdk/index.js:466-474 | nothing is left inside the path of a matching SDK |
| Uninstall.UninstallKeeps | src/sdk/index.js:466-474 | everything outside every matching SDK's path is kept, file contents included |
| Locations.Defaults | src/sdk/index.js:25-38 | default locations exist exactly for `darwin`, `linux` and `win32`, and none of those lists is empty; the table of src/locations.js is the same |
| Locations.Unique | src/locations.js:31 | `unique` keeps exactly the members of its input, without duplicates |
| Locations.UniqueOfDistinct | src/locations.js:31 | a list without duplicates is kept unchanged |
| Locations.UniquePrefix | src/locations.js:31-34 | `unique` keeps first occurrences, so the search paths keep their order ahead of the defaults |
| Locations.InstallPathsMembers | src/locations.js:30-35 | the locations are distinct; they are the expanded non-empty search paths and the expanded defaults of `TITANIUMLIB_PLATFORM`, or of the platform when that is unset |
| Locations.SearchPathsFirst | src/locations.js:31-33 | the expanded search paths come first |
| Locations.PlatformKey | src/locations.js:33 | `TITANIUMLIB_PLATFORM` overrides the platform; an unknown platform adds no defaults |
| Locations.SdkInstallPathsCases | src/sdk/index.js:106-115 | `getInstallPaths` fails for a platform without locations, and a given default that is not a string is a TypeError; otherwise the list is non-empty and distinct, with the expanded default first |
| Locations.DefaultAlreadyListed | src/sdk/index.js:106-115 | a default path that is listed already does not lengthen the list |
| Manifest.Lines | src/module/titanium-module.js:46 | splitting at `\n` with an optional `\r` gives a line for each line feed, plus one |
| Manifest.LinesOfJoin | src/module/titanium-module.js:46 | lines joined with `\n` split back as they were |
| Manifest.LinesOfCrlfJoin | src/module/titanium-module.js:46 | lines joined with `\r\n` split back as they were |
| Manifest.ParseLine | src/module/titanium-module.js:11 | a match of `iniRegExp` has a non-empty key of non-colon, non-space characters that does not start with `#`, and a non-empty single-line value |
| Manifest.ParseKeyValue | src/module/titanium-module.js:11 | `key: value` with white space around the parts reads as that key and exactly that value |
| Manifest.CommentSkipped | src/module/titanium-module.js:11 | a line whose first non-blank character is `#` does not match |
| Manifest.NoColonNoEntry | src/module/titanium-module.js:11 | a line without a colon does not match |
| Manifest.BlankValue | src/module/titanium-module.js:11 | with only white space after the colon, the value is the last such character |
| Manifest.NumberTextParts | src/module/titanium-module.js:17 | `numberRegExp` matches digits, optionally followed by a point and more digits |
| Manifest.DottedVersionNotNumber | src/module/titanium-module.js:17 | a dotted version such as `1.0.0` is not a number |
| Manifest.ApplyLastWins | src/module/titanium-module.js:46-58 | the last line for a key decides that key's value |
| Manifest.ApplyUndefined | src/module/titanium-module.js:46-58 | a key no line assigns keeps its value, or stays absent |
| Manifest.ApplyKeys | src/module/titanium-module.js:46-58 | after the loop, the keys are the initial ones and those that some line assigns |
| Manifest.ApplyKeepsOrder | src/module/titanium-module.js:46-58 | the fields present before the loop keep their places in key order |
| Manifest.PlatformOfModuleDir | src/module/titanium-module.js:40-41 | for `<root>/<platform>/<name>/<version>`, the platform and version come from the path |
| Manifest.ApplyAgree | src/module.js:60-65 | the two readers assign the same keys in the same order; they differ only in storing numbers as numbers |
| ModuleReader.TitaniumModule.constructor | src/module/titanium-module.js:39-41 | `path`, `platform` and `version` come from the directory |
| ModuleReader.TitaniumModule.ReadManifest | src/module/titanium-module.js:46-58 | the manifest loop assigns each line's match, coercing number-like values other than `version` |
| ModuleReader.TitaniumModule.Check | src/module/titanium-module.js:63-73 | the platform and version checks, and the `iphone` rename, as `CheckSpec` says |
| ModuleReader.Load | src/module/titanium-module.js:29-74 | the constructor fails exactly as `LoadSpec` says; on success, its fields are those of `LoadSpec` |
| ModuleReader.LoadValidationOrder | src/module/titanium-module.js:30-61 | a missing or empty directory, then a missing directory, then an unreadable manifest are reported in that order |
| ModuleReader.CheckOutcome | src/module/titanium-module.js:63-73 | the checks pass exactly when the platform is a non-blank string and the version is valid semver |
| ModuleReader.CheckErrors | src/module/titanium-module.js:63-73 | the platform errors come before the version error |
| ModuleReader.ReadErrors | src/module/titanium-module.js:63-73 | after the manifest, only a platform or version error can occur |
| ModuleReader.LoadedModule | src/module/titanium-module.js:63-73 | a loaded module has a non-blank platform other than `iphone` and a valid version |
| ModuleReader.ManifestOverrides | src/module/titanium-module.js:46-58 | the last manifest line for a key other than `platform` sets its value |
| ModuleReader.LoadedPlatform | src/module/titanium-module.js:40-69 | the platform is the last `platform` line's value, or the directory's, with `iphone` renamed |
| ModuleReader.NumericPlatformRejected | src/module/titanium-module.js:49-64 | a numeric `platform` value has no `trim`, so loading fails |
| ModuleReader.DirectoryFieldKept | src/module/titanium-module.js:39-58 | a directory field that no line assigns keeps the directory's value |
| ModuleReader.PathFieldsKept | src/module/titanium-module.js:39-58 | without a `version` line, the version is the directory's name |
| LegacyModuleReader.TitaniumModule.constructor | src/module.js:53-55 | `path`, `platform` and `version` come from the directory |
| LegacyModuleReader.TitaniumModule.ReadManifest | src/module.js:60-65 | the manifest loop assigns each line's match as a string |
| LegacyModuleReader.TitaniumModule.Check | src/module.js:70-76 | the `iphone` rename and the version check, as `CheckSpec` says |
| LegacyModuleReader.Load | src/module.js:43-77 | the constructor fails exactly as `LoadSpec` says; on success, its fields are those of `LoadSpec` |
| LegacyModuleReader.LoadValidationOrder | src/module.js:44-68 | the directory is checked before the manifest, and the only later error is the version's |
| LegacyModuleReader.CheckOutcome | src/module.js:70-76 | the checks rename `iphone` and pass exactly when the version is valid |
| LegacyModuleReader.ReadOutcome | src/module.js:60-76 | after the manifest, the module loads exactly when its final version is valid |
| LegacyModuleReader.ManifestOverrides | src/module.js:60-65 | the last manifest line for a key other than `platform` sets its value |
| LegacyModuleReader.LoadedPlatform | src/module.js:54-72 | the platform is the last `platform` line's value, or the directory's, with `iphone` renamed |
| LegacyModuleReader.DirectoryFieldKept | src/module.js:53-65 | a directory field that no line assigns keeps the directory's value |
| LegacyModuleReader.ReadersAgree | src/module.js:53-65 | before the checks, the legacy fields are the new reader's fields with every value as text |
| LegacyModuleReader.BlankPlatformAccepted | src/module.js:70-76 | the legacy reader accepts a blank platform that the new reader rejects |
| Text.JoinSplit | src/module/titanium-module.js:46 | joining the pieces of a split restores the string |
| Text.SplitJoin | src/module/titanium-module.js:46 | splitting pieces joined with a separator they do not contain gives the pieces back |
| Text.StripTailAt | src/sdk/index.js:141 | removing a regular-expression tail cuts at the first marker whose tail is one line |
| Text.ReplaceFirstAt | src/sdk/index.js:93 | `replace` with a string pattern replaces its first occurrence only |
| Text.LocaleCompareAntisymmetric | src/sdk/index.js:287 | string comparison is antisymmetric and zero exactly on equal strings |

## Left out

- The network and I/O:
  - requests, `fetchJSON` and `getBranches` are left out; the fetched JSON records and the branch list are inputs;
  - the streamed download of step 1.5 is left out, apart from the renamed file name (`Resolve.DownloadName`) and its removal;
  - HTTP status errors are left out;
  - the temporary name (`tmp.tmpNameSync`) is a parameter.
- Zip decoding by yauzl is left out: the archive is a sequence of entries with names and attributes, or `None` for an unreadable zip.
- Directory order: `readdirSync` order is a ghost parameter, the order in which the module walk visits versions; what is proved holds for every order.
- The installed SDKs (`getInstalledSDKs`) and `expandPath` are parameters. `fs.existsSync` and `isDir` are parameters where no tree is modelled.
- semver internals: a valid version is a strict `MAJOR.MINOR.PATCH` of numerals without leading zeros. Prerelease tags, build metadata, a `v` prefix and padding white space are not modelled. `semver.valid` in the module readers is a predicate parameter.
- Numbers: `parseFloat` of a manifest number is kept as its digit text, and the CI timestamp is kept as its digit groups rather than a `Date`; neither value is ever computed with.
- Progress values are `real`; floating-point rounding near the 0.01 threshold is not modelled.
- `localeCompare` is modelled as code-unit order, without locale collation.
- Logging (`log`, `highlight`, `pluralize`) is left out.
- Object semantics: a JavaScript object is an insertion-ordered map. Object keys that look like integers (listed first by `Object.keys`) and the special `__proto__` key are not modelled.
- Paths are absolute sequences of components joined with `/`. Relative paths, `.` and `..` components and Windows separators are not modelled; the SDK-entry pattern alone accepts `\` as in the source.
- ModuleReader.ReadSpec: the lemmas about a loaded module are stated over the parsed manifest lines (`ReadEntries` of `Parsed(Lines(text))`) rather than over the manifest text itself.
- Install.Place: it returns the installed SDK name, which the source's `install` does not return.
- Install.Place: it requires the temporary directory and the install location to be apart, neither inside the other (`Apart(temp, ti)`), and so do `PlacePlatforms`, `StageSdk`, `Placement` and the install lemmas. The source does not check this, so an install location that contains the system temporary directory (a `defaultInstallPath` of `/` or of `os.tmpdir()`) is outside the model. The frame reasoning that keeps the SDK move, the module moves and the final removal of the temporary directory from touching each other's paths relies on it.
- Text.ReplaceFirst: the `$&`, `$1` and `$$` patterns that `String.prototype.replace` expands in a replacement string are not modelled; the replacement is inserted as it is (the URL templates of `getBuilds`).
- Releases and builds are looked up among a dictionary's own keys only. Keys inherited from `Object.prototype`, such as `releases["constructor"]`, are not modelled.
- Tasks.TaskTracker.StartTask: `hasProgress` is a `bool`. The default `true` for an omitted argument, and a non-boolean value passed through to the event, are not modelled.
- Tasks.TaskTracker.constructor: `tasks` is a `nat`; any other value the source would store and report is not modelled.
- Tasks.TaskTracker: a callback that throws, or that calls back into the tracker, is not modelled; the callback only records the events it receives.
- Strings are sequences of Unicode code points, not UTF-16 code units. `length` and the `localeCompare` order differ from the source's for characters outside the Basic Multilingual Plane.
- Error messages: `InvalidVersion` omits the `: <version>` suffix of semver's TypeError; `InvalidZip` omits the `: <reason>` suffix of the yauzl error; `MoveSourceMissing` omits the system call and path that the file-system error names.
- Install.NameHook: whether an SDK is installed is read from the tree as it was before extraction. The extraction writes only inside the temporary directory, so the answer is the same.
- Uninstall.Uninstall: requires installed SDK paths with at least one component, which is what `getInstalledSDKs` reports.
- The `TITANIUMLIB_PLATFORM` environment variable and `process.platform` are parameters.
- `getInstalledSDKs`, `getBranches`, `src/sdk.js`, `src/sdk/titanium-sdk.js`, `src/options.js`, `src/project`, `src/templates` and `src/index.js` are not part of this model.

## Findings

| source | as written | input that shows it | evidently intended | confidence | as-written member | corrected member |
|---|---|---|---|---|---|---|
| src/sdk/index.js:285-288 | the branch comparator returns -1 whenever `a` is the default, but when `b` is the default it falls through to `b.localeCompare(a)`, which can also be negative | default branch `7_5_X`: comparing (`master`, `7_5_X`) and (`7_5_X`, `master`) both give a negative result, so the comparator is inconsistent and the sort order depends on the engine | the default branch sorts first; the others sort in descending order | not executed | Resolve.BranchCompareAsWrittenInconsistent | Resolve.BranchCompareConsistent |
