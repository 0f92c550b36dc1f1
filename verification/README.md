# A model of the goswitch version manager

goswitch is a Windows desktop tool that installs several Go SDKs and switches
between them. Its engine, `internal/manager`, is modelled here:

- **Listing.** `ListLocalVersions` lists the SDKs under `~\.goswitch\sdk`
  and the system installs at `C:\Program Files\Go`, `C:\Go` and the current
  GOROOT. It marks the entry that GOROOT points to as active.
- **Switching.** `SwitchVersion` writes GOROOT and Path into the
  machine-wide environment key of the registry, and GOROOT into the process
  environment. `updatePath` rewrites Path: the new `bin` directory goes
  first, and stale Go entries are dropped.
- **Uninstalling.** `UninstallVersion` removes an SDK directory. Its only
  guard is a string-prefix test.
- **Remote catalogue.** `FetchRemoteVersions` classifies the releases in
  the catalogue as stable or not.
- **Installing.** `DownloadVersion` checks the version name and downloads
  the archive into the temporary directory. A `WriteCounter` reports
  throttled percentages while the body is copied. The method then removes
  the old SDK directory and extracts the archive with `unzip`, whose
  zip-slip guard it also has.

The host is the class `Host.Machine`. It holds:

- a file system value `FileSystem.Fs`. This is a set of directories and a
  map of files, keyed by the lower-cased cleaned path, because Windows
  volumes are case-insensitive;
- the registry key as a map;
- the process environment as a map;
- the temporary directory.

`Manager.Manager` holds the SDK path. Each of its methods is proved
against a pure specification:

| method | proved against |
|---|---|
| `ListLocalVersions` | `Listing.Listing` |
| `Archive.Unzip` | `Archive.UnzipEntries` |
| `Progress.WriteCounter.Write` | `Progress.Step` and `Progress.Run` |
| `PathEnv.UpdatePath` | `PathEnv.UpdatedPath` |

The lemmas state what the source promises about those functions.

Go's standard library is modelled as far as the core relies on it:

- `Text`: `strings.Split`, `Join`, `Contains`, `HasPrefix`, `ToLower`,
  `EqualFold` and `TrimSpace`;
- `Paths`: `filepath.FromSlash`, `Clean`, `Join`, `Dir`, `Base` and `IsAbs`
  for Windows paths. A volume name is recognised only at the start of a
  path, as a letter-like character followed by `:`. Anywhere else an
  element such as `a:` is an ordinary name that a later `..` removes. `Join`
  adds no separator after an element that ends in `:`, as Go's does.

Each archive entry has a payload:

- `Readable(data)`: the entry opens and its data is copied in full;
- `Unopenable`: `f.Open` fails after the output file was created empty, so
  the file stays empty and the error is returned;
- `Unreadable(copied)`: `io.Copy` fails after writing the bytes `copied`,
  which stay in the file, and the error is returned.

## Model

| member | source | states |
|---|---|---|
| PathEnv.UpdatePath | internal/manager/manager.go:167-190 | returns exactly `UpdatedPath`: the new `bin` path, then the surviving entries of the old Path in their order, joined by `;` |
| PathEnv.PrependEntry | internal/manager/manager.go:168-189 | the split-filter-join loop returns exactly `Prepended`: the given entry first, then the old entries the filter keeps, in order |
| PathEnv.KeepMembership | internal/manager/manager.go:174-187 | an entry survives if and only if it was in the old Path and is neither empty nor a Go `bin`/SDK entry |
| PathEnv.KeepCounts | internal/manager/manager.go:174-187 | the filter keeps every occurrence of a kept entry (duplicates are not merged) and none of a dropped one |
| PathEnv.KeepConcat | internal/manager/manager.go:174-187 | filtering works entry by entry: filtering a concatenation is concatenating the filtered parts |
| PathEnv.KeepIdempotent | internal/manager/manager.go:174-187 | filtering twice is filtering once |
| PathEnv.KeepPartsFree | internal/manager/manager.go:168-186 | kept entries hold no `;` when the split entries hold none |
| PathEnv.PrependedEntries | internal/manager/manager.go:168-189 | splitting the result on `;` gives back the `bin` path followed by the kept entries (join and split round-trip) |
| PathEnv.KeepAfterPrepend | internal/manager/manager.go:172-187 | filtering a `bin` path followed by already-filtered entries keeps those entries and drops the `bin` path exactly when the filter rejects it |
| PathEnv.PrependedTwice | internal/manager/manager.go:167-190 | updating twice with the same `bin` path changes nothing when the filter drops that path (empty, or a stale Go entry); otherwise `bin` appears twice, followed by the kept entries |
| PathEnv.UpdatedPathEntries | internal/manager/manager.go:167-190 | the new Path's entries are the new GOROOT's `bin` followed by the old entries that survive the filter |
| PathEnv.SecondUpdate | internal/manager/manager.go:167-190 | switching twice to the same GOROOT gives the same Path as switching once when the filter drops `<GOROOT>\bin` (it mentions `\go\bin`, `go/bin` or `.goswitch\sdk`, ignoring case); otherwise the `bin` entry appears twice, followed by the kept old entries |
| Manager.Manager.constructor | internal/manager/manager.go:22-27 | the SDK path is `<home>\.goswitch\sdk`; the directory is created when possible, and a failure is ignored |
| Manager.Manager.ListLocalVersions | internal/manager/manager.go:30-99 | returns exactly `Listing.Listing` for the current file system, GOROOT and directory listing, and never an error |
| Manager.ScanManaged | internal/manager/manager.go:36-53 | the first loop builds exactly `Listing.Managed` |
| Manager.SeenPaths | internal/manager/manager.go:63-66 | the seen set is exactly the set of keys of the managed paths |
| Manager.ScanSystem | internal/manager/manager.go:68-96 | the second loop builds exactly `Listing.SystemScan` over the candidates |
| Manager.ScanCandidate | internal/manager/manager.go:69-95 | one pass of the second loop: the key is the candidate's lower-cased cleaned path; a version is listed exactly when the key was not seen and the path exists, and it is the one `Describe` gives |
| Manager.DetectVersion | internal/manager/manager.go:76-86 | the version name is the trimmed VERSION file when it can be read, else the base name when it starts with `go`, else `System` |
| Listing.ManagedSnoc | internal/manager/manager.go:36-53 | one more directory entry appends at most its own managed version, at the end |
| Listing.ManagedNamesExact | internal/manager/manager.go:36-37 | the managed names are exactly the names of the directory entries that are directories starting with `go` |
| Listing.ManagedEntries | internal/manager/manager.go:36-52 | the set of managed version names is exactly the set of names of directory entries that are directories starting with `go` |
| Listing.ManagedPaths | internal/manager/manager.go:38-44 | a managed path is `<SDK>\<name>\go` when that directory exists, else `<SDK>\<name>` |
| Listing.ManagedActive | internal/manager/manager.go:32-46 | a managed version is active if and only if its cleaned path equals the cleaned GOROOT, ignoring case |
| Listing.ChosenUnseen | internal/manager/manager.go:63-96 | no chosen candidate has a key that was seen before the second loop |
| Listing.ChosenDistinct | internal/manager/manager.go:68-96 | the chosen candidates have pairwise distinct keys |
| Listing.ChosenPresent | internal/manager/manager.go:74 | every chosen candidate is one of the probed candidates, and it exists |
| Listing.ChosenComplete | internal/manager/manager.go:68-96 | every existing candidate's key was seen already or is the key of a chosen candidate |
| Listing.ProbesFaithful | internal/manager/manager.go:68-74 | each probe is of a candidate path, its key is that path's key, and it is present exactly when the path exists |
| Listing.SystemScanChosen | internal/manager/manager.go:68-96 | the system part lists one version per chosen candidate, in order, with that candidate's path, active exactly when its key is the GOROOT key, and every path an existing candidate |
| Listing.SystemScanFresh | internal/manager/manager.go:68-96 | system entries have pairwise distinct keys, none of them already seen, each an existing candidate, active if and only if its key is the GOROOT key |
| Listing.SystemScanComplete | internal/manager/manager.go:68-96 | every existing candidate is either seen already or listed |
| Listing.ListingActive | internal/manager/manager.go:32-88 | in the whole listing, an entry is active if and only if its key equals the lower-cased cleaned GOROOT |
| Listing.ListingSystemKeysFresh | internal/manager/manager.go:63-96 | the managed versions come first, and no system entry repeats the key of any entry before it |
| Listing.ListingSystemFound | internal/manager/manager.go:30-99 | the listing is the managed versions followed by the system part, and every system entry is one of the candidate locations and exists |
| Listing.ListingComplete | internal/manager/manager.go:55-96 | every existing candidate location is in the listing under its key |
| Listing.AtMostOneActive | internal/manager/manager.go:30-99 | when the managed paths have distinct keys, all keys in the listing are distinct and at most one entry is active |
| Listing.UnsetGorootScansCurrentDirectory | internal/manager/manager.go:32-61 | with GOROOT unset, the cleaned GOROOT is `.`, so the current directory becomes a third candidate |
| Manager.Manager.SwitchVersion | internal/manager/manager.go:102-146 | follows each error path in source order: version path not found, registry open, set GOROOT, read Path, set Path. Earlier writes are kept when a later step fails. On success the registry holds GOROOT and the updated Path, and the process environment holds GOROOT. The file system is never touched |
| Manager.SwitchedListingActive | internal/manager/manager.go:144 | after GOROOT is set to the switch target, a listing marks active exactly the entries whose key is the target's key |
| Manager.Manager.UninstallVersion | internal/manager/manager.go:149-165 | removes the target tree when its path starts with the SDK path's characters, and otherwise reports NotManaged and changes nothing; the registry and the environment are never touched |
| Manager.UninstallEmptyNameRemovesSdk | internal/manager/manager.go:155-164 | the name `""`, and `.` under an SDK path that does not end in `:`, resolve to the clean SDK directory itself, and the guard lets it be removed |
| Manager.UninstallAdmitsSibling | internal/manager/manager.go:156-164 | any absolute path that starts with the SDK path's characters passes the guard, including a sibling directory such as `sdk2` |
| Catalog.FetchRemoteVersions | internal/manager/downloader.go:21-47 | a decode error is returned as is; otherwise one release per decoded entry, same order and version, stable exactly when the version contains neither `rc` nor `beta` |
| Catalog.ClassificationExamples | internal/manager/downloader.go:40 | `go1.21.0` is stable and `go1.22rc1` is not |
| Download.UrlRoundTrip | internal/manager/downloader.go:56 | the download URL gives back the version it was built from, so different versions use different URLs |
| Download.ValidNameHasNoSeparator | internal/manager/downloader.go:51-53 | an accepted version name contains no `\` or `/` |
| Download.EmptyAndDotNamesTargetSdk | internal/manager/downloader.go:51-102 | the names `""` and `.` pass the name check. The destination of `""` is the SDK directory itself, and so is that of `.` when the SDK path does not end in `:` |
| Download.ValidNameDestDir | internal/manager/downloader.go:51-100 | for any other accepted name, the destination is one element directly below the cleaned SDK directory, when the SDK path does not end in `:` |
| Progress.EstimateTotal | internal/manager/downloader.go:73-86 | the total is always positive. It is the GET length when that is positive, else a positive HEAD length, else 140 MiB |
| Progress.Step | internal/manager/downloader.go:113-128 | one write adds its size to Current. With a callback and a positive total, the percentage of the new Current is reported, and becomes LastProgress, exactly when it exceeds LastProgress; otherwise nothing is reported and LastProgress stays. LastProgress never decreases |
| Progress.RunReportsPercentages | internal/manager/downloader.go:113-128 | with a callback and a positive total, every report is the percentage of the byte count after some write, and no write's percentage exceeds the final LastProgress |
| Progress.RunReports | internal/manager/downloader.go:113-128 | over a whole download, Current is the byte count. There is at most one report per write. The reports rise strictly and are all at least 1. LastProgress is the last report, or 0 |
| Progress.RunSilent | internal/manager/downloader.go:117 | with no callback or no positive total, nothing is ever reported |
| Progress.ProgressNotClamped | internal/manager/downloader.go:119-124 | the percentage is not clamped: writing 20 bytes against a total of 10 reports 200 |
| Progress.WriteCounter.Write | internal/manager/downloader.go:113-128 | always accepts the whole chunk without error, and moves the counter by exactly `Step` |
| Manager.FetchBody | internal/manager/downloader.go:73-97 | the bytes written are the concatenated body, and the reports are those of `Run` with the estimated total over the chunk sizes |
| FileSystem.WriteFileTwice | internal/manager/downloader.go:60-95 | creating the temporary file empty and then writing the body leaves the same file system as writing the body once |
| Manager.CopyWithProgress | internal/manager/downloader.go:91-97 | the copy writes the concatenated body, and the reports are those of `Run` over the chunk sizes |
| Manager.Manager.DownloadVersion | internal/manager/downloader.go:50-103 | invalid names are refused with nothing changed. Creating the temporary file fails when a directory stands there or the temporary directory is missing. A GET error is returned after the empty file was created. The reports are those of `Run` with the estimated total. A body read error is returned after the copy. Otherwise the old destination is removed and the outcome is that of `UnzipEntries`, or OpenReader when the archive is unreadable |
| Archive.UnzipCompose | internal/manager/downloader.go:137-173 | extraction processes entries in order: extracting `a + b` is extracting `a`, then `b` unless `a` failed |
| Archive.UnzipNoRollback | internal/manager/downloader.go:138-142 | an entry that fails the zip-slip guard stops extraction with IllegalFilePath, and the files already extracted stay |
| Archive.UnzipWritesOnlyGuarded | internal/manager/downloader.go:137-173 | no file is removed, and every file that is new or changed is the path of a file entry that passed the guard |
| Archive.UnzipCreatesOnlyGuarded | internal/manager/downloader.go:137-173 | no directory is removed, and every new directory lies on the path of an entry that passed the guard |
| Archive.UnzipSuccess | internal/manager/downloader.go:137-173 | a successful extraction means every entry passed the guard and every file entry was readable, and each file holds the content of the last entry that wrote it |
| Archive.DriveLikeElementRejected | internal/manager/downloader.go:138-142 | the entry `a:\..\..\x` below `C:\d` joins to `C:\x`: `a:` is an ordinary element there, not a volume. The guard rejects that path |
| Archive.DirectoryEntriesNeverFail | internal/manager/downloader.go:144-147 | guarded directory entries never fail, because MkdirAll errors are ignored for them |
| Archive.Unzip | internal/manager/downloader.go:130-174 | an unreadable archive gives the OpenReader error with nothing changed. Otherwise the loop follows the source: guard, MkdirAll, OpenFile truncating the file, Open, then Copy. An Open failure leaves the file empty, and a Copy failure leaves the bytes copied before it. The new file system and the error are exactly those of `UnzipEntries` |

## Left out

- HTTP, JSON decoding, the zip reader and the Windows registry are inputs:
  - `Network` gives GET results and HEAD lengths;
  - `FetchRemoteVersions` receives the decoded catalogue;
  - `DownloadVersion` receives the entries the zip reader would find in the temporary file;
  - `RegistryFaults` says which registry call fails.
- `os.ReadDir` is an input to `ListLocalVersions`. The directory entries are not derived from the file system value, and a failing read is an empty list.
- The floating-point percentage of `WriteCounter.Write` is the parameter `percent`. Every proved property holds for any percentage function.
- Windows paths are simplified:
  - there are no UNC paths and no reserved names;
  - `Clean` does not add the `.\` prefix that Go puts before a first element containing `:`, and it has no `\??\` rule;
  - `Join` does not strip the leading separators of an element that follows one ending in a separator;
  - `Base` and `Dir` cover only the forms the core uses.
- Case folding and `TrimSpace` cover ASCII only.
- Stat errors other than "does not exist" are not modelled.
- The file system model has no permissions. `RemoveAll` never fails, and `MkdirAll` fails only where a file stands on the path.
- A download body copy that fails part-way is modelled as failing after all chunks are written. The partial content of the temporary file is not modelled. (The partial content of an extracted file is modelled, by `Unreadable`.)
- The 64-bit width of `Current` and `Total` is not modelled, because integers are unbounded. A download larger than 2^63 bytes does not occur.
- The difference between a nil and an empty release slice in `FetchRemoteVersions` is not modelled.
- Console output (`fmt.Printf`) and closing files and response bodies are not modelled.
- The Wails front end and the application bindings in `app.go` are not part of this model.
- Listing.AtMostOneActive: is weaker than a plain "at most one version is active". It requires the managed paths to have distinct keys, because the code does not check this; the operating system's directory listing ensures it.
- Manager.Manager.SwitchVersion: registry value names are case-sensitive in the model. Windows matches them without regard to case.
- Download.EmptyAndDotNamesTargetSdk: states the `.` case only for an SDK path that does not end in `:`. After such a path Go's `Join` adds no separator, so `C:\x:` joined with `.` is `C:\x:.`, not the SDK directory `C:\x:`. The real SDK path `<home>\.goswitch\sdk` never ends in `:`. The `""` case holds for every SDK path.
- Download.ValidNameDestDir: states the result only for an SDK path that does not end in `:`, for the same reason.
- Manager.UninstallEmptyNameRemovesSdk: states the `.` case only for an SDK path that does not end in `:`, for the same reason.
