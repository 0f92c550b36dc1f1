/** The Manager of internal/manager: listing, switching, uninstalling and
    installing Go SDKs on a Windows host. The host is a Host.Machine; the
    Windows registry key for system environment variables is its `registry`
    map, the process environment its `env` map. */
module Manager {
  import opened Wrappers
  import Text
  import Paths
  import opened FileSystem
  import Host
  import PathEnv
  import Listing
  import Progress
  import Archive
  import Download

  /** Which of the registry calls of SwitchVersion fail (opening the key
      needs administrator rights). Reading Path fails when it is absent. */
  datatype RegistryFaults = RegistryFaults(openFails: bool, setGorootFails: bool, setPathFails: bool)

  /** The answer to an HTTP GET: the announced length (-1 when unknown), the
      body as the chunks the reader delivers, and whether reading it fails
      after those chunks. */
  datatype Response = Response(contentLength: int, body: seq<string>, bodyFails: bool)

  /** The network as seen by DownloadVersion: GET, and HEAD's length (None
      when the HEAD request fails). */
  datatype Network = Network(get: string -> Result<Response, Error>, head: string -> Option<int>)

  /** The path SwitchVersion switches to: a non-absolute name is taken under
      the SDK directory, and its `go` subdirectory is used when present. */
  function SwitchTarget(fs: Fs, sdkPath: string, versionName: string): string {
    var targetPath := if Paths.IsAbs(versionName) then versionName else Paths.Join(sdkPath, versionName);
    var goSubDir := Paths.Join(targetPath, "go");
    if IsDir(fs, goSubDir) then goSubDir else targetPath
  }

  /** The path UninstallVersion removes. */
  function UninstallTarget(sdkPath: string, versionName: string): string {
    if Paths.IsAbs(versionName) then versionName else Paths.Join(sdkPath, versionName)
  }

  /** The safety check of UninstallVersion: a plain string prefix test. */
  predicate UninstallAllowed(sdkPath: string, targetPath: string) {
    Text.HasPrefix(targetPath, sdkPath)
  }

  /** An empty name, or "." under an SDK path that does not end in ':',
      resolves to the SDK directory itself, which the prefix test admits:
      uninstalling it removes every managed version. */
  lemma UninstallEmptyNameRemovesSdk(sdkPath: string, versionName: string)
    requires sdkPath != "" && Paths.Clean(sdkPath) == sdkPath
    requires versionName == "" || versionName == "."
    ensures versionName == "" || !Paths.EndsInColon(sdkPath) ==>
              UninstallTarget(sdkPath, versionName) == sdkPath &&
              UninstallAllowed(sdkPath, UninstallTarget(sdkPath, versionName))
  {
    if versionName == "." && !Paths.EndsInColon(sdkPath) {
      Paths.JoinEmptyOrDot(sdkPath, versionName);
    }
  }

  /** The prefix test does not stop at a path element boundary: an absolute
      path that merely starts with the SDK path's characters, such as a
      sibling `sdk2`, is admitted. */
  lemma UninstallAdmitsSibling(sdkPath: string, suffix: string)
    requires Paths.IsAbs(sdkPath)
    ensures UninstallTarget(sdkPath, sdkPath + suffix) == sdkPath + suffix
    ensures UninstallAllowed(sdkPath, UninstallTarget(sdkPath, sdkPath + suffix))
  {
    var t := sdkPath + suffix;
    assert t[..3] == sdkPath[..3];
    assert t[..|sdkPath|] == sdkPath;
  }

  /** Once GOROOT names the switch target, a listing marks as active exactly
      the entries whose path has the target's key. */
  lemma SwitchedListingActive(fs: Fs, sdkPath: string, versionName: string, entries: seq<Listing.DirEntry>)
    ensures var target := SwitchTarget(fs, sdkPath, versionName);
            var r := Listing.Listing(fs, sdkPath, target, entries);
            forall i :: 0 <= i < |r| ==> (r[i].active <==> Paths.Key(r[i].path) == Paths.Key(target))
  {
    Listing.ListingActive(fs, sdkPath, SwitchTarget(fs, sdkPath, versionName), entries);
  }

  /** Concatenation of the downloaded chunks. */
  function Concat(chunks: seq<string>): string {
    if chunks == [] then "" else Concat(chunks[..|chunks| - 1]) + chunks[|chunks| - 1]
  }

  function Sizes(chunks: seq<string>): (r: seq<nat>)
    ensures |r| == |chunks|
    ensures forall i :: 0 <= i < |chunks| ==> r[i] == |chunks[i]|
  {
    seq(|chunks|, i requires 0 <= i < |chunks| => |chunks[i]|)
  }

  /** Creating the temporary archive file fails when a directory stands at
      its path or the temporary directory is missing. */
  predicate CreateFails(fs: Fs, tempDir: string, version: string) {
    IsDir(fs, Download.TempZipPath(tempDir, version)) || !IsDir(fs, tempDir)
  }

  /** The file system once the whole body has been copied into the temporary file. */
  function Downloaded(fs: Fs, tempDir: string, version: string, resp: Response): Fs {
    WriteFile(fs, Download.TempZipPath(tempDir, version), Concat(resp.body))
  }

  /** The file system once the previous installation directory has been removed. */
  function Cleared(fs: Fs, tempDir: string, sdkPath: string, version: string, resp: Response): Fs {
    RemoveAll(Downloaded(fs, tempDir, version, resp), Download.DestDir(sdkPath, version))
  }

  /** The outcome of extracting `archive` into `dest` over `cleared`. */
  predicate Installed(fs: Fs, err: Option<Error>, cleared: Fs, archive: Option<seq<Archive.ZipEntry>>, dest: string) {
    if archive.None? then err == Some(Io("OpenReader")) && fs == cleared
    else Archive.Extraction(fs, err) == Archive.UnzipEntries(cleared, archive.value, dest)
  }

  /** The progress values reported while copying a successful response. */
  function Reports(version: string, hasCallback: bool, percent: (int, int) -> int, net: Network): seq<int>
    requires net.get(Download.DownloadUrl(version)).Ok?
  {
    var url := Download.DownloadUrl(version);
    var resp := net.get(url).value;
    Progress.Run(Progress.EstimateTotal(resp.contentLength, net.head(url)), hasCallback, percent, Sizes(resp.body)).reported
  }

  class Manager {
    const sdkPath: string

    /** NewManager: the SDK directory is `<home>\.goswitch\sdk`, created if
        missing (a failure to create it is ignored). */
    constructor (home: string, host: Host.Machine)
      modifies host
      ensures sdkPath == Paths.JoinAll([home, ".goswitch", "sdk"])
      ensures var made := MkdirAll(old(host.fs), sdkPath);
              host.fs == if made.Ok? then made.value else old(host.fs)
      ensures host.registry == old(host.registry) && host.env == old(host.env)
    {
      sdkPath := Paths.JoinAll([home, ".goswitch", "sdk"]);
      new;
      var made := MkdirAll(host.fs, sdkPath);
      if made.Ok? {
        host.fs := made.value;
      }
    }

    /** ListLocalVersions; `entries` is what os.ReadDir(SDKPath) returned
        (nothing when it failed). The error is always nil. */
    method ListLocalVersions(host: Host.Machine, entries: seq<Listing.DirEntry>)
      returns (versions: seq<Listing.GoVersion>, err: Option<Error>)
      ensures versions == Listing.Listing(host.fs, sdkPath, host.Getenv("GOROOT"), entries)
      ensures err == None
    {
      var fs := host.fs;
      var currentGoroot := Text.Lower(Paths.Clean(host.Getenv("GOROOT")));
      // 1. the managed directory
      versions := ScanManaged(fs, sdkPath, currentGoroot, entries);
      // 2. the standard system locations, and GOROOT when not managed
      var stdPaths := [Listing.ProgramFilesGo, Listing.SystemGo];
      if currentGoroot != "" && !Text.Contains(currentGoroot, ".goswitch") {
        stdPaths := stdPaths + [currentGoroot];
      }
      assert stdPaths == Listing.Candidates(currentGoroot);
      var seenPaths := SeenPaths(versions);
      var system := ScanSystem(fs, currentGoroot, stdPaths, seenPaths);
      versions := versions + system;
      err := None;
    }

    /** SwitchVersion: resolves the target, checks that it exists, then
        writes GOROOT and Path under the registry key and GOROOT in the
        process environment, in that order. A failure part-way leaves the
        earlier writes in place. The file system is never changed. */
    method SwitchVersion(host: Host.Machine, versionName: string, faults: RegistryFaults)
      returns (err: Option<Error>)
      modifies host
      ensures host.fs == old(host.fs)
      ensures var target := SwitchTarget(old(host.fs), sdkPath, versionName);
              var written := old(host.registry)["GOROOT" := target];
              if !Exists(old(host.fs), target) then
                err == Some(VersionPathNotFound(target)) &&
                host.registry == old(host.registry) && host.env == old(host.env)
              else if faults.openFails then
                err == Some(RegistryOpenFailed) &&
                host.registry == old(host.registry) && host.env == old(host.env)
              else if faults.setGorootFails then
                err == Some(SetGorootFailed) &&
                host.registry == old(host.registry) && host.env == old(host.env)
              else if "Path" !in old(host.registry) then
                err == Some(ReadPathFailed) && host.registry == written && host.env == old(host.env)
              else if faults.setPathFails then
                err == Some(SetPathFailed) && host.registry == written && host.env == old(host.env)
              else
                err == None &&
                host.registry == written["Path" := PathEnv.UpdatedPath(old(host.registry)["Path"], target)] &&
                host.env == old(host.env)["GOROOT" := target]
    {
      var targetPath := versionName;
      if !Paths.IsAbs(versionName) {
        targetPath := Paths.Join(sdkPath, versionName);
      }
      var goSubDir := Paths.Join(targetPath, "go");
      if IsDir(host.fs, goSubDir) {
        targetPath := goSubDir;
      }
      if !Exists(host.fs, targetPath) {
        return Some(VersionPathNotFound(targetPath));
      }
      if faults.openFails {
        return Some(RegistryOpenFailed);
      }
      if faults.setGorootFails {
        return Some(SetGorootFailed);
      }
      host.registry := host.registry["GOROOT" := targetPath];
      if "Path" !in host.registry {
        return Some(ReadPathFailed);
      }
      var path := host.registry["Path"];
      var newPath := PathEnv.UpdatePath(path, targetPath);
      if faults.setPathFails {
        return Some(SetPathFailed);
      }
      host.registry := host.registry["Path" := newPath];
      host.env := host.env["GOROOT" := targetPath];
      return None;
    }

    /** UninstallVersion: removes the target when it is string-prefixed by
        the SDK directory, and otherwise reports an error and removes
        nothing. Whether the target is the active version is not checked. */
    method UninstallVersion(host: Host.Machine, versionName: string) returns (err: Option<Error>)
      modifies host
      ensures host.registry == old(host.registry) && host.env == old(host.env)
      ensures var target := UninstallTarget(sdkPath, versionName);
              if UninstallAllowed(sdkPath, target) then
                err == None && host.fs == RemoveAll(old(host.fs), target)
              else
                err == Some(NotManaged(sdkPath)) && host.fs == old(host.fs)
    {
      var targetPath := versionName;
      if !Paths.IsAbs(versionName) {
        targetPath := Paths.Join(sdkPath, versionName);
      }
      if !Text.HasPrefix(targetPath, sdkPath) {
        return Some(NotManaged(sdkPath));
      }
      host.fs := RemoveAll(host.fs, targetPath);
      return None;
    }

    /** DownloadVersion: checks the name, downloads the archive into
        `<TempDir>\<version>.zip` reporting progress through a WriteCounter,
        removes `<SDKPath>\<version>` and extracts the archive into it.
        `progress` lists the values passed to the callback; `hasCallback`
        says whether one was given; `percent` is the percentage computation;
        `archive` is what the zip reader finds in the downloaded file. */
    method DownloadVersion(host: Host.Machine, version: string, hasCallback: bool,
                           percent: (int, int) -> int, net: Network,
                           archive: Option<seq<Archive.ZipEntry>>)
      returns (err: Option<Error>, progress: seq<int>)
      modifies host
      ensures host.registry == old(host.registry) && host.env == old(host.env)
      ensures !Download.ValidName(version) ==>
                err == Some(InvalidVersionName) && host.fs == old(host.fs) && progress == []
      ensures Download.ValidName(version) && CreateFails(old(host.fs), host.tempDir, version) ==>
                err == Some(Io("Create")) && host.fs == old(host.fs) && progress == []
      ensures Download.ValidName(version) && !CreateFails(old(host.fs), host.tempDir, version) &&
              net.get(Download.DownloadUrl(version)).Err? ==>
                err == Some(net.get(Download.DownloadUrl(version)).error) && progress == [] &&
                host.fs == WriteFile(old(host.fs), Download.TempZipPath(host.tempDir, version), "")
      ensures Download.ValidName(version) && !CreateFails(old(host.fs), host.tempDir, version) &&
              net.get(Download.DownloadUrl(version)).Ok? ==>
                progress == Reports(version, hasCallback, percent, net)
      ensures Download.ValidName(version) && !CreateFails(old(host.fs), host.tempDir, version) &&
              net.get(Download.DownloadUrl(version)).Ok? && net.get(Download.DownloadUrl(version)).value.bodyFails ==>
                err == Some(Error.Network) &&
                host.fs == Downloaded(old(host.fs), host.tempDir, version, net.get(Download.DownloadUrl(version)).value)
      ensures Download.ValidName(version) && !CreateFails(old(host.fs), host.tempDir, version) &&
              net.get(Download.DownloadUrl(version)).Ok? && !net.get(Download.DownloadUrl(version)).value.bodyFails ==>
                Installed(host.fs, err, Cleared(old(host.fs), host.tempDir, sdkPath, version, net.get(Download.DownloadUrl(version)).value),
                          archive, Download.DestDir(sdkPath, version))
    {
      progress := [];
      if !Download.ValidName(version) {
        return Some(InvalidVersionName), progress;
      }
      var url := Download.DownloadUrl(version);
      var tempFile := Download.TempZipPath(host.tempDir, version);
      var fs := host.fs;
      if IsDir(fs, tempFile) || !IsDir(fs, host.tempDir) {
        return Some(Io("Create")), progress;
      }
      fs := WriteFile(fs, tempFile, "");
      var resp := net.get(url);
      if resp.Err? {
        host.fs := fs;
        return Some(resp.error), progress;
      }
      var data;
      data, progress := FetchBody(url, resp.value, net, hasCallback, percent);
      WriteFileTwice(old(host.fs), tempFile, "", data);
      fs := WriteFile(fs, tempFile, data);
      if resp.value.bodyFails {
        host.fs := fs;
        return Some(Error.Network), progress;
      }
      var dest := Download.DestDir(sdkPath, version);
      assert fs == Downloaded(old(host.fs), host.tempDir, version, resp.value);
      host.fs := RemoveAll(fs, dest);
      assert host.fs == Cleared(old(host.fs), host.tempDir, sdkPath, version, resp.value);
      ghost var cleared := host.fs;
      err := Archive.Unzip(host, archive, dest);
      assert Installed(host.fs, err, cleared, archive, dest);
    }
  }

  /** The first loop of ListLocalVersions. */
  method ScanManaged(fs: Fs, sdkPath: string, currentGoroot: string, entries: seq<Listing.DirEntry>)
    returns (versions: seq<Listing.GoVersion>)
    ensures versions == Listing.Managed(fs, sdkPath, currentGoroot, entries)
  {
    versions := [];
    for i := 0 to |entries|
      invariant versions == Listing.Managed(fs, sdkPath, currentGoroot, entries[..i])
    {
      var entry := entries[i];
      assert entries[..i + 1] == entries[..i] + [entry];
      Listing.ManagedSnoc(fs, sdkPath, currentGoroot, entries[..i], entry);
      if entry.isDir && Text.HasPrefix(entry.name, "go") {
        var fullPath := Paths.Join(sdkPath, entry.name);
        var goSubDir := Paths.Join(fullPath, "go");
        if IsDir(fs, goSubDir) {
          fullPath := goSubDir;
        }
        var isActive := Text.EqualFold(Paths.Clean(fullPath), currentGoroot);
        assert Listing.GoVersion(entry.name, fullPath, isActive) ==
               Listing.ManagedVersion(fs, sdkPath, currentGoroot, entry.name);
        versions := versions + [Listing.GoVersion(entry.name, fullPath, isActive)];
      }
    }
    assert entries[..|entries|] == entries;
  }

  /** The seenPaths map of ListLocalVersions, filled from the managed entries. */
  method SeenPaths(versions: seq<Listing.GoVersion>) returns (seenPaths: set<string>)
    ensures seenPaths == Listing.KeysOf(versions)
  {
    seenPaths := {};
    for k := 0 to |versions|
      invariant seenPaths == Listing.KeysOf(versions[..k])
    {
      assert versions[..k + 1] == versions[..k] + [versions[k]];
      Listing.KeysOfSnoc(versions[..k], versions[k]);
      seenPaths := seenPaths + {Text.Lower(Paths.Clean(versions[k].path))};
    }
    assert versions[..|versions|] == versions;
  }

  /** The second loop of ListLocalVersions. */
  method ScanSystem(fs: Fs, currentGoroot: string, stdPaths: seq<string>, seen: set<string>)
    returns (system: seq<Listing.GoVersion>)
    ensures system == Listing.SystemScan(fs, currentGoroot, stdPaths, seen)
  {
    system := [];
    var seenPaths := seen;
    ghost var probes := Listing.Probes(fs, stdPaths);
    ghost var chosen: seq<Listing.Probe> := [];
    for k := 0 to |stdPaths|
      invariant Listing.Scanned(probes, seen, currentGoroot, k, chosen, seenPaths, system)
    {
      var cleanP, found := ScanCandidate(fs, currentGoroot, stdPaths, k, seenPaths);
      if found.Some? {
        Listing.ScanTake(probes, seen, currentGoroot, k, chosen, seenPaths, system);
        chosen := chosen + [probes[k]];
        system := system + [found.value];
        seenPaths := seenPaths + {cleanP};
      } else {
        Listing.ScanSkip(probes, seen, currentGoroot, k, chosen, seenPaths, system);
      }
    }
    Listing.ScanDone(probes, seen, currentGoroot, chosen, seenPaths, system);
  }

  /** One pass of the second loop for the `k`-th candidate: its key, and the
      version listed for it unless the key was seen or nothing is there. */
  method ScanCandidate(fs: Fs, currentGoroot: string, stdPaths: seq<string>, k: nat, seenPaths: set<string>)
    returns (cleanP: string, found: Option<Listing.GoVersion>)
    requires k < |stdPaths|
    ensures cleanP == Listing.Probes(fs, stdPaths)[k].key
    ensures found.Some? <==> cleanP !in seenPaths && Listing.Probes(fs, stdPaths)[k].present
    ensures found.Some? ==> found.value == Listing.Describe(Listing.Probes(fs, stdPaths)[k], currentGoroot)
  {
    var p := stdPaths[k];
    cleanP := Paths.Key(p);
    found := None;
    if cleanP in seenPaths {
      return;
    }
    if Exists(fs, p) {
      var verName := DetectVersion(fs, p);
      var isActive := cleanP == currentGoroot;
      found := Some(Listing.GoVersion(verName, p, isActive));
    }
  }

  /** The version name of a system install: the trimmed VERSION file, else a
      base name starting with "go", else "System". */
  method DetectVersion(fs: Fs, p: string) returns (verName: string)
    ensures verName == Listing.DetectedName(fs, p)
  {
    verName := "System";
    var content := ReadFile(fs, Paths.Join(p, "VERSION"));
    if content.Some? {
      verName := Text.TrimSpace(content.value);
    } else {
      var base := Paths.Base(p);
      if Text.HasPrefix(base, "go") {
        verName := base;
      }
    }
  }


  /** The size estimate and body copy of a successful GET: the total is the
      announced length, else HEAD's length, else 140 MiB. */
  method FetchBody(url: string, resp: Response, net: Network, hasCallback: bool, percent: (int, int) -> int)
    returns (data: string, reported: seq<int>)
    ensures data == Concat(resp.body)
    ensures reported == Progress.Run(Progress.EstimateTotal(resp.contentLength, net.head(url)), hasCallback, percent, Sizes(resp.body)).reported
  {
    var total := resp.contentLength;
    if total <= 0 {
      var headLength := net.head(url);
      if headLength.Some? {
        total := headLength.value;
      }
    }
    if total <= 0 {
      total := 140 * 1024 * 1024;
    }
    data, reported := CopyWithProgress(total, hasCallback, percent, resp.body);
  }

  /** The body copy of a download: every chunk goes to the file and through
      a fresh WriteCounter; returns the bytes written and the reports made. */
  method CopyWithProgress(total: int, hasCallback: bool, percent: (int, int) -> int, body: seq<string>)
    returns (data: string, reported: seq<int>)
    ensures data == Concat(body)
    ensures reported == Progress.Run(total, hasCallback, percent, Sizes(body)).reported
  {
    var counter := new Progress.WriteCounter(total, hasCallback, percent);
    data := "";
    for i := 0 to |body|
      invariant data == Concat(body[..i])
      invariant counter.State() == Progress.Run(total, hasCallback, percent, Sizes(body[..i]))
      invariant counter.total == total && counter.hasCallback == hasCallback && counter.percent == percent
    {
      assert body[..i + 1][..i] == body[..i];
      assert Sizes(body[..i + 1]) == Sizes(body[..i]) + [|body[i]|];
      var _, _ := counter.Write(body[i]);
      data := data + body[i];
    }
    assert body[..|body|] == body;
    reported := counter.reported;
  }
}
