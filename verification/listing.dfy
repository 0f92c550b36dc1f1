/** The installed-version listing (ListLocalVersions in
    internal/manager/manager.go) as functions of the file system, the SDK
    directory, the GOROOT variable and the SDK directory's entries. */
module Listing {
  import opened Wrappers
  import Text
  import Paths
  import opened FileSystem

  /** A version as ListLocalVersions reports it. */
  datatype GoVersion = GoVersion(version: string, path: string, active: bool)

  /** An entry of os.ReadDir(SDKPath). */
  datatype DirEntry = DirEntry(name: string, isDir: bool)

  const ProgramFilesGo: string := "C:\\Program Files\\Go"
  const SystemGo: string := "C:\\Go"

  /** strings.ToLower(filepath.Clean(GOROOT)); "." when GOROOT is unset. */
  function CurrentGoroot(goroot: string): string {
    Paths.Key(goroot)
  }

  /** A directory entry whose name starts with "go". */
  predicate IsManagedEntry(e: DirEntry) {
    e.isDir && Text.HasPrefix(e.name, "go")
  }

  /** `<SDKPath>\<name>\go` when that directory exists, else `<SDKPath>\<name>`. */
  function ManagedPath(fs: Fs, sdkPath: string, name: string): string {
    var full := Paths.Join(sdkPath, name);
    var goSubDir := Paths.Join(full, "go");
    if IsDir(fs, goSubDir) then goSubDir else full
  }

  function ManagedVersion(fs: Fs, sdkPath: string, currentGoroot: string, name: string): GoVersion {
    var path := ManagedPath(fs, sdkPath, name);
    GoVersion(name, path, Text.EqualFold(Paths.Clean(path), currentGoroot))
  }

  /** The names of the managed SDK directories, in directory order. */
  function ManagedNames(entries: seq<DirEntry>): seq<string> {
    if entries == [] then []
    else
      var e := entries[|entries| - 1];
      ManagedNames(entries[..|entries| - 1]) + (if IsManagedEntry(e) then [e.name] else [])
  }

  /** The first loop: one entry per managed SDK directory, in directory order. */
  function Managed(fs: Fs, sdkPath: string, currentGoroot: string, entries: seq<DirEntry>): (m: seq<GoVersion>) {
    var names := ManagedNames(entries);
    seq(|names|, i requires 0 <= i < |names| => ManagedVersion(fs, sdkPath, currentGoroot, names[i]))
  }

  /** One more directory entry adds at most its own managed entry. */
  lemma ManagedSnoc(fs: Fs, sdkPath: string, currentGoroot: string, entries: seq<DirEntry>, e: DirEntry)
    ensures Managed(fs, sdkPath, currentGoroot, entries + [e]) ==
            Managed(fs, sdkPath, currentGoroot, entries) +
            (if IsManagedEntry(e) then [ManagedVersion(fs, sdkPath, currentGoroot, e.name)] else [])
  {
    assert (entries + [e])[..|entries|] == entries;
    var names := ManagedNames(entries);
    assert ManagedNames(entries + [e]) == names + (if IsManagedEntry(e) then [e.name] else []);
  }

  /** The standard system locations, then GOROOT itself unless it is under
      the managed directory. */
  function Candidates(currentGoroot: string): seq<string> {
    [ProgramFilesGo, SystemGo] +
    (if currentGoroot != "" && !Text.Contains(currentGoroot, ".goswitch") then [currentGoroot] else [])
  }

  /** The trimmed VERSION file, else the base name when it starts with "go",
      else "System". */
  function DetectedName(fs: Fs, p: string): string {
    match ReadFile(fs, Paths.Join(p, "VERSION"))
    case Some(content) => Text.TrimSpace(content)
    case None =>
      var base := Paths.Base(p);
      if Text.HasPrefix(base, "go") then base else "System"
  }

  /** What the second loop finds out about one candidate location: its
      seenPaths key, whether os.Stat finds it, and the name it would get. */
  datatype Probe = Probe(path: string, key: string, present: bool, name: string)

  function ProbeOf(fs: Fs, p: string): Probe {
    Probe(p, Paths.Key(p), Exists(fs, p), DetectedName(fs, p))
  }

  /** The probe of each candidate, in candidate order. */
  function Probes(fs: Fs, candidates: seq<string>): seq<Probe> {
    seq(|candidates|, i requires 0 <= i < |candidates| => ProbeOf(fs, candidates[i]))
  }

  /** The candidates the second loop lists, in order: each one present on
      disk whose key is not yet in `seen`; a listed key joins `seen`. */
  function Chosen(probes: seq<Probe>, seen: set<string>): seq<Probe>
    decreases |probes|
  {
    if probes == [] then []
    else
      var pr := probes[0];
      if pr.key in seen || !pr.present then Chosen(probes[1..], seen)
      else [pr] + Chosen(probes[1..], seen + {pr.key})
  }

  /** The version the second loop appends for a listed candidate. */
  function Describe(pr: Probe, currentGoroot: string): GoVersion {
    GoVersion(pr.name, pr.path, pr.key == currentGoroot)
  }

  /** The versions appended for the chosen candidates, in order. */
  function Describes(chosen: seq<Probe>, currentGoroot: string): (r: seq<GoVersion>)
    ensures |r| == |chosen|
    ensures forall i :: 0 <= i < |chosen| ==> r[i] == Describe(chosen[i], currentGoroot)
  {
    if chosen == [] then []
    else Describes(chosen[..|chosen| - 1], currentGoroot) + [Describe(chosen[|chosen| - 1], currentGoroot)]
  }

  /** The second loop: one version per chosen candidate. */
  function SystemScan(fs: Fs, currentGoroot: string, candidates: seq<string>, seen: set<string>): seq<GoVersion> {
    Describes(Chosen(Probes(fs, candidates), seen), currentGoroot)
  }

  /** One step of the second loop. */
  lemma ChosenStep(probes: seq<Probe>, seen: set<string>)
    requires probes != []
    ensures Chosen(probes, seen) ==
              if probes[0].key in seen || !probes[0].present then Chosen(probes[1..], seen)
              else [probes[0]] + Chosen(probes[1..], seen + {probes[0].key})
  {
  }

  /** The same step, stated at position `k` of the whole probe list. */
  lemma ChosenAt(probes: seq<Probe>, k: nat, seen: set<string>)
    requires k < |probes|
    ensures Chosen(probes[k..], seen) ==
              if probes[k].key in seen || !probes[k].present then Chosen(probes[k + 1..], seen)
              else [probes[k]] + Chosen(probes[k + 1..], seen + {probes[k].key})
  {
    ChosenStep(probes[k..], seen);
    assert probes[k..][0] == probes[k];
    assert probes[k..][1..] == probes[k + 1..];
  }

  /** The loop invariant of the second loop carried past position `k`: the
      probe is skipped, or appended with its key added to `seen`. */
  lemma ChosenAdvance(probes: seq<Probe>, k: nat, seen: set<string>, chosen: seq<Probe>, seenPaths: set<string>)
    requires k < |probes|
    requires Chosen(probes, seen) == chosen + Chosen(probes[k..], seenPaths)
    ensures probes[k].key in seenPaths || !probes[k].present ==>
              Chosen(probes, seen) == chosen + Chosen(probes[k + 1..], seenPaths)
    ensures probes[k].key !in seenPaths && probes[k].present ==>
              Chosen(probes, seen) == (chosen + [probes[k]]) + Chosen(probes[k + 1..], seenPaths + {probes[k].key})
  {
    ChosenAt(probes, k, seenPaths);
    var rest := Chosen(probes[k + 1..], seenPaths + {probes[k].key});
    assert chosen + ([probes[k]] + rest) == (chosen + [probes[k]]) + rest;
  }

  /** Describing one more chosen probe appends its version. */
  lemma DescribesSnoc(chosen: seq<Probe>, pr: Probe, currentGoroot: string)
    ensures Describes(chosen + [pr], currentGoroot) == Describes(chosen, currentGoroot) + [Describe(pr, currentGoroot)]
  {
    assert (chosen + [pr])[..|chosen|] == chosen;
  }

  /** The second loop's state after the first `k` probes: the probes
      chosen so far, the keys seen, and the versions listed for them. */
  ghost predicate Scanned(probes: seq<Probe>, seen: set<string>, currentGoroot: string, k: nat,
                          chosen: seq<Probe>, seenPaths: set<string>, system: seq<GoVersion>) {
    && k <= |probes|
    && Chosen(probes, seen) == chosen + Chosen(probes[k..], seenPaths)
    && system == Describes(chosen, currentGoroot)
  }

  /** A probe whose key was seen, or with nothing there, is skipped. */
  lemma ScanSkip(probes: seq<Probe>, seen: set<string>, currentGoroot: string, k: nat,
                 chosen: seq<Probe>, seenPaths: set<string>, system: seq<GoVersion>)
    requires k < |probes| && Scanned(probes, seen, currentGoroot, k, chosen, seenPaths, system)
    requires probes[k].key in seenPaths || !probes[k].present
    ensures Scanned(probes, seen, currentGoroot, k + 1, chosen, seenPaths, system)
  {
    ChosenAdvance(probes, k, seen, chosen, seenPaths);
  }

  /** Any other probe is listed and its key marked seen. */
  lemma ScanTake(probes: seq<Probe>, seen: set<string>, currentGoroot: string, k: nat,
                 chosen: seq<Probe>, seenPaths: set<string>, system: seq<GoVersion>)
    requires k < |probes| && Scanned(probes, seen, currentGoroot, k, chosen, seenPaths, system)
    requires probes[k].key !in seenPaths && probes[k].present
    ensures Scanned(probes, seen, currentGoroot, k + 1, chosen + [probes[k]], seenPaths + {probes[k].key},
                    system + [Describe(probes[k], currentGoroot)])
  {
    ChosenAdvance(probes, k, seen, chosen, seenPaths);
    DescribesSnoc(chosen, probes[k], currentGoroot);
  }

  /** After the last probe the listed versions are those of the chosen probes. */
  lemma ScanDone(probes: seq<Probe>, seen: set<string>, currentGoroot: string,
                 chosen: seq<Probe>, seenPaths: set<string>, system: seq<GoVersion>)
    requires Scanned(probes, seen, currentGoroot, |probes|, chosen, seenPaths, system)
    ensures system == Describes(Chosen(probes, seen), currentGoroot)
  {
    assert probes[|probes|..] == [];
  }

  function ChosenKeys(chosen: seq<Probe>): set<string> {
    set i | 0 <= i < |chosen| :: chosen[i].key
  }

  /** No chosen candidate has a key that was seen before the loop. */
  lemma {:induction false} ChosenUnseen(probes: seq<Probe>, seen: set<string>)
    ensures var c := Chosen(probes, seen);
            forall i :: 0 <= i < |c| ==> c[i].key !in seen
    decreases |probes|
  {
    if probes != [] {
      ChosenStep(probes, seen);
      var pr := probes[0];
      if pr.key in seen || !pr.present {
        ChosenUnseen(probes[1..], seen);
      } else {
        ChosenUnseen(probes[1..], seen + {pr.key});
      }
    }
  }

  /** The chosen candidates have pairwise different keys. */
  lemma {:induction false} ChosenDistinct(probes: seq<Probe>, seen: set<string>)
    ensures var c := Chosen(probes, seen);
            forall i, j :: 0 <= i < j < |c| ==> c[i].key != c[j].key
    decreases |probes|
  {
    if probes != [] {
      ChosenStep(probes, seen);
      var pr := probes[0];
      if pr.key in seen || !pr.present {
        ChosenDistinct(probes[1..], seen);
      } else {
        var rest := Chosen(probes[1..], seen + {pr.key});
        ChosenDistinct(probes[1..], seen + {pr.key});
        ChosenUnseen(probes[1..], seen + {pr.key});
        var c := Chosen(probes, seen);
        assert c == [pr] + rest;
        forall i, j | 0 <= i < j < |c| ensures c[i].key != c[j].key {
          assert c[j] == rest[j - 1];
          if i > 0 {
            assert c[i] == rest[i - 1];
          }
        }
      }
    }
  }

  /** Every chosen candidate is one of the probes, and present. */
  lemma {:induction false} ChosenPresent(probes: seq<Probe>, seen: set<string>)
    ensures forall i :: 0 <= i < |Chosen(probes, seen)| ==>
              Chosen(probes, seen)[i] in probes && Chosen(probes, seen)[i].present
    decreases |probes|
  {
    if probes != [] {
      ChosenStep(probes, seen);
      var pr := probes[0];
      var rest := probes[1..];
      assert forall q :: q in rest ==> q in probes;
      if pr.key in seen || !pr.present {
        ChosenPresent(rest, seen);
      } else {
        ChosenPresent(rest, seen + {pr.key});
      }
    }
  }

  /** Every present candidate ends up listed: its key was seen already or is
      the key of a chosen one. */
  lemma {:induction false} ChosenComplete(probes: seq<Probe>, seen: set<string>)
    ensures forall pr :: pr in probes && pr.present ==>
              pr.key in seen || pr.key in ChosenKeys(Chosen(probes, seen))
    decreases |probes|
  {
    if probes != [] {
      ChosenStep(probes, seen);
      var pr := probes[0];
      var c := Chosen(probes, seen);
      assert forall q :: q in probes ==> q == pr || q in probes[1..];
      if pr.key in seen || !pr.present {
        ChosenComplete(probes[1..], seen);
      } else {
        var rest := Chosen(probes[1..], seen + {pr.key});
        ChosenComplete(probes[1..], seen + {pr.key});
        assert c == [pr] + rest;
        assert c[0] == pr;
        forall i | 0 <= i < |rest| ensures rest[i].key in ChosenKeys(c) {
          assert c[i + 1] == rest[i];
        }
      }
    }
  }

  /** The probes of the candidates carry the key and presence of their path. */
  lemma ProbesFaithful(fs: Fs, candidates: seq<string>)
    ensures forall pr :: pr in Probes(fs, candidates) ==>
              pr.path in candidates && pr.key == Paths.Key(pr.path) && pr.present == Exists(fs, pr.path)
  {
    var ps := Probes(fs, candidates);
    forall pr | pr in ps
      ensures pr.path in candidates && pr.key == Paths.Key(pr.path) && pr.present == Exists(fs, pr.path)
    {
      var j :| 0 <= j < |ps| && ps[j] == pr;
    }
  }

  /** The seenPaths keys of a list of versions. */
  function KeysOf(vs: seq<GoVersion>): set<string> {
    set i | 0 <= i < |vs| :: Paths.Key(vs[i].path)
  }

  /** One more version adds its own key. */
  lemma KeysOfSnoc(vs: seq<GoVersion>, v: GoVersion)
    ensures KeysOf(vs + [v]) == KeysOf(vs) + {Paths.Key(v.path)}
  {
    var w := vs + [v];
    assert w[|vs|] == v;
    forall k | k in KeysOf(w) ensures k in KeysOf(vs) + {Paths.Key(v.path)} {
      var i :| 0 <= i < |w| && k == Paths.Key(w[i].path);
      if i < |vs| {
        assert w[i] == vs[i];
      }
    }
    forall k | k in KeysOf(vs) ensures k in KeysOf(w) {
      var i :| 0 <= i < |vs| && k == Paths.Key(vs[i].path);
      assert w[i] == vs[i];
    }
  }

  /** The managed entries followed by the system entries. */
  function Listing(fs: Fs, sdkPath: string, goroot: string, entries: seq<DirEntry>): seq<GoVersion> {
    var currentGoroot := CurrentGoroot(goroot);
    var managed := Managed(fs, sdkPath, currentGoroot, entries);
    managed + SystemScan(fs, currentGoroot, Candidates(currentGoroot), KeysOf(managed))
  }

  function ManagedCount(fs: Fs, sdkPath: string, goroot: string, entries: seq<DirEntry>): nat {
    |Managed(fs, sdkPath, CurrentGoroot(goroot), entries)|
  }

  predicate DistinctKeys(vs: seq<GoVersion>) {
    forall i, j :: 0 <= i < j < |vs| ==> Paths.Key(vs[i].path) != Paths.Key(vs[j].path)
  }

  /** The managed names are exactly the names of the SDK directories that
      start with "go", in directory order. */
  lemma {:induction false} ManagedNamesExact(entries: seq<DirEntry>)
    ensures var names := ManagedNames(entries);
            && (forall i :: 0 <= i < |names| ==>
                  exists j :: 0 <= j < |entries| && IsManagedEntry(entries[j]) && names[i] == entries[j].name)
            && (forall j :: 0 <= j < |entries| && IsManagedEntry(entries[j]) ==> entries[j].name in names)
    decreases |entries|
  {
    if entries != [] {
      var init := entries[..|entries| - 1];
      ManagedNamesExact(init);
      var names := ManagedNames(entries);
      var ni := ManagedNames(init);
      var last := entries[|entries| - 1];
      assert names == ni + (if IsManagedEntry(last) then [last.name] else []);
      forall i | 0 <= i < |names|
        ensures exists j :: 0 <= j < |entries| && IsManagedEntry(entries[j]) && names[i] == entries[j].name
      {
        if i < |ni| {
          assert names[i] == ni[i];
          var j :| 0 <= j < |init| && IsManagedEntry(init[j]) && ManagedNames(init)[i] == init[j].name;
          assert entries[j] == init[j];
        } else {
          assert IsManagedEntry(entries[|entries| - 1]);
        }
      }
      forall j | 0 <= j < |entries| && IsManagedEntry(entries[j]) ensures entries[j].name in names {
        if j < |init| {
          assert entries[j] == init[j];
        }
      }
    }
  }

  /** The names of the SDK directory entries that are directories starting
      with "go". */
  function GoDirNames(entries: seq<DirEntry>): set<string> {
    set j | 0 <= j < |entries| && IsManagedEntry(entries[j]) :: entries[j].name
  }

  /** The versions of the managed entries are exactly the names of the SDK
      directories that start with "go". */
  lemma ManagedEntries(fs: Fs, sdkPath: string, currentGoroot: string, entries: seq<DirEntry>)
    ensures var m := Managed(fs, sdkPath, currentGoroot, entries);
            (set i | 0 <= i < |m| :: m[i].version) == GoDirNames(entries)
  {
    ManagedVersions(fs, sdkPath, currentGoroot, entries);
    VersionsNamed(Managed(fs, sdkPath, currentGoroot, entries), entries);
  }

  /** The i-th managed version carries the i-th managed name. */
  lemma ManagedVersions(fs: Fs, sdkPath: string, currentGoroot: string, entries: seq<DirEntry>)
    ensures |Managed(fs, sdkPath, currentGoroot, entries)| == |ManagedNames(entries)|
    ensures forall i :: 0 <= i < |ManagedNames(entries)| ==>
              Managed(fs, sdkPath, currentGoroot, entries)[i].version == ManagedNames(entries)[i]
  {
  }

  /** Versions named after exactly the managed names carry exactly the
      names of the managed entries. */
  lemma VersionsNamed(m: seq<GoVersion>, entries: seq<DirEntry>)
    requires |m| == |ManagedNames(entries)|
    requires forall i :: 0 <= i < |m| ==> m[i].version == ManagedNames(entries)[i]
    ensures (set i | 0 <= i < |m| :: m[i].version) == GoDirNames(entries)
  {
    var names := ManagedNames(entries);
    ManagedNamesExact(entries);
    var versions := set i | 0 <= i < |m| :: m[i].version;
    forall v | v in versions ensures v in GoDirNames(entries) {
      var i :| 0 <= i < |m| && m[i].version == v;
      var name := names[i];
      assert exists j :: 0 <= j < |entries| && IsManagedEntry(entries[j]) && name == entries[j].name;
      var j :| 0 <= j < |entries| && IsManagedEntry(entries[j]) && name == entries[j].name;
      assert entries[j].name == v;
    }
    forall v | v in GoDirNames(entries) ensures v in versions {
      var j :| 0 <= j < |entries| && IsManagedEntry(entries[j]) && entries[j].name == v;
      var i :| 0 <= i < |names| && names[i] == v;
      assert m[i].version == v;
    }
  }

  /** A managed entry sits at `<sdk>\<name>\go` when that directory exists,
      else at `<sdk>\<name>`. */
  lemma ManagedPaths(fs: Fs, sdkPath: string, currentGoroot: string, entries: seq<DirEntry>)
    ensures var m := Managed(fs, sdkPath, currentGoroot, entries);
            forall i :: 0 <= i < |m| ==>
              var sub := Paths.Join(Paths.Join(sdkPath, m[i].version), "go");
              m[i].path == if IsDir(fs, sub) then sub else Paths.Join(sdkPath, m[i].version)
  {
  }

  /** The system entries are the descriptions of the chosen probes, and
      each chosen probe is a present candidate with its own key. */
  lemma SystemScanChosen(fs: Fs, currentGoroot: string, candidates: seq<string>, seen: set<string>)
    ensures var c := Chosen(Probes(fs, candidates), seen);
            var s := SystemScan(fs, currentGoroot, candidates, seen);
            && |s| == |c|
            && forall i :: 0 <= i < |s| ==>
                 && s[i].path == c[i].path
                 && s[i].active == (c[i].key == currentGoroot)
                 && c[i].key == Paths.Key(s[i].path)
                 && s[i].path in candidates
                 && Exists(fs, s[i].path)
  {
    var ps := Probes(fs, candidates);
    var c := Chosen(ps, seen);
    var s := SystemScan(fs, currentGoroot, candidates, seen);
    assert s == Describes(c, currentGoroot);
    ChosenPresent(ps, seen);
    forall i | 0 <= i < |s|
      ensures s[i].path == c[i].path && s[i].active == (c[i].key == currentGoroot)
      ensures c[i].key == Paths.Key(s[i].path) && s[i].path in candidates && Exists(fs, s[i].path)
    {
      assert s[i] == Describe(c[i], currentGoroot);
      assert c[i] in ps && c[i].present;
      var j :| 0 <= j < |ps| && ps[j] == c[i];
    }
  }

  /** A system entry is a candidate present on disk whose key was not seen;
      keys of system entries are new and pairwise different. */
  lemma SystemScanFresh(fs: Fs, currentGoroot: string, candidates: seq<string>, seen: set<string>)
    ensures var s := SystemScan(fs, currentGoroot, candidates, seen);
            && DistinctKeys(s)
            && (forall i :: 0 <= i < |s| ==> Paths.Key(s[i].path) !in seen)
            && (forall i :: 0 <= i < |s| ==> s[i].path in candidates && Exists(fs, s[i].path))
            && (forall i :: 0 <= i < |s| ==> (s[i].active <==> Paths.Key(s[i].path) == currentGoroot))
  {
    var ps := Probes(fs, candidates);
    var c := Chosen(ps, seen);
    var s := SystemScan(fs, currentGoroot, candidates, seen);
    ChosenUnseen(ps, seen);
    ChosenDistinct(ps, seen);
    SystemScanChosen(fs, currentGoroot, candidates, seen);
    forall i, j | 0 <= i < j < |s| ensures Paths.Key(s[i].path) != Paths.Key(s[j].path) {
      assert c[i].key != c[j].key;
    }
  }

  /** Every candidate present on disk ends up listed: either it was seen
      already or some system entry has its key. */
  lemma SystemScanComplete(fs: Fs, currentGoroot: string, candidates: seq<string>, seen: set<string>)
    ensures var s := SystemScan(fs, currentGoroot, candidates, seen);
            forall p :: p in candidates && Exists(fs, p) ==>
              Paths.Key(p) in seen || Paths.Key(p) in KeysOf(s)
  {
    var ps := Probes(fs, candidates);
    var c := Chosen(ps, seen);
    var s := SystemScan(fs, currentGoroot, candidates, seen);
    ChosenComplete(ps, seen);
    SystemScanChosen(fs, currentGoroot, candidates, seen);
    forall p | p in candidates && Exists(fs, p) && Paths.Key(p) !in seen
      ensures Paths.Key(p) in KeysOf(s)
    {
      var j :| 0 <= j < |candidates| && candidates[j] == p;
      assert ps[j] in ps;
      assert ps[j].key in ChosenKeys(c);
      var i :| 0 <= i < |c| && c[i].key == ps[j].key;
      assert Paths.Key(s[i].path) == Paths.Key(p);
    }
  }


  /** Managed entries are active exactly when their cleaned path equals
      GOROOT ignoring case. */
  lemma ManagedActive(fs: Fs, sdkPath: string, goroot: string, entries: seq<DirEntry>)
    ensures var m := Managed(fs, sdkPath, CurrentGoroot(goroot), entries);
            forall i :: 0 <= i < |m| ==> (m[i].active <==> Paths.Key(m[i].path) == CurrentGoroot(goroot))
  {
    Text.LowerIdempotent(Paths.Clean(goroot));
  }

  /** The system part of the listing. */
  function SystemPart(fs: Fs, sdkPath: string, goroot: string, entries: seq<DirEntry>): seq<GoVersion> {
    var currentGoroot := CurrentGoroot(goroot);
    SystemScan(fs, currentGoroot, Candidates(currentGoroot), KeysOf(Managed(fs, sdkPath, currentGoroot, entries)))
  }

  /** An entry of the listing is active exactly when its lowercased cleaned
      path is the lowercased cleaned GOROOT. */
  lemma ListingActive(fs: Fs, sdkPath: string, goroot: string, entries: seq<DirEntry>)
    ensures var r := Listing(fs, sdkPath, goroot, entries);
            forall i :: 0 <= i < |r| ==> (r[i].active <==> Paths.Key(r[i].path) == CurrentGoroot(goroot))
  {
    var cg := CurrentGoroot(goroot);
    var m := Managed(fs, sdkPath, cg, entries);
    var s := SystemPart(fs, sdkPath, goroot, entries);
    ManagedActive(fs, sdkPath, goroot, entries);
    SystemScanFresh(fs, cg, Candidates(cg), KeysOf(m));
    assert Listing(fs, sdkPath, goroot, entries) == m + s;
    ActiveAppend(m, s, cg);
  }

  /** Managed entries come first, and no system entry shares its key with
      any entry before it. */
  lemma ListingSystemKeysFresh(fs: Fs, sdkPath: string, goroot: string, entries: seq<DirEntry>)
    ensures var r := Listing(fs, sdkPath, goroot, entries);
            var n := ManagedCount(fs, sdkPath, goroot, entries);
            && n <= |r|
            && r[..n] == Managed(fs, sdkPath, CurrentGoroot(goroot), entries)
            && forall i, j :: 0 <= i < j < |r| && n <= j ==> Paths.Key(r[i].path) != Paths.Key(r[j].path)
  {
    var cg := CurrentGoroot(goroot);
    var m := Managed(fs, sdkPath, cg, entries);
    var s := SystemPart(fs, sdkPath, goroot, entries);
    SystemScanFresh(fs, cg, Candidates(cg), KeysOf(m));
    assert Listing(fs, sdkPath, goroot, entries) == m + s;
    FreshAppend(m, s);
  }

  /** The listing is the managed entries followed by the system entries, and
      every system entry is a candidate present on disk. */
  lemma ListingSystemFound(fs: Fs, sdkPath: string, goroot: string, entries: seq<DirEntry>)
    ensures Listing(fs, sdkPath, goroot, entries)
            == Managed(fs, sdkPath, CurrentGoroot(goroot), entries) + SystemPart(fs, sdkPath, goroot, entries)
    ensures var s := SystemPart(fs, sdkPath, goroot, entries);
            forall j :: 0 <= j < |s| ==> s[j].path in Candidates(CurrentGoroot(goroot)) && Exists(fs, s[j].path)
  {
    var cg := CurrentGoroot(goroot);
    SystemScanFresh(fs, cg, Candidates(cg), KeysOf(Managed(fs, sdkPath, cg, entries)));
  }

  /** Every candidate present on disk has its key in the listing. */
  lemma ListingComplete(fs: Fs, sdkPath: string, goroot: string, entries: seq<DirEntry>)
    ensures var r := Listing(fs, sdkPath, goroot, entries);
            forall c :: c in Candidates(CurrentGoroot(goroot)) && Exists(fs, c) ==> Paths.Key(c) in KeysOf(r)
  {
    var cg := CurrentGoroot(goroot);
    var m := Managed(fs, sdkPath, cg, entries);
    var s := SystemPart(fs, sdkPath, goroot, entries);
    SystemScanComplete(fs, cg, Candidates(cg), KeysOf(m));
    assert Listing(fs, sdkPath, goroot, entries) == m + s;
    KeysOfAppend(m, s);
  }

  /** When the managed entries have different keys, no two entries of the
      listing share a key, and at most one entry is active. */
  lemma AtMostOneActive(fs: Fs, sdkPath: string, goroot: string, entries: seq<DirEntry>)
    requires DistinctKeys(Managed(fs, sdkPath, CurrentGoroot(goroot), entries))
    ensures DistinctKeys(Listing(fs, sdkPath, goroot, entries))
    ensures var r := Listing(fs, sdkPath, goroot, entries);
            forall i, j :: 0 <= i < |r| && 0 <= j < |r| && r[i].active && r[j].active ==> i == j
  {
    var cg := CurrentGoroot(goroot);
    var m := Managed(fs, sdkPath, cg, entries);
    var s := SystemPart(fs, sdkPath, goroot, entries);
    SystemScanFresh(fs, cg, Candidates(cg), KeysOf(m));
    assert Listing(fs, sdkPath, goroot, entries) == m + s;
    FreshAppend(m, s);
    ListingActive(fs, sdkPath, goroot, entries);
    OneActive(m + s, cg);
  }

  /** The keys of a concatenation are the keys of both parts. */
  lemma KeysOfAppend(a: seq<GoVersion>, b: seq<GoVersion>)
    ensures KeysOf(a + b) == KeysOf(a) + KeysOf(b)
  {
    var ab := a + b;
    forall k | k in KeysOf(ab) ensures k in KeysOf(a) + KeysOf(b) {
      var i :| 0 <= i < |ab| && Paths.Key(ab[i].path) == k;
      if i < |a| { assert ab[i] == a[i]; } else { assert ab[i] == b[i - |a|]; }
    }
    forall k | k in KeysOf(a) + KeysOf(b) ensures k in KeysOf(ab) {
      if k in KeysOf(a) {
        var i :| 0 <= i < |a| && Paths.Key(a[i].path) == k;
        assert ab[i] == a[i];
      } else {
        var i :| 0 <= i < |b| && Paths.Key(b[i].path) == k;
        assert ab[|a| + i] == b[i];
      }
    }
  }

  /** Active-exactly-at-the-GOROOT-key holds of a concatenation when it holds
      of both parts. */
  lemma ActiveAppend(a: seq<GoVersion>, b: seq<GoVersion>, currentGoroot: string)
    requires forall i :: 0 <= i < |a| ==> (a[i].active <==> Paths.Key(a[i].path) == currentGoroot)
    requires forall i :: 0 <= i < |b| ==> (b[i].active <==> Paths.Key(b[i].path) == currentGoroot)
    ensures forall i :: 0 <= i < |a + b| ==> ((a + b)[i].active <==> Paths.Key((a + b)[i].path) == currentGoroot)
  {
    forall i | 0 <= i < |a + b|
      ensures (a + b)[i].active <==> Paths.Key((a + b)[i].path) == currentGoroot
    {
      if i < |a| { assert (a + b)[i] == a[i]; } else { assert (a + b)[i] == b[i - |a|]; }
    }
  }

  /** Appending entries with new, pairwise different keys: the first part
      stays in front, no appended entry repeats an earlier key, and distinct
      keys in the first part give distinct keys overall. */
  lemma FreshAppend(a: seq<GoVersion>, b: seq<GoVersion>)
    requires DistinctKeys(b)
    requires forall i :: 0 <= i < |b| ==> Paths.Key(b[i].path) !in KeysOf(a)
    ensures (a + b)[..|a|] == a
    ensures forall i, j :: 0 <= i < j < |a + b| && |a| <= j ==> Paths.Key((a + b)[i].path) != Paths.Key((a + b)[j].path)
    ensures DistinctKeys(a) ==> DistinctKeys(a + b)
  {
    var ab := a + b;
    assert ab[..|a|] == a;
    forall i, j | 0 <= i < j < |ab| && |a| <= j
      ensures Paths.Key(ab[i].path) != Paths.Key(ab[j].path)
    {
      assert ab[j] == b[j - |a|];
      if i >= |a| {
        assert ab[i] == b[i - |a|];
      } else {
        assert ab[i] == a[i];
        assert Paths.Key(a[i].path) in KeysOf(a);
      }
    }
    if DistinctKeys(a) {
      forall i, j | 0 <= i < j < |ab| ensures Paths.Key(ab[i].path) != Paths.Key(ab[j].path) {
        if j < |a| { assert ab[i] == a[i] && ab[j] == a[j]; }
      }
    }
  }

  /** With distinct keys, at most one entry can carry the GOROOT key, so at
      most one entry is active. */
  lemma OneActive(r: seq<GoVersion>, currentGoroot: string)
    requires DistinctKeys(r)
    requires forall i :: 0 <= i < |r| ==> (r[i].active <==> Paths.Key(r[i].path) == currentGoroot)
    ensures forall i, j :: 0 <= i < |r| && 0 <= j < |r| && r[i].active && r[j].active ==> i == j
  {
    forall i, j | 0 <= i < |r| && 0 <= j < |r| && r[i].active && r[j].active ensures i == j {
      assert Paths.Key(r[i].path) == Paths.Key(r[j].path);
    }
  }

  /** With GOROOT unset, Clean turns "" into ".", which passes the emptiness
      test, so the current directory becomes the third candidate. */
  lemma UnsetGorootScansCurrentDirectory()
    ensures CurrentGoroot("") == "."
    ensures Candidates(CurrentGoroot("")) == [ProgramFilesGo, SystemGo, "."]
  {
    Paths.CleanEmpty();
    assert Text.Lower(".") == ".";
    Text.NotContainsLonger(".", ".goswitch");
  }
}
