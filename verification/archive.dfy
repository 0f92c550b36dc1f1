/** Extraction of a downloaded zip archive (unzip in
    internal/manager/downloader.go). The archive is given as its list of
    entries; reading the zip format is outside the model. */
module Archive {
  import opened Wrappers
  import Text
  import Paths
  import opened FileSystem
  import Host

  /** What reading an entry's data gives: all of it, a failure of f.Open
      before anything is read, or a read error inside io.Copy after the
      bytes `copied` have reached the file. */
  datatype Payload = Readable(data: string) | Unopenable | Unreadable(copied: string)

  /** The bytes an entry leaves in its truncated output file. */
  function Written(p: Payload): string {
    match p
    case Readable(data) => data
    case Unopenable => ""
    case Unreadable(copied) => copied
  }

  /** An archive entry: its name, whether it is a directory, and its data. */
  datatype ZipEntry = ZipEntry(name: string, isDir: bool, payload: Payload)

  /** The file system after extraction, and the error that stopped it. */
  datatype Extraction = Extraction(fs: Fs, err: Option<Error>)

  /** filepath.Join(dest, f.Name) */
  function FilePath(dest: string, name: string): string {
    Paths.Join(dest, name)
  }

  /** The zip-slip guard: the joined path starts with the cleaned
      destination followed by a separator. */
  predicate Guarded(dest: string, name: string) {
    Text.HasPrefix(FilePath(dest, name), Paths.Clean(dest) + [Paths.Separator])
  }

  /** Entry `e` is a file entry that passed the guard and whose path has key `k`. */
  predicate WritesKey(dest: string, e: ZipEntry, k: string) {
    !e.isDir && Guarded(dest, e.name) && k == Paths.Key(FilePath(dest, e.name))
  }

  /** Directory `d` is `e`'s path, or one of the directories above it or
      above its parent, for an entry that passed the guard. */
  predicate CreatesDir(dest: string, e: ZipEntry, d: string) {
    Guarded(dest, e.name) &&
    (d in Ancestry(FilePath(dest, e.name)) || d in Ancestry(Paths.Dir(FilePath(dest, e.name))))
  }

  /** The entries processed in archive order until the first error. */
  function UnzipEntries(fs: Fs, es: seq<ZipEntry>, dest: string): Extraction
    decreases |es|
  {
    if es == [] then Extraction(fs, None)
    else
      var f := es[0];
      var fpath := FilePath(dest, f.name);
      if !Guarded(dest, f.name) then Extraction(fs, Some(IllegalFilePath(fpath)))
      else if f.isDir then
        // the error of MkdirAll is ignored for directory entries
        var next := match MkdirAll(fs, fpath) case Ok(made) => made case Err(_) => fs;
        UnzipEntries(next, es[1..], dest)
      else
        match MkdirAll(fs, Paths.Dir(fpath))
        case Err(e) => Extraction(fs, Some(e))
        case Ok(made) =>
          if IsDir(made, fpath) then Extraction(made, Some(Io("OpenFile")))
          else
            var written := WriteFile(made, fpath, Written(f.payload));
            match f.payload
            case Readable(_) => UnzipEntries(written, es[1..], dest)
            case Unopenable => Extraction(written, Some(Io("Open")))
            case Unreadable(_) => Extraction(written, Some(Io("Copy")))
  }

  /** Extraction of `a + b` is extraction of `a`, then, unless that failed,
      of `b` on its result: entries go in order, the first error stops the
      loop, and nothing done before it is undone. */
  lemma {:induction false} UnzipCompose(fs: Fs, a: seq<ZipEntry>, b: seq<ZipEntry>, dest: string)
    ensures UnzipEntries(fs, a + b, dest) ==
            var r := UnzipEntries(fs, a, dest);
            if r.err.Some? then r else UnzipEntries(r.fs, b, dest)
    decreases |a|
  {
    if a == [] {
      assert a + b == b;
    } else {
      assert (a + b)[0] == a[0];
      assert (a + b)[1..] == a[1..] + b;
      var f := a[0];
      var fpath := FilePath(dest, f.name);
      if Guarded(dest, f.name) {
        if f.isDir {
          var next := match MkdirAll(fs, fpath) case Ok(made) => made case Err(_) => fs;
          UnzipCompose(next, a[1..], b, dest);
        } else if MkdirAll(fs, Paths.Dir(fpath)).Ok? {
          var made := MkdirAll(fs, Paths.Dir(fpath)).value;
          if !IsDir(made, fpath) && f.payload.Readable? {
            UnzipCompose(WriteFile(made, fpath, f.payload.data), a[1..], b, dest);
          }
        }
      }
    }
  }

  /** An entry that fails the guard stops extraction with "illegal file
      path" and leaves every earlier entry's effect in place. */
  lemma UnzipNoRollback(fs: Fs, done: seq<ZipEntry>, bad: ZipEntry, rest: seq<ZipEntry>, dest: string)
    requires UnzipEntries(fs, done, dest).err.None?
    requires !Guarded(dest, bad.name)
    ensures UnzipEntries(fs, done + [bad] + rest, dest) ==
            Extraction(UnzipEntries(fs, done, dest).fs, Some(IllegalFilePath(FilePath(dest, bad.name))))
  {
    assert done + [bad] + rest == done + ([bad] + rest);
    UnzipCompose(fs, done, [bad] + rest, dest);
    assert ([bad] + rest)[0] == bad;
  }

  /** Entry `f` neither fails the guard nor stops extraction. */
  predicate Continues(fs: Fs, f: ZipEntry, dest: string) {
    var fpath := FilePath(dest, f.name);
    Guarded(dest, f.name) &&
    (f.isDir ||
     (MkdirAll(fs, Paths.Dir(fpath)).Ok? && !IsDir(MkdirAll(fs, Paths.Dir(fpath)).value, fpath) && f.payload.Readable?))
  }

  /** The file system after entry `f` when it does not stop extraction. */
  function Applied(fs: Fs, f: ZipEntry, dest: string): Fs {
    var fpath := FilePath(dest, f.name);
    if f.isDir then (match MkdirAll(fs, fpath) case Ok(made) => made case Err(_) => fs)
    else match MkdirAll(fs, Paths.Dir(fpath))
      case Ok(made) => WriteFile(made, fpath, Written(f.payload))
      case Err(_) => fs
  }

  /** From `before` to `after` no file disappears, and a file appears or
      changes only where entry `e` writes. */
  predicate WritesOnlyOne(before: Fs, after: Fs, e: ZipEntry, dest: string) {
    && before.files.Keys <= after.files.Keys
    && forall k :: k in after.files && (k !in before.files || after.files[k] != before.files[k]) ==>
         WritesKey(dest, e, k)
  }

  /** From `before` to `after` no file disappears, and a file appears or
      changes only where some entry of `es` writes. */
  predicate WritesOnly(before: Fs, after: Fs, es: seq<ZipEntry>, dest: string) {
    && before.files.Keys <= after.files.Keys
    && forall k :: k in after.files && (k !in before.files || after.files[k] != before.files[k]) ==>
         exists i :: 0 <= i < |es| && WritesKey(dest, es[i], k)
  }

  /** From `before` to `after` no directory disappears, and a directory
      appears only on the path of entry `e`. */
  predicate CreatesOnlyOne(before: Fs, after: Fs, e: ZipEntry, dest: string) {
    && before.dirs <= after.dirs
    && forall d :: d in after.dirs && d !in before.dirs ==> CreatesDir(dest, e, d)
  }

  /** From `before` to `after` no directory disappears, and a directory
      appears only on the path of some entry of `es`. */
  predicate CreatesOnly(before: Fs, after: Fs, es: seq<ZipEntry>, dest: string) {
    && before.dirs <= after.dirs
    && forall d :: d in after.dirs && d !in before.dirs ==>
         exists i :: 0 <= i < |es| && CreatesDir(dest, es[i], d)
  }

  /** The first entry of a non-empty archive: either extraction goes on
      from its result, or it stops there; either way it touched only its
      own path and the directories above it. */
  lemma UnzipFirst(fs: Fs, es: seq<ZipEntry>, dest: string)
    requires es != []
    ensures Continues(fs, es[0], dest) ==>
              UnzipEntries(fs, es, dest) == UnzipEntries(Applied(fs, es[0], dest), es[1..], dest)
    ensures Continues(fs, es[0], dest) ==>
              WritesOnlyOne(fs, Applied(fs, es[0], dest), es[0], dest) &&
              CreatesOnlyOne(fs, Applied(fs, es[0], dest), es[0], dest)
    ensures Continues(fs, es[0], dest) && !es[0].isDir ==>
              ReadFile(Applied(fs, es[0], dest), FilePath(dest, es[0].name)) == Some(es[0].payload.data)
    ensures !Continues(fs, es[0], dest) ==>
              UnzipEntries(fs, es, dest).err.Some? &&
              WritesOnlyOne(fs, UnzipEntries(fs, es, dest).fs, es[0], dest) &&
              CreatesOnlyOne(fs, UnzipEntries(fs, es, dest).fs, es[0], dest)
  {
    if Continues(fs, es[0], dest) {
      FirstApplied(fs, es[0], dest);
    } else {
      FirstStops(fs, es, dest);
    }
  }

  /** What an entry that does not stop extraction does. */
  lemma FirstApplied(fs: Fs, f: ZipEntry, dest: string)
    requires Continues(fs, f, dest)
    ensures WritesOnlyOne(fs, Applied(fs, f, dest), f, dest)
    ensures CreatesOnlyOne(fs, Applied(fs, f, dest), f, dest)
    ensures !f.isDir ==> ReadFile(Applied(fs, f, dest), FilePath(dest, f.name)) == Some(f.payload.data)
  {
  }

  /** What an entry that stops extraction leaves behind. */
  lemma FirstStops(fs: Fs, es: seq<ZipEntry>, dest: string)
    requires es != [] && !Continues(fs, es[0], dest)
    ensures UnzipEntries(fs, es, dest).err.Some?
    ensures WritesOnlyOne(fs, UnzipEntries(fs, es, dest).fs, es[0], dest)
    ensures CreatesOnlyOne(fs, UnzipEntries(fs, es, dest).fs, es[0], dest)
  {
    var f := es[0];
    var fpath := FilePath(dest, f.name);
    if Guarded(dest, f.name) && !f.isDir && MkdirAll(fs, Paths.Dir(fpath)).Ok? {
      var made := MkdirAll(fs, Paths.Dir(fpath)).value;
      if !IsDir(made, fpath) {
        var r := UnzipEntries(fs, es, dest);
        assert r.fs == WriteFile(made, fpath, Written(f.payload)) && r.err.Some?;
      }
    }
  }

  /** The first entry's changes followed by those of the rest. */
  lemma WritesChain(a: Fs, b: Fs, c: Fs, es: seq<ZipEntry>, dest: string)
    requires es != [] && WritesOnlyOne(a, b, es[0], dest) && WritesOnly(b, c, es[1..], dest)
    ensures WritesOnly(a, c, es, dest)
  {
    forall k | k in c.files && (k !in a.files || c.files[k] != a.files[k])
      ensures exists i :: 0 <= i < |es| && WritesKey(dest, es[i], k)
    {
      if k in b.files && (k !in a.files || b.files[k] != a.files[k]) {
        assert WritesKey(dest, es[0], k);
      } else {
        var i :| 0 <= i < |es[1..]| && WritesKey(dest, es[1..][i], k);
        assert es[1..][i] == es[i + 1];
      }
    }
  }

  /** The first entry's directories followed by those of the rest. */
  lemma CreatesChain(a: Fs, b: Fs, c: Fs, es: seq<ZipEntry>, dest: string)
    requires es != [] && CreatesOnlyOne(a, b, es[0], dest) && CreatesOnly(b, c, es[1..], dest)
    ensures CreatesOnly(a, c, es, dest)
  {
    forall d | d in c.dirs && d !in a.dirs
      ensures exists i :: 0 <= i < |es| && CreatesDir(dest, es[i], d)
    {
      if d in b.dirs {
        assert CreatesDir(dest, es[0], d);
      } else {
        var i :| 0 <= i < |es[1..]| && CreatesDir(dest, es[1..][i], d);
        assert es[1..][i] == es[i + 1];
      }
    }
  }

  /** The segments of the part after the volume of `C:\d\a:\..\..\x`. */
  lemma DriveLikeSegments(rest: string)
    requires rest == "\\d\\a:\\..\\..\\x"
    ensures Paths.Segments(rest) == ["", "d", "a:", "..", "..", "x"]
  {
    var segs := ["", "d", "a:", "..", "..", "x"];
    assert Paths.FromSlash(rest) == rest;
    assert Text.Join(segs, Paths.Separator) == rest;
    Text.SplitJoin(segs, Paths.Separator);
  }

  /** The two ".." climb past "a:" and "d" to the root. */
  lemma DriveLikeNormalized()
    ensures Paths.Normalize(["", "d", "a:", "..", "..", "x"], true) == ["x"]
  {
    var segs := ["", "d", "a:", "..", "..", "x"];
    assert segs[..1] == [""];
    assert segs[..2] == segs[..1] + ["d"];
    assert segs[..3] == segs[..2] + ["a:"];
    assert segs[..4] == segs[..3] + [".."];
    assert segs[..5] == segs[..4] + [".."];
    assert Paths.Normalize([""], true) == [];
    assert Paths.Normalize(segs[..2], true) == ["d"];
    assert Paths.Normalize(segs[..3], true) == ["d", "a:"];
    assert Paths.Normalize(segs[..4], true) == ["d"];
    assert Paths.Normalize(segs[..5], true) == [];
  }

  /** `C:\d\a:\..\..\x` cleans to `C:\x`: "a:" is an ordinary element there. */
  lemma DriveLikeCleaned(joined: string)
    requires joined == "C:\\d\\a:\\..\\..\\x"
    ensures Paths.Clean(joined) == "C:\\x"
  {
    assert Paths.Volume(joined) == "C:";
    DriveLikeSegments(Paths.AfterVolume(joined));
    DriveLikeNormalized();
    assert Paths.Elements(joined) == ["x"];
    assert Paths.FromSlash("C:") == "C:";
  }

  /** `C:\d` is already clean. */
  lemma DestinationClean()
    ensures Paths.Clean("C:\\d") == "C:\\d"
  {
    var segs := ["", "d"];
    assert Text.Join(segs, Paths.Separator) == "\\d";
    Text.SplitJoin(segs, Paths.Separator);
    assert Paths.AfterVolume("C:\\d") == "\\d";
    assert Paths.FromSlash("\\d") == "\\d";
    assert segs[..1] == [""];
    assert Paths.Normalize(segs, true) == ["d"];
    assert Paths.FromSlash("C:") == "C:";
  }

  /** An element that looks like a drive name does not stop "..": only a
      leading "X:" is a volume, so `a:\..\..\x` below `C:\d` cleans to
      `C:\x`, which the guard rejects. */
  lemma DriveLikeElementRejected()
    ensures FilePath("C:\\d", "a:\\..\\..\\x") == "C:\\x"
    ensures !Guarded("C:\\d", "a:\\..\\..\\x")
  {
    assert "C:\\d" + [Paths.Separator] + "a:\\..\\..\\x" == "C:\\d\\a:\\..\\..\\x";
    DriveLikeCleaned("C:\\d\\a:\\..\\..\\x");
    DestinationClean();
    assert ("C:\\d" + [Paths.Separator])[3] != "C:\\x"[3];
  }

  /** A file's content changes, or a file appears, only at the path of a
      file entry that passed the guard; no file disappears. */
  lemma {:induction false} UnzipWritesOnlyGuarded(fs: Fs, es: seq<ZipEntry>, dest: string)
    ensures var r := UnzipEntries(fs, es, dest);
            && fs.files.Keys <= r.fs.files.Keys
            && forall k :: k in r.fs.files && (k !in fs.files || r.fs.files[k] != fs.files[k]) ==>
                 exists i :: 0 <= i < |es| && WritesKey(dest, es[i], k)
    decreases |es|
  {
    var result := UnzipEntries(fs, es, dest).fs;
    if es != [] {
      UnzipFirst(fs, es, dest);
      if Continues(fs, es[0], dest) {
        var next := Applied(fs, es[0], dest);
        UnzipWritesOnlyGuarded(next, es[1..], dest);
        WritesChain(fs, next, result, es, dest);
      } else {
        WritesChain(fs, result, result, es, dest);
      }
    }
    assert WritesOnly(fs, result, es, dest);
  }

  /** Directories are only added, and only at the path of an entry that
      passed the guard or above it. */
  lemma {:induction false} UnzipCreatesOnlyGuarded(fs: Fs, es: seq<ZipEntry>, dest: string)
    ensures var r := UnzipEntries(fs, es, dest);
            && fs.dirs <= r.fs.dirs
            && forall d :: d in r.fs.dirs && d !in fs.dirs ==>
                 exists i :: 0 <= i < |es| && CreatesDir(dest, es[i], d)
    decreases |es|
  {
    var result := UnzipEntries(fs, es, dest).fs;
    if es != [] {
      UnzipFirst(fs, es, dest);
      if Continues(fs, es[0], dest) {
        var next := Applied(fs, es[0], dest);
        UnzipCreatesOnlyGuarded(next, es[1..], dest);
        CreatesChain(fs, next, result, es, dest);
      } else {
        CreatesChain(fs, result, result, es, dest);
      }
    }
    assert CreatesOnly(fs, result, es, dest);
  }

  /** No entry after `i` writes the file that entry `i` writes. */
  predicate LastWriter(dest: string, es: seq<ZipEntry>, i: nat)
    requires i < |es|
  {
    forall j :: i < j < |es| ==> !WritesKey(dest, es[j], Paths.Key(FilePath(dest, es[i].name)))
  }

  lemma LastWriterTail(dest: string, es: seq<ZipEntry>, i: nat)
    requires 0 < i < |es| && LastWriter(dest, es, i)
    ensures LastWriter(dest, es[1..], i - 1)
  {
    forall j | i - 1 < j < |es[1..]|
      ensures !WritesKey(dest, es[1..][j], Paths.Key(FilePath(dest, es[1..][i - 1].name)))
    {
      assert es[1..][j] == es[j + 1];
    }
  }

  /** A file no later entry writes keeps the data the first entry wrote. */
  lemma FirstKept(next: Fs, es: seq<ZipEntry>, dest: string)
    requires es != [] && LastWriter(dest, es, 0)
    requires ReadFile(next, FilePath(dest, es[0].name)).Some?
    ensures ReadFile(UnzipEntries(next, es[1..], dest).fs, FilePath(dest, es[0].name)) ==
            ReadFile(next, FilePath(dest, es[0].name))
  {
    var k := Paths.Key(FilePath(dest, es[0].name));
    var r := UnzipEntries(next, es[1..], dest);
    UnzipWritesOnlyGuarded(next, es[1..], dest);
    forall i | 0 <= i < |es[1..]| ensures !WritesKey(dest, es[1..][i], k) {
      assert es[1..][i] == es[i + 1];
    }
  }

  /** What a successful extraction promises about `es`, for the final
      file system `result`. */
  predicate SuccessFacts(result: Fs, es: seq<ZipEntry>, dest: string) {
    && (forall i :: 0 <= i < |es| ==> Guarded(dest, es[i].name))
    && (forall i :: 0 <= i < |es| && !es[i].isDir ==> es[i].payload.Readable?)
    && (forall i :: 0 <= i < |es| && !es[i].isDir && LastWriter(dest, es, i) ==>
          ReadFile(result, FilePath(dest, es[i].name)) == Some(es[i].payload.data))
  }

  /** The facts for the tail and for the first entry give the facts for all. */
  lemma SuccessShift(result: Fs, es: seq<ZipEntry>, dest: string)
    requires es != [] && SuccessFacts(result, es[1..], dest)
    requires Guarded(dest, es[0].name) && (!es[0].isDir ==> es[0].payload.Readable?)
    requires !es[0].isDir && LastWriter(dest, es, 0) ==>
               ReadFile(result, FilePath(dest, es[0].name)) == Some(es[0].payload.data)
    ensures SuccessFacts(result, es, dest)
  {
    assert forall i :: 0 < i < |es| ==> es[i] == es[1..][i - 1];
    forall i | 0 < i < |es| && LastWriter(dest, es, i)
      ensures LastWriter(dest, es[1..], i - 1)
    {
      LastWriterTail(dest, es, i);
    }
  }

  /** A successful extraction passed every entry through the guard, could
      read every file entry, and leaves each file entry's data at its path
      unless a later file entry wrote the same path. */
  lemma {:induction false} UnzipSuccess(fs: Fs, es: seq<ZipEntry>, dest: string)
    requires UnzipEntries(fs, es, dest).err.None?
    ensures forall i :: 0 <= i < |es| ==> Guarded(dest, es[i].name)
    ensures forall i :: 0 <= i < |es| && !es[i].isDir ==> es[i].payload.Readable?
    ensures forall i :: 0 <= i < |es| && !es[i].isDir && LastWriter(dest, es, i) ==>
              ReadFile(UnzipEntries(fs, es, dest).fs, FilePath(dest, es[i].name)) == Some(es[i].payload.data)
    decreases |es|
  {
    var result := UnzipEntries(fs, es, dest).fs;
    if es != [] {
      UnzipFirst(fs, es, dest);
      var next := Applied(fs, es[0], dest);
      UnzipSuccess(next, es[1..], dest);
      if !es[0].isDir && LastWriter(dest, es, 0) {
        FirstKept(next, es, dest);
      }
      SuccessShift(result, es, dest);
    }
    assert SuccessFacts(result, es, dest);
  }

  /** Directory entries never stop extraction: their MkdirAll error is ignored. */
  lemma {:induction false} DirectoryEntriesNeverFail(fs: Fs, es: seq<ZipEntry>, dest: string)
    requires forall i :: 0 <= i < |es| ==> es[i].isDir && Guarded(dest, es[i].name)
    ensures UnzipEntries(fs, es, dest).err.None?
    decreases |es|
  {
    if es != [] {
      var next := match MkdirAll(fs, FilePath(dest, es[0].name)) case Ok(made) => made case Err(_) => fs;
      assert forall i :: 0 <= i < |es[1..]| ==> es[1..][i] == es[i + 1];
      DirectoryEntriesNeverFail(next, es[1..], dest);
    }
  }

  /** unzip: opens the archive (None when it is not a readable zip) and
      extracts its entries into `dest` in order. */
  method Unzip(host: Host.Machine, archive: Option<seq<ZipEntry>>, dest: string) returns (err: Option<Error>)
    modifies host
    ensures archive.None? ==> err == Some(Io("OpenReader")) && host.fs == old(host.fs)
    ensures archive.Some? ==> Extraction(host.fs, err) == UnzipEntries(old(host.fs), archive.value, dest)
    ensures host.registry == old(host.registry) && host.env == old(host.env)
  {
    if archive.None? {
      return Some(Io("OpenReader"));
    }
    var files := archive.value;
    var fs := host.fs;
    err := None;
    ghost var goal := UnzipEntries(fs, files, dest);
    var i := 0;
    while i < |files|
      invariant 0 <= i <= |files|
      invariant UnzipEntries(fs, files[i..], dest) == goal
      invariant host.registry == old(host.registry) && host.env == old(host.env)
    {
      var f := files[i];
      assert files[i..][0] == f && files[i..][1..] == files[i + 1..];
      var fpath := FilePath(dest, f.name);
      if !Text.HasPrefix(fpath, Paths.Clean(dest) + [Paths.Separator]) {
        err := Some(IllegalFilePath(fpath));
        break;
      }
      if f.isDir {
        var made := MkdirAll(fs, fpath);
        if made.Ok? {
          fs := made.value;
        }
        i := i + 1;
        continue;
      }
      var parent := MkdirAll(fs, Paths.Dir(fpath));
      if parent.Err? {
        err := Some(parent.error);
        break;
      }
      fs := parent.value;
      if IsDir(fs, fpath) {
        err := Some(Io("OpenFile"));
        break;
      }
      // os.OpenFile with O_TRUNC leaves an empty file
      ghost var truncated := fs;
      fs := WriteFile(fs, fpath, "");
      WriteFileTwice(truncated, fpath, "", Written(f.payload));
      if f.payload.Unopenable? {
        err := Some(Io("Open"));
        break;
      }
      fs := WriteFile(fs, fpath, Written(f.payload));
      if f.payload.Unreadable? {
        err := Some(Io("Copy"));
        break;
      }
      i := i + 1;
    }
    host.fs := fs;
  }
}
