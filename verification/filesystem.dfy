/** The host file system as a value: the set of directories and the map from
    files to their contents, both keyed by `Paths.Key` because Windows volumes
    compare names without regard to case. File contents are strings. */
module FileSystem {
  import opened Wrappers
  import Text
  import Paths

  datatype Fs = Fs(dirs: set<string>, files: map<string, string>)

  /** os.Stat(p) succeeds. */
  predicate Exists(fs: Fs, p: string) {
    Paths.Key(p) in fs.dirs || Paths.Key(p) in fs.files
  }

  /** os.Stat(p) succeeds and reports a directory. */
  predicate IsDir(fs: Fs, p: string) {
    Paths.Key(p) in fs.dirs
  }

  /** os.ReadFile(p). */
  function ReadFile(fs: Fs, p: string): (r: Option<string>)
    ensures r.Some? <==> Paths.Key(p) in fs.files
  {
    if Paths.Key(p) in fs.files then Some(fs.files[Paths.Key(p)]) else None
  }

  /** The keys of `p` and of every directory above it. */
  function Ancestry(p: string): (r: set<string>)
    ensures Paths.Key(p) in r
  {
    var rooted := Paths.Rooted(p);
    var segs := Paths.Elements(p);
    var first := if rooted then 0 else 1;
    {Paths.Key(p)} + set i | first <= i < |segs| :: Text.Lower(Paths.FromSlash(Paths.Volume(p)) + Paths.Rebuild(segs[..i], rooted))
  }

  /** os.MkdirAll(p): fails when `p` or a directory above it is a file, and
      otherwise creates `p` and every missing directory above it. */
  function MkdirAll(fs: Fs, p: string): (r: Result<Fs, Error>)
    ensures r.Ok? <==> Ancestry(p) !! fs.files.Keys
    ensures r.Ok? ==> r.value.files == fs.files && fs.dirs <= r.value.dirs && IsDir(r.value, p)
    ensures r.Ok? ==> r.value.dirs - fs.dirs <= Ancestry(p)
  {
    if Ancestry(p) !! fs.files.Keys then Ok(Fs(fs.dirs + Ancestry(p), fs.files))
    else Err(Io("MkdirAll"))
  }

  /** `k` names `root` or something below it. */
  predicate Under(k: string, root: string) {
    k == root || Text.HasPrefix(k, root + [Paths.Separator])
  }

  /** os.RemoveAll(p): every directory and file at or below `p` is gone and
      nothing else changes. */
  function RemoveAll(fs: Fs, p: string): (r: Fs)
    ensures !Exists(r, p)
    ensures forall k :: k in r.dirs <==> k in fs.dirs && !Under(k, Paths.Key(p))
    ensures forall k :: k in r.files <==> k in fs.files && !Under(k, Paths.Key(p))
    ensures forall k :: k in r.files ==> r.files[k] == fs.files[k]
  {
    var root := Paths.Key(p);
    Fs(set k | k in fs.dirs && !Under(k, root),
       map k | k in fs.files && !Under(k, root) :: fs.files[k])
  }

  /** Writing `content` to the file `p`, creating or truncating it. */
  function WriteFile(fs: Fs, p: string, content: string): (r: Fs)
    ensures ReadFile(r, p) == Some(content)
    ensures r.dirs == fs.dirs
    ensures forall k :: k != Paths.Key(p) ==> (k in r.files <==> k in fs.files)
    ensures forall k :: k != Paths.Key(p) && k in fs.files ==> r.files[k] == fs.files[k]
  {
    Fs(fs.dirs, fs.files[Paths.Key(p) := content])
  }

  /** Writing a file twice leaves only the second content. */
  lemma WriteFileTwice(fs: Fs, p: string, first: string, second: string)
    ensures WriteFile(WriteFile(fs, p, first), p, second) == WriteFile(fs, p, second)
  {
    assert WriteFile(WriteFile(fs, p, first), p, second).files == fs.files[Paths.Key(p) := second];
  }
}
