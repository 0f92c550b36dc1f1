/** A lexical model of Go's `path/filepath` on Windows: `Clean`, `Join`, `Dir`,
    `Base` and `IsAbs`. Both `\` and `/` separate elements and `\` is the one
    written back. A volume name is recognised only at the start of a path,
    as "X:"; UNC names are not recognised. */
module Paths {
  import Text

  const Separator: char := '\\'

  predicate IsSep(c: char) {
    c == '\\' || c == '/'
  }

  /** filepath.FromSlash: every `/` written as `\`. */
  function FromSlash(p: string): (r: string)
    ensures |r| == |p|
    ensures forall i :: 0 <= i < |p| ==> r[i] == (if p[i] == '/' then Separator else p[i])
  {
    seq(|p|, i requires 0 <= i < |p| => if p[i] == '/' then Separator else p[i])
  }

  /** The elements of `p` between separators of either kind, empty ones included. */
  function Segments(p: string): (r: seq<string>)
    ensures |r| >= 1
  {
    Text.Split(FromSlash(p), Separator)
  }

  lemma SegmentsConcat(a: string, c: char, b: string)
    requires IsSep(c)
    ensures Segments(a + [c] + b) == Segments(a) + Segments(b)
  {
    assert FromSlash(a + [c] + b) == FromSlash(a) + [Separator] + FromSlash(b);
    Text.SplitConcat(FromSlash(a), Separator, FromSlash(b));
  }

  /** The length of the volume name: 2 for a path starting "X:", else 0. */
  function VolumeLen(p: string): (n: nat)
    ensures n <= |p|
  {
    if |p| >= 2 && p[1] == ':' then 2 else 0
  }

  function Volume(p: string): string {
    p[..VolumeLen(p)]
  }

  /** The path after its volume name. */
  function AfterVolume(p: string): string {
    p[VolumeLen(p)..]
  }

  /** The path after the volume starts at the root. */
  predicate Rooted(p: string) {
    |AfterVolume(p)| > 0 && IsSep(AfterVolume(p)[0])
  }

  predicate EndsInColon(p: string) {
    p != "" && p[|p| - 1] == ':'
  }

  /** The lexical rules of Clean, applied element by element from the left:
      empty and "." elements vanish, ".." removes the element before it,
      and a ".." that reaches the root is dropped. */
  function Normalize(segs: seq<string>, rooted: bool): (r: seq<string>)
  {
    if segs == [] then []
    else
      var acc := Normalize(segs[..|segs| - 1], rooted);
      var s := segs[|segs| - 1];
      if s == "" || s == "." then acc
      else if s == ".." then
        if acc != [] && acc[|acc| - 1] != ".." then acc[..|acc| - 1]
        else if acc == [] && rooted then acc
        else acc + [s]
      else acc + [s]
  }

  /** Normalized elements are never empty and never ".". */
  lemma {:induction false} NormalizeProper(segs: seq<string>, rooted: bool)
    ensures forall i :: 0 <= i < |Normalize(segs, rooted)| ==>
              Normalize(segs, rooted)[i] != "" && Normalize(segs, rooted)[i] != "."
    decreases |segs|
  {
    if segs != [] {
      NormalizeProper(segs[..|segs| - 1], rooted);
    }
  }

  /** The cleaned elements of the path after its volume name. */
  function Elements(p: string): seq<string> {
    Normalize(Segments(AfterVolume(p)), Rooted(p))
  }

  /** The path written back from normalized elements. */
  function Rebuild(segs: seq<string>, rooted: bool): string {
    if segs == [] then (if rooted then [Separator] else ".")
    else (if rooted then [Separator] else "") + Text.Join(segs, Separator)
  }

  /** filepath.Clean: the volume name, then the cleaned rest; in particular
      Clean("") == "." and Clean("C:") == "C:.", so Clean never returns the
      empty string. */
  function Clean(p: string): (r: string)
    ensures r != ""
  {
    var segs := Elements(p);
    if segs == [] then FromSlash(Volume(p)) + Rebuild(segs, Rooted(p))
    else
      NormalizeProper(Segments(AfterVolume(p)), Rooted(p));
      assert |Text.Join(segs, Separator)| >= |segs[0]| > 0;
      FromSlash(Volume(p)) + Rebuild(segs, Rooted(p))
  }

  /** The key under which a path is found on a case-insensitive volume, and
      the key ListLocalVersions compares paths by. */
  function Key(p: string): string {
    Text.Lower(Clean(p))
  }

  function NonEmpty(elems: seq<string>): (r: seq<string>)
    ensures forall i :: 0 <= i < |r| ==> r[i] != ""
  {
    if elems == [] then []
    else if elems[0] == "" then NonEmpty(elems[1..])
    else [elems[0]] + NonEmpty(elems[1..])
  }

  /** The elements glued as filepath.Join does before cleaning: a separator
      between two elements, except after one that ends in ':' (so that
      Join("C:", "f") is "C:f"). */
  function Glued(parts: seq<string>): string
    decreases |parts|
  {
    if parts == [] then ""
    else if |parts| == 1 then parts[0]
    else
      var acc := Glued(parts[..|parts| - 1]);
      var e := parts[|parts| - 1];
      if EndsInColon(acc) then acc + e else acc + [Separator] + e
  }

  /** filepath.Join: the non-empty elements glued and cleaned; "" when every
      element is empty. */
  function JoinAll(elems: seq<string>): string {
    var parts := NonEmpty(elems);
    if parts == [] then "" else Clean(Glued(parts))
  }

  /** filepath.Join of two elements, written out by cases. */
  function Join(a: string, b: string): string {
    if a == "" then (if b == "" then "" else Clean(b))
    else if b == "" then Clean(a)
    else if EndsInColon(a) then Clean(a + b)
    else Clean(a + [Separator] + b)
  }

  /** The two-element Join is JoinAll of the pair. */
  lemma JoinPair(a: string, b: string)
    ensures Join(a, b) == JoinAll([a, b])
  {
    assert [a, b][1..] == [b];
    assert [b][1..] == [];
    assert NonEmpty([]) == [];
    if b != "" {
      assert NonEmpty([b]) == [b];
      if a != "" {
        assert NonEmpty([a, b]) == [a, b];
        assert [a, b][..1] == [a];
        assert Glued([a]) == a;
        assert Glued([a, b]) == if EndsInColon(a) then a + b else a + [Separator] + b;
      } else {
        assert NonEmpty([a, b]) == [b];
      }
    } else {
      assert NonEmpty([b]) == [];
    }
  }

  /** Appending a separator and more text keeps the volume name and the
      path after it grows by the same text, unless the path is empty or
      ends in ':'. */
  lemma VolumeOfJoined(dir: string, name: string)
    requires dir != "" && !EndsInColon(dir)
    ensures Volume(dir + [Separator] + name) == Volume(dir)
    ensures AfterVolume(dir + [Separator] + name) == AfterVolume(dir) + [Separator] + name
    ensures AfterVolume(dir) != ""
    ensures Rooted(dir + [Separator] + name) == Rooted(dir)
  {
    var joined := dir + [Separator] + name;
    if |dir| >= 2 {
      assert joined[1] == dir[1];
    } else {
      assert joined[1] == Separator;
    }
    assert joined[..VolumeLen(dir)] == dir[..VolumeLen(dir)];
    assert joined[VolumeLen(dir)..] == dir[VolumeLen(dir)..] + [Separator] + name;
  }

  /** Joining "" or "." under a directory that does not end in ':' names
      that directory. */
  lemma JoinEmptyOrDot(dir: string, name: string)
    requires dir != "" && !EndsInColon(dir) && (name == "" || name == ".")
    ensures Join(dir, name) == Clean(dir)
  {
    if name == "." {
      var joined := dir + [Separator] + ".";
      VolumeOfJoined(dir, ".");
      var rest := AfterVolume(dir);
      SegmentsConcat(rest, Separator, ".");
      SegmentsWithoutSeparator(".");
      var segs := Segments(rest);
      assert Segments(AfterVolume(joined)) == segs + ["."];
      assert (segs + ["."])[..|segs|] == segs;
      assert Normalize(segs + ["."], Rooted(dir)) == Normalize(segs, Rooted(dir));
    }
  }

  /** Index of the last separator of `p`, or -1. */
  function LastSep(p: string): (i: int)
    ensures -1 <= i < |p|
    ensures i >= 0 ==> IsSep(p[i])
    ensures forall j :: i < j < |p| ==> !IsSep(p[j])
  {
    if p == [] then -1
    else if IsSep(p[|p| - 1]) then |p| - 1
    else LastSep(p[..|p| - 1])
  }

  /** filepath.Dir: the volume name, then everything after it up to the
      last separator, cleaned. */
  function Dir(p: string): string {
    var rest := AfterVolume(p);
    Volume(p) + Clean(rest[..LastSep(rest) + 1])
  }

  /** filepath.Base: the last non-empty element after the volume name; "."
      for "" and `\` when no element is left. */
  function Base(p: string): string {
    if p == "" then "."
    else
      var elems := NonEmpty(Segments(AfterVolume(p)));
      if elems == [] then [Separator] else elems[|elems| - 1]
  }

  /** filepath.IsAbs: a volume name followed by a separator. */
  predicate IsAbs(p: string) {
    VolumeLen(p) == 2 && Rooted(p)
  }

  lemma CleanEmpty()
    ensures Clean("") == "."
  {
    assert Segments("") == [""];
    assert Normalize([""], false) == [];
  }

  /** A string without separators is a single element. */
  lemma SegmentsWithoutSeparator(s: string)
    requires forall i :: 0 <= i < |s| ==> !IsSep(s[i])
    ensures Segments(s) == [s]
  {
    assert FromSlash(s) == s;
    Text.SplitFree(s, Separator);
  }

  /** Joining an ordinary element (no separator, not "", "." or "..") below a
      directory with at least one element, not ending in ':', appends it to
      the cleaned directory. */
  lemma JoinNormalElement(dir: string, name: string)
    requires Segments(name) == [name]
    requires name != "" && name != "." && name != ".."
    requires dir != "" && !EndsInColon(dir) && Elements(dir) != []
    ensures Join(dir, name) == Clean(dir) + [Separator] + name
  {
    var joined := dir + [Separator] + name;
    VolumeOfJoined(dir, name);
    var rest := AfterVolume(dir);
    SegmentsConcat(rest, Separator, name);
    var segs := Segments(rest);
    var rooted := Rooted(dir);
    assert Segments(AfterVolume(joined)) == segs + [name];
    assert (segs + [name])[..|segs|] == segs;
    var n := Normalize(segs, rooted);
    assert Normalize(segs + [name], rooted) == n + [name];
    CleanAppended(dir, joined, name);
  }

  /** A path with the same volume and rootedness as `dir` and one more
      element cleans to `dir` cleaned, a separator and that element. */
  lemma CleanAppended(dir: string, joined: string, name: string)
    requires Elements(dir) != [] && Elements(joined) == Elements(dir) + [name]
    requires Volume(joined) == Volume(dir) && Rooted(joined) == Rooted(dir)
    ensures Clean(joined) == Clean(dir) + [Separator] + name
  {
    var n := Elements(dir);
    JoinAppend(n, name);
    var lead := if Rooted(dir) then [Separator] else "";
    assert Rebuild(n + [name], Rooted(dir)) == (lead + Text.Join(n, Separator)) + [Separator] + name;
  }

  lemma JoinAppend(segs: seq<string>, name: string)
    requires segs != []
    ensures Text.Join(segs + [name], Separator) == Text.Join(segs, Separator) + [Separator] + name
    decreases |segs|
  {
    if |segs| == 1 {
      assert segs + [name] == [segs[0], name];
      assert [segs[0], name][1..] == [name];
    } else {
      assert (segs + [name])[1..] == segs[1..] + [name];
      JoinAppend(segs[1..], name);
    }
  }
}
