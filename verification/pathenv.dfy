/** The rewriting of the `;`-separated Path variable done by updatePath
    (internal/manager/manager.go): the new GOROOT's bin directory goes first,
    followed by the old entries minus empty ones and stale Go entries. */
module PathEnv {
  import Text
  import Paths

  const ListSeparator: char := ';'

  /** An entry that, lowercased, mentions an old Go bin directory or the
      managed SDK directory. */
  predicate IsStaleGoEntry(p: string) {
    var lower := Text.Lower(p);
    Text.Contains(lower, "\\go\\bin") || Text.Contains(lower, "go/bin") ||
    Text.Contains(lower, ".goswitch\\sdk")
  }

  predicate Kept(p: string) {
    p != "" && !IsStaleGoEntry(p)
  }

  /** The kept entries, in their original order, duplicates included. */
  function Keep(parts: seq<string>): (r: seq<string>)
    ensures |r| <= |parts|
  {
    if parts == [] then []
    else
      var last := parts[|parts| - 1];
      Keep(parts[..|parts| - 1]) + (if Kept(last) then [last] else [])
  }

  /** filepath.Join(newGoRoot, "bin"). */
  function BinPath(newGoRoot: string): string {
    Paths.Join(newGoRoot, "bin")
  }

  /** The value updatePath returns. */
  function UpdatedPath(currentPath: string, newGoRoot: string): string {
    Prepended(currentPath, BinPath(newGoRoot))
  }

  /** `bin` followed by the kept entries of `currentPath`, joined by `;`. */
  function Prepended(currentPath: string, bin: string): string {
    Text.Join([bin] + Keep(Text.Split(currentPath, ListSeparator)), ListSeparator)
  }

  /** updatePath: the bin directory of the new GOROOT put in front of the
      filtered old entries. */
  method UpdatePath(currentPath: string, newGoRoot: string) returns (r: string)
    ensures r == UpdatedPath(currentPath, newGoRoot)
  {
    var goBin := BinPath(newGoRoot);
    r := PrependEntry(currentPath, goBin);
  }

  /** The loop of updatePath: `bin` first, then every old entry that is
      neither empty nor a stale Go entry, appended in order. */
  method PrependEntry(currentPath: string, bin: string) returns (r: string)
    ensures r == Prepended(currentPath, bin)
  {
    var parts := Text.Split(currentPath, ListSeparator);
    var newParts := [bin];
    var i := 0;
    assert parts[..0] == [];
    while i < |parts|
      invariant 0 <= i <= |parts|
      invariant newParts == [bin] + Keep(parts[..i])
    {
      var p := parts[i];
      KeepPrefixStep(parts, i);
      if p == "" {
        i := i + 1;
        continue;
      }
      var lowerP := Text.Lower(p);
      if Text.Contains(lowerP, "\\go\\bin") || Text.Contains(lowerP, "go/bin") {
        i := i + 1;
        continue;
      }
      if Text.Contains(lowerP, ".goswitch\\sdk") {
        i := i + 1;
        continue;
      }
      assert newParts + [p] == [bin] + (Keep(parts[..i]) + [p]);
      newParts := newParts + [p];
      i := i + 1;
    }
    assert parts[..|parts|] == parts;
    r := Text.Join(newParts, ListSeparator);
  }

  /** One more entry of the prefix: it is appended exactly when it is kept. */
  lemma KeepPrefixStep(parts: seq<string>, i: nat)
    requires i < |parts|
    ensures Keep(parts[..i + 1]) == Keep(parts[..i]) + (if Kept(parts[i]) then [parts[i]] else [])
  {
    assert parts[..i + 1][..i] == parts[..i];
  }

  lemma {:induction false} KeepConcat(a: seq<string>, b: seq<string>)
    ensures Keep(a + b) == Keep(a) + Keep(b)
    decreases |b|
  {
    if b == [] {
      assert a + b == a;
    } else {
      var b' := b[..|b| - 1];
      assert (a + b)[..|a + b| - 1] == a + b';
      KeepConcat(a, b');
    }
  }

  /** An entry survives exactly when it was present and is kept. */
  lemma {:induction false} KeepMembership(parts: seq<string>, x: string)
    ensures x in Keep(parts) <==> x in parts && Kept(x)
    decreases |parts|
  {
    if parts != [] {
      var init := parts[..|parts| - 1];
      KeepMembership(init, x);
      assert parts == init + [parts[|parts| - 1]];
    }
  }

  /** Each kept entry keeps its multiplicity; every other entry is gone. */
  lemma {:induction false} KeepCounts(parts: seq<string>, x: string)
    ensures multiset(Keep(parts))[x] == if Kept(x) then multiset(parts)[x] else 0
    decreases |parts|
  {
    if parts != [] {
      var init := parts[..|parts| - 1];
      var last := parts[|parts| - 1];
      KeepCounts(init, x);
      assert parts == init + [last];
      assert multiset(parts) == multiset(init) + multiset{last};
      var tail := if Kept(last) then [last] else [];
      assert Keep(parts) == Keep(init) + tail;
      assert multiset(Keep(parts)) == multiset(Keep(init)) + multiset(tail);
    }
  }

  lemma {:induction false} KeepIdempotent(parts: seq<string>)
    ensures Keep(Keep(parts)) == Keep(parts)
    decreases |parts|
  {
    if parts != [] {
      var init := parts[..|parts| - 1];
      var last := parts[|parts| - 1];
      KeepIdempotent(init);
      KeepConcat(Keep(init), if Kept(last) then [last] else []);
      if Kept(last) {
        assert Keep([last]) == Keep([]) + [last] by { assert [last][..0] == []; }
      }
    }
  }

  lemma {:induction false} KeepPartsFree(parts: seq<string>)
    requires forall i :: 0 <= i < |parts| ==> Text.Free(parts[i], ListSeparator)
    ensures forall i :: 0 <= i < |Keep(parts)| ==> Text.Free(Keep(parts)[i], ListSeparator)
    decreases |parts|
  {
    if parts != [] {
      KeepPartsFree(parts[..|parts| - 1]);
    }
  }

  /** Reading the result back: the bin directory, then the kept entries of
      the old value in order. */
  lemma PrependedEntries(currentPath: string, bin: string)
    requires Text.Free(bin, ListSeparator)
    ensures Text.Split(Prepended(currentPath, bin), ListSeparator)
            == [bin] + Keep(Text.Split(currentPath, ListSeparator))
  {
    var parts := Text.Split(currentPath, ListSeparator);
    Text.SplitPartsFree(currentPath, ListSeparator);
    KeepPartsFree(parts);
    var all := [bin] + Keep(parts);
    assert forall i :: 0 <= i < |all| ==> Text.Free(all[i], ListSeparator) by {
      forall i | 0 <= i < |all| ensures Text.Free(all[i], ListSeparator) {
        if i > 0 { assert all[i] == Keep(parts)[i - 1]; }
      }
    }
    Text.SplitJoin(all, ListSeparator);
  }

  /** Prepending one entry to an already filtered list and filtering again
      keeps the list and keeps or drops the new entry. */
  lemma KeepAfterPrepend(bin: string, parts: seq<string>)
    ensures Kept(bin) ==> Keep([bin] + Keep(parts)) == [bin] + Keep(parts)
    ensures !Kept(bin) ==> Keep([bin] + Keep(parts)) == Keep(parts)
  {
    KeepConcat([bin], Keep(parts));
    KeepIdempotent(parts);
    assert [bin][..0] == [];
    assert Keep([bin]) == Keep([]) + (if Kept(bin) then [bin] else []);
  }

  /** Filtering a value that reads back as `bin` then kept entries, and
      prepending `bin` again. */
  lemma PrependAgain(once: string, bin: string, parts: seq<string>)
    requires Text.Split(once, ListSeparator) == [bin] + Keep(parts)
    ensures Prepended(once, bin) ==
              if Kept(bin) then Text.Join([bin, bin] + Keep(parts), ListSeparator)
              else Text.Join([bin] + Keep(parts), ListSeparator)
  {
    var again := Keep([bin] + Keep(parts));
    assert Prepended(once, bin) == Text.Join([bin] + again, ListSeparator);
    KeepAfterPrepend(bin, parts);
    if Kept(bin) {
      assert [bin] + again == [bin, bin] + Keep(parts);
    } else {
      assert [bin] + again == [bin] + Keep(parts);
    }
  }

  lemma PrependedTwice(currentPath: string, bin: string)
    requires Text.Free(bin, ListSeparator)
    ensures Prepended(Prepended(currentPath, bin), bin) ==
              if Kept(bin) then Text.Join([bin, bin] + Keep(Text.Split(currentPath, ListSeparator)), ListSeparator)
              else Prepended(currentPath, bin)
  {
    PrependedEntries(currentPath, bin);
    PrependAgain(Prepended(currentPath, bin), bin, Text.Split(currentPath, ListSeparator));
  }

  /** After updatePath the first entry is the new bin directory and the rest
      are the kept entries of the old value, in order. */
  lemma UpdatedPathEntries(currentPath: string, newGoRoot: string)
    requires Text.Free(BinPath(newGoRoot), ListSeparator)
    ensures Text.Split(UpdatedPath(currentPath, newGoRoot), ListSeparator)
            == [BinPath(newGoRoot)] + Keep(Text.Split(currentPath, ListSeparator))
  {
    PrependedEntries(currentPath, BinPath(newGoRoot));
  }

  /** Calling updatePath again with the same GOROOT adds the bin directory a
      second time, unless the filter drops the bin directory itself (it is a
      stale Go entry), in which case the second call changes nothing. */
  lemma SecondUpdate(currentPath: string, newGoRoot: string)
    requires Text.Free(BinPath(newGoRoot), ListSeparator)
    ensures UpdatedPath(UpdatedPath(currentPath, newGoRoot), newGoRoot) ==
              if Kept(BinPath(newGoRoot))
              then Text.Join([BinPath(newGoRoot), BinPath(newGoRoot)] + Keep(Text.Split(currentPath, ListSeparator)), ListSeparator)
              else UpdatedPath(currentPath, newGoRoot)
  {
    PrependedTwice(currentPath, BinPath(newGoRoot));
  }
}
