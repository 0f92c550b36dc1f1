/** The remote release list (FetchRemoteVersions in
    internal/manager/downloader.go). The HTTP request and the JSON decoding
    are outside the model: the method receives their outcome. */
module Catalog {
  import opened Wrappers
  import Text

  /** An element of the upstream JSON list. */
  datatype ToolRelease = ToolRelease(version: string, stable: bool)

  /** A release as the manager reports it. */
  datatype Release = Release(version: string, stable: bool)

  /** The stable test: the version names neither a release candidate nor a
      beta. The upstream `stable` flag plays no part. */
  predicate IsStable(version: string) {
    !Text.Contains(version, "rc") && !Text.Contains(version, "beta")
  }

  /** The decoded list, or the error of the request or of the decoding,
      turned into releases one by one. */
  method FetchRemoteVersions(decoded: Result<seq<ToolRelease>, Error>)
    returns (r: Result<seq<Release>, Error>)
    ensures decoded.Err? ==> r == Err(decoded.error)
    ensures decoded.Ok? ==> r.Ok? && |r.value| == |decoded.value|
    ensures decoded.Ok? ==> forall i :: 0 <= i < |r.value| ==>
              r.value[i].version == decoded.value[i].version &&
              r.value[i].stable == IsStable(decoded.value[i].version)
  {
    if decoded.Err? {
      return Err(decoded.error);
    }
    var tools := decoded.value;
    var releases: seq<Release> := [];
    for i := 0 to |tools|
      invariant |releases| == i
      invariant forall j :: 0 <= j < i ==>
                  releases[j].version == tools[j].version &&
                  releases[j].stable == IsStable(tools[j].version)
    {
      var t := tools[i];
      var isStable := !Text.Contains(t.version, "rc") && !Text.Contains(t.version, "beta");
      releases := releases + [Release(t.version, isStable)];
    }
    return Ok(releases);
  }

  /** The classification of the upstream names "go1.21.0" and "go1.22rc1". */
  lemma ClassificationExamples()
    ensures IsStable("go1.21.0")
    ensures !IsStable("go1.22rc1")
  {
    Text.NotContainsWithoutFirstChar("go1.21.0", "rc");
    Text.NotContainsWithoutFirstChar("go1.21.0", "beta");
    assert "go1.22rc1"[6..][..2] == "rc";
    Text.ContainsAt("go1.22rc1", "rc", 6);
  }
}
