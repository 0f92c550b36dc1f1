/** The pure steps of DownloadVersion (internal/manager/downloader.go): the
    name check, the download URL, the temporary file and the install
    directory. */
module Download {
  import opened Wrappers
  import Text
  import Paths

  /** The check that runs before anything else. */
  predicate ValidName(version: string) {
    !Text.Contains(version, "..") && !Text.Contains(version, "/") && !Text.Contains(version, "\\")
  }

  const UrlPrefix: string := "https://go.dev/dl/"
  const UrlSuffix: string := ".windows-amd64.zip"

  /** The Windows amd64 archive of `version` on go.dev. */
  function DownloadUrl(version: string): string {
    UrlPrefix + version + UrlSuffix
  }

  /** The version a download URL names, if it has the download URL's form. */
  function UrlVersion(url: string): Option<string> {
    if |url| >= |UrlPrefix| + |UrlSuffix| && url[..|UrlPrefix|] == UrlPrefix &&
       url[|url| - |UrlSuffix|..] == UrlSuffix
    then Some(url[|UrlPrefix|..|url| - |UrlSuffix|])
    else None
  }

  /** The URL names the version it was built from, so different versions
      are fetched from different URLs. */
  lemma UrlRoundTrip(version: string)
    ensures UrlVersion(DownloadUrl(version)) == Some(version)
  {
    var url := DownloadUrl(version);
    assert url[..|UrlPrefix|] == UrlPrefix;
    assert url[|url| - |UrlSuffix|..] == UrlSuffix;
    assert url[|UrlPrefix|..|url| - |UrlSuffix|] == version;
  }

  /** `<TempDir>\<version>.zip` */
  function TempZipPath(tempDir: string, version: string): string {
    Paths.Join(tempDir, version + ".zip")
  }

  /** `<SDKPath>\<version>`, the directory removed and then extracted into. */
  function DestDir(sdkPath: string, version: string): string {
    Paths.Join(sdkPath, version)
  }

  /** An accepted name holds no path separator. */
  lemma ValidNameHasNoSeparator(version: string)
    requires ValidName(version)
    ensures forall i :: 0 <= i < |version| ==> !Paths.IsSep(version[i])
  {
    forall i | 0 <= i < |version| ensures !Paths.IsSep(version[i]) {
      if version[i] == '/' {
        assert version[i..][..1] == "/";
        Text.ContainsAt(version, "/", i);
      } else if version[i] == '\\' {
        assert version[i..][..1] == "\\";
        Text.ContainsAt(version, "\\", i);
      }
    }
  }

  /** The check lets "" and "." through, and for both the install
      directory is the SDK directory itself, which DownloadVersion then
      removes before extracting; for "." the SDK path must not end in ':',
      after which Join adds no separator. */
  lemma EmptyAndDotNamesTargetSdk(sdkPath: string)
    requires sdkPath != ""
    ensures ValidName("") && ValidName(".")
    ensures DestDir(sdkPath, "") == Paths.Clean(sdkPath)
    ensures !Paths.EndsInColon(sdkPath) ==> DestDir(sdkPath, ".") == Paths.Clean(sdkPath)
  {
    Text.NotContainsLonger("", "..");
    Text.NotContainsLonger(".", "..");
    Text.NotContainsWithoutFirstChar("", "/");
    Text.NotContainsWithoutFirstChar("", "\\");
    Text.NotContainsWithoutFirstChar(".", "/");
    Text.NotContainsWithoutFirstChar(".", "\\");
    if !Paths.EndsInColon(sdkPath) {
      Paths.JoinEmptyOrDot(sdkPath, ".");
    }
  }

  /** Every other accepted name gets its own directory directly below the
      cleaned SDK directory, when the SDK path does not end in ':'. */
  lemma ValidNameDestDir(sdkPath: string, version: string)
    requires ValidName(version) && version != "" && version != "."
    requires sdkPath != "" && Paths.Elements(sdkPath) != []
    ensures !Paths.EndsInColon(sdkPath) ==>
              DestDir(sdkPath, version) == Paths.Clean(sdkPath) + [Paths.Separator] + version
  {
    if !Paths.EndsInColon(sdkPath) {
      ValidNameHasNoSeparator(version);
      Paths.SegmentsWithoutSeparator(version);
      Paths.JoinNormalElement(sdkPath, version);
    }
  }
}
