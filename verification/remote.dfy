/**
 * The GitHub release the updater reads, and `get_remote_version`, which turns
 * one fetch of it into the version to compare and the tag to download.
 * The HTTP request and `json_decode` are not modelled: a fetch arrives as
 * `Option<Release>`, `None` standing for a transport error.
 */
module Remote {
  import opened Wrappers
  import Text

  const Owner := "gpl-is"
  const Repo := "ultimate-envato-elements"
  const ProjectUrl := "https://github.com/" + Owner + "/" + Repo

  /** The two fields of the latest-release JSON the plugin reads; either may be missing. */
  datatype Release = Release(tagName: Option<string>, body: Option<string>)

  /** The version to compare against the installed one, and the tag to build a download from. */
  datatype RemoteData = RemoteData(version: string, tagName: string)

  /** The zip archive GitHub serves for a tag. */
  function PackageUrl(tag: string): string {
    ProjectUrl + "/archive/refs/tags/" + tag + ".zip"
  }

  /** Different tags never share a download URL. */
  lemma PackageUrlInjective(a: string, b: string)
    requires PackageUrl(a) == PackageUrl(b)
    ensures a == b
  {
    var prefix := ProjectUrl + "/archive/refs/tags/";
    assert PackageUrl(a) == prefix + (a + ".zip");
    assert PackageUrl(b) == prefix + (b + ".zip");
    assert a + ".zip" == PackageUrl(a)[|prefix|..];
    assert b + ".zip" == PackageUrl(b)[|prefix|..];
    assert a == (a + ".zip")[..|a|];
    assert b == (b + ".zip")[..|b|];
  }

  /**
   * `get_remote_version`: without a release or without a tag, the installed
   * version `current` comes back unchanged with tag `v` + `current`; otherwise
   * the tag is kept verbatim and the version is the tag minus all leading `v`s.
   */
  function RemoteVersion(current: string, fetch: Option<Release>): (d: RemoteData)
    ensures fetch.None? || fetch.value.tagName.None? ==>
              d.version == current && d.tagName == "v" + current
    ensures fetch.Some? && fetch.value.tagName.Some? ==>
              && d.tagName == fetch.value.tagName.value
              && |d.version| <= |d.tagName|
              && d.version == d.tagName[|d.tagName| - |d.version|..]
              && (forall i :: 0 <= i < |d.tagName| - |d.version| ==> d.tagName[i] == 'v')
              && (|d.version| > 0 ==> d.version[0] != 'v')
  {
    match fetch
    case None => RemoteData(current, "v" + current)
    case Some(release) =>
      match release.tagName
      case None => RemoteData(current, "v" + current)
      case Some(tag) => RemoteData(Text.TrimLeft(tag, 'v'), tag)
  }
}
