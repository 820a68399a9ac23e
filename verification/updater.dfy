/**
 * The GitHub self-updater's hook handlers as pure functions of their inputs.
 * The installed version constant, the plugin's install directory, the release
 * fetches, today's date and the markdown rewrites are parameters; the update
 * transient is an immutable record.
 */
module Updater {
  import opened Wrappers
  import Text
  import opened Versions
  import opened Remote
  import Changelog

  const PluginSlug := "ultimate-envato-elements"
  const PluginName := "Ultimate Envato Elements"
  /** The folder an extracted release archive is moved into. */
  const FolderName := "ultimate-envato-elements/"

  /** The plugin basename: the install directory's name, then the main file. */
  function Basename(pluginDir: string): string {
    pluginDir + "/ultimate-envato-elements.php"
  }

  /** One entry of the transient's `response`: an update offered for one plugin. */
  datatype Descriptor = Descriptor(slug: string, plugin: string, newVersion: string, url: string, package: string)

  /**
   * The host's `update_plugins` transient: `checked` maps each plugin file to its
   * installed version, `response` maps a plugin file to the update offered for it.
   */
  datatype Transient = Transient(checked: map<string, string>, response: map<string, Descriptor>)

  /** Both maps hold the same entry for `k`, or neither holds one. */
  predicate SameEntry(m: map<string, Descriptor>, n: map<string, Descriptor>, k: string) {
    (k in m <==> k in n) && (k in m ==> m[k] == n[k])
  }

  /** The remote version of one fetch is newer than the installed one. */
  predicate UpdateAvailable(current: string, fetch: Option<Release>) {
    VersionLess(current, RemoteVersion(current, fetch).version)
  }

  /** The descriptor `check_for_updates` offers for a fetched release. */
  function Offer(pluginDir: string, data: RemoteData): (d: Descriptor)
    ensures d.plugin == Basename(pluginDir) && d.newVersion == data.version
    ensures d.package == PackageUrl(data.tagName)
  {
    Descriptor(PluginSlug, Basename(pluginDir), data.version, ProjectUrl, PackageUrl(data.tagName))
  }

  /**
   * `check_for_updates`: a transient with nothing `checked` passes through; otherwise,
   * when the release is newer than `current`, the plugin's own `response` entry is
   * set to an offer of that release and nothing else changes.
   */
  function CheckForUpdates(t: Transient, pluginDir: string, current: string, fetch: Option<Release>): (r: Transient)
    ensures r.checked == t.checked
    ensures forall k :: k != Basename(pluginDir) ==> SameEntry(r.response, t.response, k)
    ensures |t.checked| == 0 ==> r == t
    ensures |t.checked| > 0 && UpdateAvailable(current, fetch) ==>
              && Basename(pluginDir) in r.response
              && r.response[Basename(pluginDir)].slug == PluginSlug
              && r.response[Basename(pluginDir)].plugin == Basename(pluginDir)
              && r.response[Basename(pluginDir)].url == ProjectUrl
              && r.response[Basename(pluginDir)].newVersion == RemoteVersion(current, fetch).version
              && r.response[Basename(pluginDir)].package == PackageUrl(RemoteVersion(current, fetch).tagName)
    ensures !UpdateAvailable(current, fetch) ==> r == t
  {
    if |t.checked| == 0 then t
    else
      var data := RemoteVersion(current, fetch);
      if VersionLess(current, data.version) then
        t.(response := t.response[Basename(pluginDir) := Offer(pluginDir, data)])
      else t
  }

  /** A failed fetch, or a release without a tag, never offers an update. */
  lemma NoUpdateWithoutTag(t: Transient, pluginDir: string, current: string, fetch: Option<Release>)
    requires fetch.None? || fetch.value.tagName.None?
    ensures CheckForUpdates(t, pluginDir, current, fetch) == t
  {
    VersionLessIrreflexive(current);
  }

  /** A release tagged with the installed version, with or without a `v`, offers nothing either. */
  lemma NoUpdateForSameVersion(t: Transient, pluginDir: string, current: string, body: Option<string>)
    requires |current| == 0 || current[0] != 'v'
    ensures CheckForUpdates(t, pluginDir, current, Some(Release(Some("v" + current), body))) == t
    ensures CheckForUpdates(t, pluginDir, current, Some(Release(Some(current), body))) == t
  {
    VersionLessIrreflexive(current);
    var tag := "v" + current;
    assert tag[1..] == current;
    assert Text.TrimLeft(tag, 'v') == current;
  }

  /** Running the check twice on the same release changes nothing the first run did not. */
  lemma CheckForUpdatesIdempotent(t: Transient, pluginDir: string, current: string, fetch: Option<Release>)
    ensures CheckForUpdates(CheckForUpdates(t, pluginDir, current, fetch), pluginDir, current, fetch)
         == CheckForUpdates(t, pluginDir, current, fetch)
  {
  }

  /** Tag `v2.0.0` against installed `1.0.4` offers version 2.0.0. */
  lemma NewerTagExample(t: Transient, pluginDir: string)
    requires |t.checked| > 0
    ensures var r := CheckForUpdates(t, pluginDir, "1.0.4", Some(Release(Some("v2.0.0"), None)));
            Basename(pluginDir) in r.response && r.response[Basename(pluginDir)].newVersion == "2.0.0"
  {
    var fetch := Some(Release(Some("v2.0.0"), None));
    var tag := "v2.0.0";
    assert tag[1..] == "2.0.0";
    assert Text.TrimLeft(tag, 'v') == "2.0.0";
    assert RemoteVersion("1.0.4", fetch).version == "2.0.0";
    VersionLessMajor();
    assert UpdateAvailable("1.0.4", fetch);
  }

  /** Tag `v1.0.4` against installed `1.0.4` offers nothing. */
  lemma SameTagExample(t: Transient, pluginDir: string)
    ensures CheckForUpdates(t, pluginDir, "1.0.4", Some(Release(Some("v1.0.4"), None))) == t
  {
    assert "v1.0.4" == "v" + "1.0.4";
    NoUpdateForSameVersion(t, pluginDir, "1.0.4", None);
  }

  /** The fixed descriptions `plugin_info` answers with; `version`, `changelog` and `downloadLink` come from GitHub. */
  datatype PluginInformation = PluginInformation(
    slug: string,
    pluginName: string,
    name: string,
    version: string,
    lastUpdated: string,
    minimumWordPress: string,
    compatibleUpTo: string,
    author: string,
    authorProfile: string,
    homepage: string,
    description: string,
    changelog: string,
    downloadLink: string)

  /** What the `plugins_api` filter returns: the incoming result untouched, or this plugin's details. */
  datatype InfoReply<R> = PassThrough(result: R) | Answer(info: PluginInformation)

  /**
   * `plugin_info`: answers only the `plugin_information` action asked about this
   * plugin's slug (`argsSlug` is `None` when the arguments carry no slug). The
   * handler fetches the release twice, once for the version and once for the
   * changelog, so the two fetches are separate parameters; `today` is the date.
   */
  function PluginInfo<R>(result: R, action: string, argsSlug: Option<string>, current: string, today: string,
                         versionFetch: Option<Release>, changelogFetch: Option<Release>,
                         rewrite: string -> string): (r: InfoReply<R>)
    ensures r.PassThrough? <==> action != "plugin_information" || argsSlug != Some(PluginSlug)
    ensures r.PassThrough? ==> r.result == result
    ensures r.Answer? ==>
              && r.info.slug == PluginSlug
              && r.info.version == RemoteVersion(current, versionFetch).version
              && r.info.downloadLink == PackageUrl(RemoteVersion(current, versionFetch).tagName)
              && r.info.changelog == Changelog.GetChangelog(changelogFetch, rewrite)
              && r.info.lastUpdated == today
  {
    if action != "plugin_information" then PassThrough(result)
    else if argsSlug != Some(PluginSlug) then PassThrough(result)
    else
      var data := RemoteVersion(current, versionFetch);
      Answer(PluginInformation(
        PluginSlug, PluginName, PluginName, data.version, today, "6.0", "6.8",
        "<a href=\"https://gpl.is\">GPL.IS</a>", "https://gpl.is", "https://gpl.is",
        "Access premium Elementor template kits and stock photos without an Envato Elements subscription.",
        Changelog.GetChangelog(changelogFetch, rewrite),
        PackageUrl(data.tagName)))
  }

  /**
   * The host asks for details with the offer's own slug; on the same release the answer
   * shows the version and download the update check offered.
   */
  lemma InfoMatchesOffer<R>(t: Transient, pluginDir: string, current: string, fetch: Option<Release>,
                            result: R, today: string, changelogFetch: Option<Release>, rewrite: string -> string)
    requires |t.checked| > 0 && UpdateAvailable(current, fetch)
    ensures var offered := CheckForUpdates(t, pluginDir, current, fetch).response[Basename(pluginDir)];
            var reply := PluginInfo(result, "plugin_information", Some(offered.slug), current, today, fetch, changelogFetch, rewrite);
            reply.Answer? && reply.info.version == offered.newVersion && reply.info.downloadLink == offered.package
  {
  }

  /**
   * `rename_github_folder`, returned path only: for this plugin's own upgrade the
   * extracted files end up in `ultimate-envato-elements/` directly under the
   * remote source directory; any other upgrade keeps its `source`.
   */
  function RenameGithubFolder(source: string, remoteSource: string, hookPlugin: Option<string>,
                              pluginDir: string): (r: string)
    ensures hookPlugin != Some(Basename(pluginDir)) ==> r == source
    ensures hookPlugin == Some(Basename(pluginDir)) ==>
              && |r| > |FolderName|
              && r[|r| - |FolderName|..] == FolderName
              && r[|r| - 1] == '/'
              && var dir := r[..|r| - |FolderName|];
                 && dir[|dir| - 1] == '/'
                 && (|dir| > 1 ==> !Text.IsSlash(dir[|dir| - 2]))
                 && |dir| - 1 <= |remoteSource|
                 && dir[..|dir| - 1] == remoteSource[..|dir| - 1]
                 && (forall i :: |dir| - 1 <= i < |remoteSource| ==> Text.IsSlash(remoteSource[i]))
  {
    if hookPlugin == Some(Basename(pluginDir)) then
      var dir := Text.TrailingSlashIt(remoteSource);
      assert (dir + FolderName)[..|dir|] == dir;
      dir + FolderName
    else source
  }

  /** Trailing slashes on the remote source do not change where the files go. */
  lemma RenameIgnoresTrailingSlash(source: string, remoteSource: string, pluginDir: string)
    ensures RenameGithubFolder(source, remoteSource + "/", Some(Basename(pluginDir)), pluginDir)
         == RenameGithubFolder(source, remoteSource, Some(Basename(pluginDir)), pluginDir)
    ensures RenameGithubFolder(source, Text.TrailingSlashIt(remoteSource), Some(Basename(pluginDir)), pluginDir)
         == RenameGithubFolder(source, remoteSource, Some(Basename(pluginDir)), pluginDir)
  {
  }

  /**
   * `clear_update_info`: after a completed plugin update, the stored transient
   * (`None` when the host has none) loses this plugin's `response` entry. The
   * result is the transient written back, `None` when nothing is written.
   */
  function ClearUpdateInfo(action: Option<string>, kind: Option<string>, stored: Option<Transient>,
                           pluginDir: string): (written: Option<Transient>)
    ensures written.Some? <==>
              && action == Some("update") && kind == Some("plugin")
              && stored.Some? && Basename(pluginDir) in stored.value.response
    ensures written.Some? ==>
              && written.value.checked == stored.value.checked
              && Basename(pluginDir) !in written.value.response
              && forall k :: k != Basename(pluginDir) ==> SameEntry(written.value.response, stored.value.response, k)
  {
    if action == Some("update") && kind == Some("plugin") then
      match stored
      case None => None
      case Some(t) =>
        if Basename(pluginDir) in t.response then
          Some(t.(response := t.response - {Basename(pluginDir)}))
        else None
    else None
  }

  /**
   * The transient after `clear_update_info`: the value it passed to `set_site_transient`,
   * or the old one when nothing was written. The host's `pre_set_site_transient_update_plugins`
   * filters, which run on that write, are not applied here; see `ClearRefilteredReoffers`.
   */
  function StoredAfter(stored: Option<Transient>, written: Option<Transient>): Option<Transient> {
    if written.Some? then written else stored
  }

  /** A second clear finds nothing to remove and writes nothing. */
  lemma ClearUpdateInfoIdempotent(action: Option<string>, kind: Option<string>, stored: Option<Transient>, pluginDir: string)
    ensures var once := StoredAfter(stored, ClearUpdateInfo(action, kind, stored, pluginDir));
            ClearUpdateInfo(action, kind, once, pluginDir) == None
  {
  }

  /** Clearing after an update the check offered restores the transient the check started from. */
  lemma ClearUndoesOffer(t: Transient, pluginDir: string, current: string, fetch: Option<Release>)
    requires |t.checked| > 0 && UpdateAvailable(current, fetch)
    requires Basename(pluginDir) !in t.response
    ensures ClearUpdateInfo(Some("update"), Some("plugin"), Some(CheckForUpdates(t, pluginDir, current, fetch)), pluginDir)
         == Some(t)
  {
    var r := CheckForUpdates(t, pluginDir, current, fetch);
    assert r.response - {Basename(pluginDir)} == t.response;
  }

  /**
   * The write in `clear_update_info` goes through the host's pre-set filter, on which
   * `check_for_updates` is registered. While the installed-version constant is still
   * older than the release, the filtered value holds the offer again.
   */
  lemma ClearRefilteredReoffers(action: Option<string>, kind: Option<string>, stored: Option<Transient>,
                                pluginDir: string, current: string, fetch: Option<Release>)
    requires ClearUpdateInfo(action, kind, stored, pluginDir).Some?
    requires |stored.value.checked| > 0 && UpdateAvailable(current, fetch)
    ensures var filtered := CheckForUpdates(ClearUpdateInfo(action, kind, stored, pluginDir).value, pluginDir, current, fetch);
            && Basename(pluginDir) in filtered.response
            && filtered.response[Basename(pluginDir)] == Offer(pluginDir, RemoteVersion(current, fetch))
  {
  }
}
