# Ultimate Envato Elements: updater and dependency check, modelled in Dafny

This project models two parts of the WordPress plugin Ultimate Envato Elements.

1. **The GitHub self-updater.** Each hook handler is a pure function:
   - `get_remote_version` is `Remote.RemoteVersion`.
   - `check_for_updates` is `Updater.CheckForUpdates`.
   - `plugin_info` is `Updater.PluginInfo`.
   - `rename_github_folder` is `Updater.RenameGithubFolder`, modelling the returned path only.
   - `clear_update_info` is `Updater.ClearUpdateInfo`.
   - `get_changelog` is `Changelog.GetChangelog`.

   The host's `update_plugins` transient is an immutable record: a `checked` map and a `response` map keyed by plugin basename. A release fetch is `Option<Release>`, with `None` standing for a transport error. The release's `tag_name` and `body` are each optional. The installed version constant (`1.0.4` in `ultimate-envato-elements.php`) is a parameter.
2. **The companion-plugin dependency check.** `check_envato_elements_dependency` is `Dependency.DependencyNotices`, a decision function whose result is the set of admin notices it registers. The notice's install-or-activate link is `Dependency.NoticeLink`.

PHP's `version_compare($a, $b, '<')` is `Versions.VersionLess`, a concrete dotted-numeric order:
- A version is cut into segments at `.`.
- A digit segment with value n ranks n + 1.
- Any other segment ranks -1.
- A position past the end of the shorter version ranks 0.
- Versions compare lexicographically on these ranks.

This gives numeric comparison of segments (`2.0.9` < `2.0.16`). It also follows PHP's rule for unequal lengths: an extra numeric segment makes a version newer, and an extra word segment makes it older. The order is proved irreflexive and transitive. Irreflexivity is the property the updater relies on.

These facts about the code shape the model:
- `get_remote_version` strips every leading `v` from the tag (PHP `ltrim`).
- `version_compare` treats an empty version as below every non-empty one before comparing segments; `Versions.VersionLess` does the same.
- The offered package is GitHub's `.zip` archive of the tag.
- `plugin_info` fetches the release twice: once for the version and once inside `get_changelog`. So `PluginInfo` takes two independent fetches.

## Model

| member | source | states |
|---|---|---|
| Remote.RemoteVersion | includes/class-ultimate-envato-elements-updater.php:200-224 | on a transport error or a missing tag: the version is the installed one and the tag is `v` + version; otherwise the tag is kept verbatim and the version is the tag with all leading `v`s removed (a suffix of the tag, preceded only by `v`s, not itself starting with `v`) |
| Remote.PackageUrlInjective | includes/class-ultimate-envato-elements-updater.php:145 | distinct tags give distinct `archive/refs/tags/<tag>.zip` download URLs |
| Updater.CheckForUpdates | includes/class-ultimate-envato-elements-updater.php:129-150 | `checked` is never changed; only the plugin's own `response` key can change; an empty `checked` passes the transient through; a newer remote version puts an offer under the plugin basename with `slug` = the plugin slug, `plugin` = the basename, `url` = the GitHub project URL, `new_version` = the remote version and `package` built from the tag; no newer version leaves the transient unchanged |
| Updater.NoUpdateWithoutTag | includes/class-ultimate-envato-elements-updater.php:203-218 | a failed fetch or a release without `tag_name` never adds an update entry, because the fallback remote version equals the installed one and the comparison at line 139 is irreflexive |
| Updater.NoUpdateForSameVersion | includes/class-ultimate-envato-elements-updater.php:220-223 | a release tagged with the installed version, with or without the `v`, offers nothing |
| Updater.CheckForUpdatesIdempotent | includes/class-ultimate-envato-elements-updater.php:139-147 | running the check twice on the same release gives the same transient as running it once |
| Updater.NewerTagExample | includes/class-ultimate-envato-elements-updater.php:139-146 | tag `v2.0.0` against installed `1.0.4` offers `new_version` `2.0.0` |
| Updater.SameTagExample | includes/class-ultimate-envato-elements-updater.php:139 | tag `v1.0.4` against installed `1.0.4` leaves the transient unchanged |
| Updater.PluginInfo | includes/class-ultimate-envato-elements-updater.php:161-192 | the incoming result is returned untouched exactly when the action is not `plugin_information` or the slug is not the plugin's; otherwise the answer carries the remote version, the tag's download link, the changelog of its own fetch and today's date |
| Updater.InfoMatchesOffer | includes/class-ultimate-envato-elements-updater.php:170-189 | asked for details with the offer's own slug, on the same release, the details modal shows the same version and download link that the update check offered |
| Updater.RenameGithubFolder | includes/class-ultimate-envato-elements-updater.php:97-119 | any other upgrade keeps its `source`; this plugin's upgrade returns the remote source with every trailing `/` and `\` removed, then exactly one `/`, then `ultimate-envato-elements/`, so the path ends in `/` |
| Updater.RenameIgnoresTrailingSlash | includes/class-ultimate-envato-elements-updater.php:98 | extra trailing slashes on the remote source, or an earlier `trailingslashit`, do not change the returned path |
| Updater.ClearUpdateInfo | includes/class-ultimate-envato-elements-updater.php:288-298 | a write happens exactly when the action is `update`, the type is `plugin` and the stored transient holds the plugin's key; the written transient lacks that key, keeps `checked` and every other `response` entry |
| Updater.ClearUpdateInfoIdempotent | includes/class-ultimate-envato-elements-updater.php:293-296 | a second clear after the first finds nothing and writes nothing |
| Updater.ClearUndoesOffer | includes/class-ultimate-envato-elements-updater.php:289-295 | clearing after an offered update restores the transient the check started from, when the plugin had no entry before |
| Updater.ClearRefilteredReoffers | includes/class-ultimate-envato-elements-updater.php:75-80 | the cleared transient, passed through `check_for_updates` (registered on the pre-set filter that the write at line 295 runs), holds the offer again while the installed version is older than the release |
| Changelog.SplitSections | includes/class-ultimate-envato-elements-updater.php:250 | the split yields at least one section, and the first section is a prefix of the body |
| Changelog.SplitSectionsJoin | includes/class-ultimate-envato-elements-updater.php:250 | joining the sections with the newlines the split dropped gives back the body |
| Changelog.SplitSectionsShape | includes/class-ultimate-envato-elements-updater.php:250 | no section contains a newline followed by `#`, and every section after the first starts with `#` |
| Changelog.SplitSectionsSingle | includes/class-ultimate-envato-elements-updater.php:250 | a body with no newline-before-`#` is a single section |
| Changelog.StripMarkers | includes/class-ultimate-envato-elements-updater.php:267-269 | a stripped section contains no `*` and no backtick |
| Changelog.StripMarkersMeaning | includes/class-ultimate-envato-elements-updater.php:267-269 | the `**` pass is subsumed by the `*` pass; a section without markers passes through unchanged |
| Changelog.FormatSections | includes/class-ultimate-envato-elements-updater.php:253-273 | the result is the rewritten sections concatenated in order, with every `*` and backtick removed and nothing else changed |
| Changelog.GetChangelog | includes/class-ultimate-envato-elements-updater.php:232-279 | empty on a transport error or a missing body; otherwise `<div class="changelog">`, then the body's rewritten sections in order with every `*` and backtick removed, then `</div>` |
| Changelog.PlainChangelog | includes/class-ultimate-envato-elements-updater.php:247-276 | a one-section body without markers that the rewrites leave alone is wrapped verbatim |
| Text.TrimLeft | includes/class-ultimate-envato-elements-updater.php:221 | `ltrim` with one character returns the suffix left after the longest run of that character at the start |
| Text.TrailingSlashIt | includes/class-ultimate-envato-elements-updater.php:98 | the result ends in exactly one `/`, after the input with its trailing `/` and `\` removed |
| Text.TrailingSlashItIdempotent | includes/class-ultimate-envato-elements-updater.php:98 | applying `trailingslashit` twice equals applying it once |
| Text.RemoveChar | includes/class-ultimate-envato-elements-updater.php:268-269 | `str_replace(c, '')` leaves no `c` and keeps every other character with its multiplicity |
| Text.RemoveCharAppend | includes/class-ultimate-envato-elements-updater.php:268-269 | removing a character distributes over concatenation, so the order of the remaining characters is kept |
| Text.RemoveDoubledThenChar | includes/class-ultimate-envato-elements-updater.php:267-268 | removing `**` pairs and then every `*` is the same as removing every `*` |
| Text.SplitOnJoin | includes/class-ultimate-envato-elements-updater.php:139 | cutting a version string at `.` and joining with `.` gives it back |
| Versions.VersionLessIrreflexive | includes/class-ultimate-envato-elements-updater.php:139 | no version is older than itself |
| Versions.VersionLessEmpty | includes/class-ultimate-envato-elements-updater.php:139 | the empty version is below every non-empty version and nothing is below it, as PHP's `version_compare` decides before splitting |
| Versions.VersionLessTransitive | includes/class-ultimate-envato-elements-updater.php:139 | the version order is transitive |
| Versions.VersionLessAsymmetric | includes/class-ultimate-envato-elements-updater.php:139 | two versions are never each older than the other |
| Versions.VersionLessNumericSegments | admin/class-ultimate-envato-elements-admin.php:119 | `2.0.9` is older than `2.0.16` and not the other way round |
| Versions.VersionLessMajor | includes/class-ultimate-envato-elements-updater.php:139 | `1.0.4` is older than `2.0.0` |
| Versions.VersionLessLongerNumeric | includes/class-ultimate-envato-elements-updater.php:139 | `1.0` is older than `1.0.0` |
| Dependency.DependencyNotices | admin/class-ultimate-envato-elements-admin.php:99-122 | no notice during a companion install or for a user who may not install plugins; the install/activate notice exactly when the companion is missing or inactive; the version notice exactly when it is installed, active and below `2.0.16`; never both |
| Dependency.CheckDependencyAsWritten | admin/class-ultimate-envato-elements-admin.php:92-101 | a request whose nonce verifies for `install-plugin`, with action `install-plugin` and plugin `envato-elements`, gets no notice; any other request gets the notices of the decision above |
| Dependency.CheckDependency | admin/class-ultimate-envato-elements-admin.php:92-101 | as above, with the nonce verified for `install-plugin_envato-elements`, the action the install link signs |
| Dependency.NoticeLink | admin/class-ultimate-envato-elements-admin.php:135-146 | an installed companion gets the `plugins.php` activate link; a missing one gets the `update.php` install link, signed for `install-plugin_envato-elements` |
| Dependency.InstallLinkMissedAsWritten | admin/class-ultimate-envato-elements-admin.php:94 | as written, following the notice's own install link is never recognised as an install in progress, so the notice is registered again on the install page |
| Dependency.InstallLinkRecognised | admin/class-ultimate-envato-elements-admin.php:137 | with the corrected nonce action, following the install link is recognised and no notice is registered |
| Dependency.VersionNoticeExamples | admin/class-ultimate-envato-elements-admin.php:115-121 | for a user who may install plugins, outside an install, an installed and active companion at `2.0.9` gets the version notice; one at `2.0.16` gets none |

## Left out

- HTTP requests (`wp_remote_get`, `wp_remote_retrieve_body`) and `json_decode` are not modelled. Each fetch is an `Option<Release>` parameter.
- A `tag_name` or `body` that decodes to something other than a string is not modelled.
- The filesystem work in `rename_github_folder` (`mkdir`, `dirlist`, `move`, `delete`) is not modelled; only the returned path is.
- The heading, list and link regular-expression rewrites in `get_changelog` (lines 255-264) are not modelled. They are the opaque parameter `rewrite`, applied to each section between the split and the strip.
- Versions.VersionLess: does not model the rest of PHP's `version_compare` canonicalisation. That covers `-`, `_` and `+` as separators, the breaks inserted between digits and letters, and the ordering of `dev`, `alpha`, `beta`, `RC` and `pl`. Every non-numeric segment ranks below every number, and all of them rank alike.
- Versions.VersionLess: digit segments compare as unbounded integers. PHP reads them with C `strtol`, which saturates at `LONG_MAX` (2147483647 on Windows and 32-bit builds, 9223372036854775807 elsewhere). So two segments beyond that bound compare equal in PHP but are ordered by value here.
- Updater.ClearUpdateInfo: the value it writes is what the model calls the stored transient (`Updater.StoredAfter`). The host passes that write through its `pre_set_site_transient_update_plugins` filters, and `check_for_updates` is one of them. So the stored value is really `check_for_updates` applied to the cleared transient. `StoredAfter`, `ClearUpdateInfoIdempotent` and `ClearUndoesOffer` ignore this filtering. `Updater.ClearRefilteredReoffers` states its effect: while the installed-version constant is older than the release, the offer is put back. The rest of the host's upgrade sequence, which may delete the transient afterwards, is not modelled.
- The update transient carries only `checked` and `response`. Its other fields (`last_checked`, `no_update`, `translations`) are not modelled.
- `empty()` on `checked` is modelled as "the map has no entries". PHP's truthiness of non-array values is not modelled.
- Host services are parameters or are not modelled:
  - `wp_verify_nonce` is reduced to the action a nonce was minted for plus one opaque validity bit.
  - `current_user_can`, `file_exists`, `is_plugin_active` and `get_plugin_data` are plain parameters.
  - `gmdate` is the parameter `today`.
  - The plugin's install directory, from `basename(dirname(__DIR__))`, is the parameter `pluginDir`.
- Presentation is not modelled: style and script enqueueing, translated strings, the notice HTML and `display_version_notice`.
- `modify_envato_elements_options` and `modify_envato_api_request` are not part of this model. They rewrite another plugin's licence record and reroute its licensed downloads.
- Hook registration and bootstrap are not modelled: `includes/class-ultimate-envato-elements.php`, `ultimate-envato-elements.php` and `includes/class-ultimate-envato-elements-i18n.php`.

## Findings

| source | as written | input that shows it | evidently intended | confidence | as-written member | corrected member |
|---|---|---|---|---|---|---|
| admin/class-ultimate-envato-elements-admin.php:94 | the install-in-progress guard verifies the nonce for the action `install-plugin` | following the notice's own install link, whose nonce is minted for `install-plugin_envato-elements` (line 137), with `action=install-plugin&plugin=envato-elements` | verify the nonce for `install-plugin_envato-elements`, so no notice is registered while that install runs | medium; not executed | Dependency.InstallLinkMissedAsWritten | Dependency.InstallLinkRecognised |
