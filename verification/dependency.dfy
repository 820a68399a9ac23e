/**
 * The companion-plugin dependency check run on `admin_init`, and the link the
 * resulting notice offers. The host's answers (capability, installed, active,
 * installed version) are parameters. A nonce is modelled as the action it was
 * minted for plus one opaque bit, `live`, standing for everything else
 * `wp_verify_nonce` checks (user, session, time window).
 */
module Dependency {
  import opened Wrappers
  import opened Versions

  const CompanionSlug := "envato-elements"
  const CompanionFile := "envato-elements/envato-elements.php"
  /** Installed companion versions below this one get the update notice. */
  const RequiredVersion := "2.0.16"

  /** The action the check verifies the request's nonce against. */
  const CheckedNonceAction := "install-plugin"
  /** The action the install link's nonce is minted for. */
  const InstallNonceAction := "install-plugin_envato-elements"

  datatype Notice = DependencyNotice | VersionNotice

  datatype Nonce = Nonce(mintedFor: string, live: bool)

  /** `wp_verify_nonce`: the nonce was minted for `action` and is still valid for this user. */
  predicate NonceVerifies(n: Nonce, action: string) {
    n.live && n.mintedFor == action
  }

  /** The query arguments the check reads; `None` for an argument not present. */
  datatype Request = Request(action: Option<string>, nonce: Option<Nonce>, plugin: Option<string>)

  /** The install-in-progress test, verifying the nonce against `nonceAction`. */
  predicate InstallingWith(req: Request, nonceAction: string) {
    && req.action.Some?
    && req.nonce.Some?
    && NonceVerifies(req.nonce.value, nonceAction)
    && req.action.value == "install-plugin"
    && req.plugin.Some?
    && req.plugin.value == CompanionSlug
  }

  /**
   * The notices `check_envato_elements_dependency` registers: none while the
   * companion is being installed or for a user who may not install plugins; the
   * install/activate notice when the companion is missing or inactive; the version
   * notice when it is installed and active but older than the required version.
   */
  function DependencyNotices(installing: bool, canInstall: bool, installed: bool, active: bool,
                             installedVersion: string): (r: set<Notice>)
    ensures installing || !canInstall ==> r == {}
    ensures DependencyNotice in r <==> !installing && canInstall && (!installed || !active)
    ensures VersionNotice in r <==>
              !installing && canInstall && installed && active && VersionLess(installedVersion, RequiredVersion)
    ensures |r| <= 1
  {
    if installing then {}
    else if !canInstall then {}
    else if !installed || !active then {DependencyNotice}
    else if VersionLess(installedVersion, RequiredVersion) then {VersionNotice}
    else {}
  }

  /** The check as written: the nonce is verified against `install-plugin`. */
  function CheckDependencyAsWritten(req: Request, canInstall: bool, installed: bool, active: bool,
                                    installedVersion: string): (r: set<Notice>)
    ensures InstallingWith(req, CheckedNonceAction) ==> r == {}
    ensures !InstallingWith(req, CheckedNonceAction) ==>
              r == DependencyNotices(false, canInstall, installed, active, installedVersion)
  {
    DependencyNotices(InstallingWith(req, CheckedNonceAction), canInstall, installed, active, installedVersion)
  }

  /** The check with the nonce verified against the action the install link mints it for. */
  function CheckDependency(req: Request, canInstall: bool, installed: bool, active: bool,
                           installedVersion: string): (r: set<Notice>)
    ensures InstallingWith(req, InstallNonceAction) ==> r == {}
    ensures !InstallingWith(req, InstallNonceAction) ==>
              r == DependencyNotices(false, canInstall, installed, active, installedVersion)
  {
    DependencyNotices(InstallingWith(req, InstallNonceAction), canInstall, installed, active, installedVersion)
  }

  /** A link the notice offers: the admin page, its query arguments and the nonce's action. */
  datatype Link = Link(page: string, action: string, plugin: string, nonceAction: string)

  /** The link in `display_envato_elements_notice`: activate an installed companion, install a missing one. */
  function NoticeLink(installed: bool): (l: Link)
    ensures installed ==> l.page == "plugins.php" && l.action == "activate" && l.plugin == CompanionFile
    ensures !installed ==> l.page == "update.php" && l.action == "install-plugin" && l.plugin == CompanionSlug
                           && l.nonceAction == InstallNonceAction
  {
    if installed then Link("plugins.php", "activate", CompanionFile, "activate-plugin_" + CompanionFile)
    else Link("update.php", "install-plugin", CompanionSlug, InstallNonceAction)
  }

  /** The request a user sends by following `link`; `live` says whether the nonce is still valid for them. */
  function Follow(link: Link, live: bool): Request {
    Request(Some(link.action), Some(Nonce(link.nonceAction, live)), Some(link.plugin))
  }

  /**
   * As written, following the notice's own install link is never recognised as an
   * install in progress, so the install notice still appears on the install page.
   */
  lemma InstallLinkMissedAsWritten(live: bool, installedVersion: string)
    ensures !InstallingWith(Follow(NoticeLink(false), live), CheckedNonceAction)
    ensures CheckDependencyAsWritten(Follow(NoticeLink(false), true), true, false, false, installedVersion)
         == {DependencyNotice}
  {
  }

  /** Verifying against the link's nonce action recognises the install, so no notice appears. */
  lemma InstallLinkRecognised(canInstall: bool, installed: bool, active: bool, installedVersion: string)
    ensures InstallingWith(Follow(NoticeLink(false), true), InstallNonceAction)
    ensures CheckDependency(Follow(NoticeLink(false), true), canInstall, installed, active, installedVersion) == {}
  {
  }

  /** An installed, active companion at 2.0.9 gets the version notice; at 2.0.16 it gets none. */
  lemma VersionNoticeExamples()
    ensures DependencyNotices(false, true, true, true, "2.0.9") == {VersionNotice}
    ensures DependencyNotices(false, true, true, true, "2.0.16") == {}
  {
    VersionLessNumericSegments();
    VersionLessIrreflexive(RequiredVersion);
  }
}
