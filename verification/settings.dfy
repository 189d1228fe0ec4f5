/**
  The settings page: the password-change check and the privacy switches,
  whose stored values override the defaults one key at a time.
 */
module Settings {
  import opened Wrappers
  import UserMenu

  /** The page shows its forms only to a signed-in user. */
  datatype SettingsView = RequireLogin | Forms

  function View<U>(isLoggedIn: bool, user: Option<U>): (v: SettingsView)
    ensures v == Forms <==> isLoggedIn && user.Some?
  {
    if !isLoggedIn || user.None? then RequireLogin else Forms
  }

  /** The page shows its forms exactly when the header's user menu shows a user. */
  lemma ViewMatchesMenu(isLoggedIn: bool, user: Option<UserMenu.MenuUser>)
    ensures View(isLoggedIn, user) == Forms <==> isLoggedIn && UserMenu.Menu(user).Some?
  {
  }

  /** The three password fields and the error shown above them. */
  datatype PasswordForm = PasswordForm(current: string, newPassword: string, confirm: string, mismatch: bool)

  /**
    `handleChangePassword`: an empty new password or one that differs from
    its confirmation is refused and the fields kept; otherwise the change
    goes through and all three fields are cleared.
   */
  function ChangePassword(f: PasswordForm): (r: PasswordForm)
    ensures r.mismatch <==> f.newPassword == "" || f.newPassword != f.confirm
    ensures r.mismatch ==> r.current == f.current && r.newPassword == f.newPassword && r.confirm == f.confirm
    ensures !r.mismatch ==> r.current == "" && r.newPassword == "" && r.confirm == ""
  {
    if f.newPassword == "" || f.newPassword != f.confirm then PasswordForm(f.current, f.newPassword, f.confirm, true)
    else PasswordForm("", "", "", false)
  }

  /** After a successful change, submitting again is refused: the cleared new password is empty. */
  lemma ChangeThenResubmit(f: PasswordForm)
    requires !ChangePassword(f).mismatch
    ensures ChangePassword(ChangePassword(f)).mismatch
  {
  }

  datatype Privacy = Privacy(showEmail: bool, allowDMs: bool, showOnlineStatus: bool, showActivity: bool)

  /** The page's defaults: the address hidden, everything else allowed. */
  const DefaultPrivacy: Privacy := Privacy(false, true, true, true)

  /** A stored privacy object: a key it lacks is `None`. */
  datatype PrivacyPatch = PrivacyPatch(
    showEmail: Option<bool>, allowDMs: Option<bool>, showOnlineStatus: Option<bool>, showActivity: Option<bool>)

  /** `{ ...p, ...parsed }`: every key the stored object has overrides the current value. */
  function Merge(p: Privacy, patch: PrivacyPatch): (r: Privacy)
    ensures r.showEmail == patch.showEmail.GetOr(p.showEmail)
    ensures r.allowDMs == patch.allowDMs.GetOr(p.allowDMs)
    ensures r.showOnlineStatus == patch.showOnlineStatus.GetOr(p.showOnlineStatus)
    ensures r.showActivity == patch.showActivity.GetOr(p.showActivity)
  {
    Privacy(
      patch.showEmail.GetOr(p.showEmail),
      patch.allowDMs.GetOr(p.allowDMs),
      patch.showOnlineStatus.GetOr(p.showOnlineStatus),
      patch.showActivity.GetOr(p.showActivity))
  }

  /** The full patch of a setting: every key present. */
  function Full(p: Privacy): PrivacyPatch
  {
    PrivacyPatch(Some(p.showEmail), Some(p.allowDMs), Some(p.showOnlineStatus), Some(p.showActivity))
  }

  /** A saved complete setting comes back as itself, whatever it is merged over; an empty patch changes nothing; merging is idempotent. */
  lemma MergeLaws(p: Privacy, q: Privacy, patch: PrivacyPatch)
    ensures Merge(q, Full(p)) == p
    ensures Merge(p, PrivacyPatch(None, None, None, None)) == p
    ensures Merge(Merge(p, patch), patch) == Merge(p, patch)
  {
  }

  /**
    The privacy switches after loading: the defaults, overridden by the
    stored object when something non-empty is stored and parses; a stored
    text that does not parse is ignored.
   */
  function LoadPrivacy(raw: Option<string>, parse: string -> Option<PrivacyPatch>): (r: Privacy)
    ensures raw.None? || raw.value == "" ==> r == DefaultPrivacy
    ensures raw.Some? && raw.value != "" && parse(raw.value).None? ==> r == DefaultPrivacy
    ensures raw.Some? && raw.value != "" && parse(raw.value).Some? ==> r == Merge(DefaultPrivacy, parse(raw.value).value)
  {
    match raw
    case None => DefaultPrivacy
    case Some(text) =>
      if text == "" then DefaultPrivacy
      else
        match parse(text)
        case None => DefaultPrivacy
        case Some(patch) => Merge(DefaultPrivacy, patch)
  }

  /** A saved setting, stored in full, loads back unchanged. */
  lemma SaveThenLoad(p: Privacy, raw: string, parse: string -> Option<PrivacyPatch>)
    requires raw != "" && parse(raw) == Some(Full(p))
    ensures LoadPrivacy(Some(raw), parse) == p
  {
    MergeLaws(p, DefaultPrivacy, Full(p));
  }
}
