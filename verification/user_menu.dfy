/**
  The user menu's name and avatar letter: the signed-in user's name, or the
  local part of the e-mail address when the name is empty.
 */
module UserMenu {
  import opened Wrappers
  import opened Text

  /** The fields of the signed-in user the menu reads. */
  datatype MenuUser = MenuUser(name: string, email: string)

  datatype MenuView = MenuView(displayName: string, avatarText: string)

  /** `email.split('@')[0]`: the text before the first `@`, or all of it. */
  function LocalPart(email: string): (r: string)
    ensures r <= email && '@' !in r
    ensures r == email <==> '@' !in email
    ensures r != email ==> email[|r|] == '@'
  {
    match IndexOfChar(email, '@')
    case None => email
    case Some(k) => email[..k]
  }

  /** The name, or the e-mail's local part when the name is empty. */
  function DisplayName(u: MenuUser): (r: string)
    ensures u.name != "" ==> r == u.name
    ensures u.name == "" ==> r <= u.email && '@' !in r && (r == u.email || u.email[|r|] == '@')
  {
    if u.name != "" then u.name else LocalPart(u.email)
  }

  /** The upper-cased first character of the name, or of the e-mail when the name is empty. */
  function AvatarText(u: MenuUser): (r: string)
    ensures |r| <= 1
    ensures u.name != "" ==> r == [UpperChar(u.name[0])]
    ensures u.name == "" && u.email != "" ==> r == [UpperChar(u.email[0])]
    ensures u.name == "" && u.email == "" ==> r == ""
  {
    var source := if u.name != "" then u.name else u.email;
    if source == "" then "" else [UpperChar(source[0])]
  }

  /** The menu: nothing without a signed-in user. */
  function Menu(user: Option<MenuUser>): (v: Option<MenuView>)
    ensures v.None? <==> user.None?
    ensures v.Some? ==> v.value == MenuView(DisplayName(user.value), AvatarText(user.value))
  {
    match user
    case None => None
    case Some(u) => Some(MenuView(DisplayName(u), AvatarText(u)))
  }

  /**
    The avatar letter follows the display name: its first character, upper
    cased, for every user with a non-empty display name; a `@` when the
    name is empty and the address starts with `@` (empty local part); and
    nothing without a name or an address.
   */
  lemma AvatarFromDisplayName(u: MenuUser)
    ensures AvatarText(u) == if DisplayName(u) != "" then [UpperChar(DisplayName(u)[0])]
                             else if u.email != "" then "@" else ""
  {
    if u.name == "" && u.email != "" {
      var l := LocalPart(u.email);
      if l == "" {
        assert u.email[0] == '@';
      } else {
        assert l[0] == u.email[0];
      }
    }
  }
}
