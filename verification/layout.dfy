/** The page frame: which navigation item is highlighted, and the signed-in user's name. */
module Layout {
  import opened Wrappers
  import opened Text
  import opened Models

  /** The four navigation targets, in menu order. */
  const NavHrefs: seq<string> := ["/", "/habits", "/analytics", "/profile"]

  /** `isActive`: the root only on the root itself, any other target on every path under it. */
  predicate IsActive(pathname: string, href: string): (active: bool)
    ensures pathname == href ==> active
    ensures href != "/" && active ==> |href| <= |pathname|
  {
    if href == "/" then pathname == "/" else StartsWith(pathname, href)
  }

  /** Whatever the path, at most one navigation item is highlighted. */
  lemma AtMostOneActive(pathname: string, i: nat, j: nat)
    requires i < j < |NavHrefs|
    ensures !(IsActive(pathname, NavHrefs[i]) && IsActive(pathname, NavHrefs[j]))
  {
    // The three targets other than the root already differ in their second character.
    if i > 0 && IsActive(pathname, NavHrefs[i]) {
      assert pathname[1] == pathname[..|NavHrefs[i]|][1] == NavHrefs[i][1];
      assert NavHrefs[i][1] != NavHrefs[j][1];
    }
  }

  /** The habit pages under /habits keep "Habits" highlighted, and not "Dashboard". */
  lemma HabitPagesHighlightHabits(id: string)
    ensures IsActive("/habits/new", "/habits") && !IsActive("/habits/new", "/")
    ensures IsActive("/habits/" + id + "/edit", "/habits")
  {
    assert ("/habits/" + id + "/edit")[..7] == "/habits";
  }

  /** The signed-in user as the frame sees it; a missing field is None. */
  datatype Profile = Profile(firstName: Option<string>, username: Option<string>)

  /** The name in the top bar: the first name, else the username; nothing when neither is set. */
  function DisplayName(user: Option<Profile>): (name: string)
    ensures user.Some? && Truthy(user.value.firstName) ==> name == user.value.firstName.value
    ensures user.Some? && !Truthy(user.value.firstName) ==>
              name == (if user.value.username.Some? then user.value.username.value else "")
    ensures user.None? ==> name == ""
  {
    if user.None? then ""
    else if Truthy(user.value.firstName) then user.value.firstName.value
    else if user.value.username.Some? then user.value.username.value
    else ""
  }

  /** The avatar letter: the first letter of the first name, else of the username, else 'U', upper-cased. */
  function AvatarInitial(user: Option<Profile>): (c: char)
    ensures !('a' <= c <= 'z')
  {
    var initial :=
      if user.Some? && Truthy(user.value.firstName) then user.value.firstName.value[0]
      else if user.Some? && Truthy(user.value.username) then user.value.username.value[0]
      else 'U';
    UpperChar(initial)
  }

  /** The avatar shows the upper-cased first letter of the name shown, or 'U' when no name is shown. */
  lemma AvatarMatchesName(user: Option<Profile>)
    ensures DisplayName(user) != "" ==> AvatarInitial(user) == UpperChar(DisplayName(user)[0])
    ensures DisplayName(user) == "" ==> AvatarInitial(user) == 'U'
  {
  }
}
