/** The portal's entry points that only decide: the redirect by role, the
    admin check every admin handler starts with, the document-kind check,
    the group listing, and the scope of a user's token. */
module Portal {
  import opened Wrappers
  import opened Models
  import opened Errors
  import opened Http
  import Store

  // ------------------------------------------------------------- ObjectId

  predicate IsHexDigit(c: char) {
    ('0' <= c <= '9') || ('a' <= c <= 'f') || ('A' <= c <= 'F')
  }

  function LowerHex(c: char): (d: char)
    requires IsHexDigit(c)
    ensures ('0' <= d <= '9') || ('a' <= d <= 'f')
  {
    if 'A' <= c <= 'F' then (c as int - 'A' as int + 'a' as int) as char else c
  }

  /** `ObjectId::from_str`: 24 hexadecimal digits in either case. A stored
      id is the lower-case text, so a parsed subject is compared in that
      form. */
  function ObjectIdOf(s: string): (r: Option<string>)
    ensures r.Some? <==> |s| == 24 && forall i :: 0 <= i < |s| ==> IsHexDigit(s[i])
    ensures r.Some? ==> |r.value| == 24 && forall i :: 0 <= i < 24 ==> r.value[i] == LowerHex(s[i])
  {
    if |s| == 24 && forall i :: 0 <= i < |s| ==> IsHexDigit(s[i]) then
      Some(seq(24, i requires 0 <= i < 24 => LowerHex(s[i])))
    else None
  }

  /** `find` of the user whose `_id` is the parsed subject. */
  function FindSubject(users: seq<UserDoc>, subject: string): (r: Result<UserDoc, RouteError>)
    ensures ObjectIdOf(subject).None? <==> r == Err(BadObjectId(subject))
    ensures r.Ok? ==> r.value in users && Some(r.value.id) == ObjectIdOf(subject)
    ensures r.Err? && ObjectIdOf(subject).Some? ==> r == Err(General(Store.NOT_FOUND))
    ensures ObjectIdOf(subject).Some? ==>
      (r.Ok? <==> exists j :: 0 <= j < |users| && users[j].id == ObjectIdOf(subject).value)
    ensures r.Ok? ==> r.value == users[Store.FindById(users, r.value.id).value]
  {
    match ObjectIdOf(subject)
    case None => Err(BadObjectId(subject))
    case Some(id) =>
      match Store.FindUserById(users, id)
      case Ok(u) => Ok(u)
      case Err(e) => Err(General(e))
  }

  /** The group a page is about: the user's first, or "" for a user
      without groups. */
  function FirstGroup(u: UserDoc): string {
    if |u.groups| > 0 then u.groups[0] else ""
  }

  /** The subscriptions of that group, or none when it is not stored. */
  function FirstGroupSubscriptions(u: UserDoc, groups: seq<Group>): (subs: seq<string>)
    ensures Store.FindGroup(groups, FirstGroup(u)).Some? ==>
      subs == groups[Store.FindGroup(groups, FirstGroup(u)).value].subscriptions
    ensures Store.FindGroup(groups, FirstGroup(u)).None? ==> subs == []
  {
    var name := FirstGroup(u);
    match Store.FindGroupByName(groups, name)
    case Ok(g) => g.subscriptions
    case Err(_) => []
  }

  // ------------------------------------------------------------ redirects

  /** `index`: where the portal sends a caller, by role; "/" without a cookie. */
  function IndexLocation(cookie: Option<GuardianCookie>): string {
    match cookie
    case None => "/"
    case Some(c) =>
      match c.userType
      case User => "/portal/user"
      case GroupAdmin => "/portal/group_admin"
      case SystemAdmin => "/portal/system_admin"
  }

  /** The answer of `index`: always a 308 carrying the location. */
  function Index(cookie: Option<GuardianCookie>): (r: Response)
    ensures r.status == 308 && r.headers == [("location", IndexLocation(cookie))]
    ensures cookie.None? <==> IndexLocation(cookie) == "/"
  {
    Response(308, [("location", IndexLocation(cookie))], "")
  }

  /** Each role has its own page. */
  lemma IndexLocationInjective(a: GuardianCookie, b: GuardianCookie)
    ensures IndexLocation(Some(a)) == IndexLocation(Some(b)) <==> a.userType == b.userType
  {
  }

  // ---------------------------------------------------------- check_admin

  const NO_SUBJECT: string := "No user passed from middleware... subject not passed from middleware"

  /** `check_admin`: the cookie passes when its role is the requested one; a
      cookie of another role, or none, is refused with `UserNotFound`. */
  function CheckAdmin(subject: Option<GuardianCookie>, admin: UserType): (r: Result<GuardianCookie, RouteError>)
    ensures r.Ok? <==> subject.Some? && subject.value.userType == admin
    ensures r.Ok? ==> r.value == subject.value
    ensures subject.None? ==> r == Err(UserNotFound(NO_SUBJECT))
    ensures subject.Some? && r.Err? ==>
      r == Err(UserNotFound("User " + subject.value.subject + " is not a system admin"))
  {
    match subject
    case Some(c) =>
      if c.userType == admin then Ok(c)
      else Err(UserNotFound("User " + c.subject + " is not a system admin"))
    case None => Err(UserNotFound(NO_SUBJECT))
  }

  // ------------------------------------------------- portal_hygienic_group

  /** The run-time type of the document handed to the hygiene check. */
  datatype DocKind = GroupDocument | UserDocument | OtherDocument

  /** `portal_hygienic_group`: a group may not be edited from the portal, a
      user may; anything else is an error. */
  function PortalHygienicGroup(gc: GuardianCookie, doc: DocKind): (r: Result<bool, RouteError>)
    ensures doc.GroupDocument? <==> r == Ok(false)
    ensures doc.UserDocument? <==> r == Ok(true)
    ensures doc.OtherDocument? <==> r == Err(General("Portal Hygienic Error"))
  {
    match doc
    case GroupDocument => Ok(false)
    case UserDocument => Ok(true)
    case OtherDocument => Err(General("Portal Hygienic Error"))
  }

  /** `get_all_groups`: `find_many` over all groups, passed through. */
  function GetAllGroups(groups: seq<Group>): (r: Result<seq<Group>, RouteError>)
    ensures r.Ok? <==> |groups| > 0
    ensures r.Ok? ==> r.value == groups
    ensures r.Err? ==> r.error == General(Store.NONE_FOUND)
  {
    if |groups| == 0 then Err(General(Store.NONE_FOUND)) else Ok(groups)
  }

  // ---------------------------------------------------------------- token

  /** Thirty days in seconds. */
  const TOKEN_LIFETIME: int := 60 * 60 * 24 * 30


  /** `get_token_for_user`: a user without groups gets the scope [""];
      otherwise the scope is the subscriptions of the user's first group,
      and a missing group is an error. */
  function TokenForUser(subject: Option<GuardianCookie>, users: seq<UserDoc>, groups: seq<Group>): (r: Result<TokenClaims, RouteError>)
    ensures subject.None? ==> r == Err(UserNotFound("subject not passed from middleware"))
    ensures r.Ok? ==> r.value.subject == subject.value.subject && r.value.lifetime == 2592000
    ensures r.Ok? ==> exists u :: u in users && Some(u.id) == ObjectIdOf(subject.value.subject)
                        && (|u.groups| == 0 ==> r.value.scope == [""])
                        && (|u.groups| > 0 ==> exists g :: g in groups && g.name == u.groups[0] && r.value.scope == g.subscriptions)
    // a stored user gets a token exactly when they have no group or their first group is stored
    ensures r.Ok? <==>
      && subject.Some? && FindSubject(users, subject.value.subject).Ok?
      && var u := FindSubject(users, subject.value.subject).value;
      (|u.groups| == 0 || exists g :: g in groups && g.name == u.groups[0])
    ensures subject.Some? && FindSubject(users, subject.value.subject).Err? ==>
      r == Err(FindSubject(users, subject.value.subject).error)
    ensures subject.Some? && FindSubject(users, subject.value.subject).Ok? && r.Err? ==>
      r == Err(General(Store.NOT_FOUND))
  {
    match subject
    case None => Err(UserNotFound("subject not passed from middleware"))
    case Some(gc) =>
      match FindSubject(users, gc.subject)
      case Err(e) => Err(e)
      case Ok(user) =>
        if |user.groups| == 0 then Ok(TokenClaims(gc.subject, TOKEN_LIFETIME, [""]))
        else
          match Store.FindGroupByName(groups, user.groups[0])
          case Err(e) => Err(General(e))
          case Ok(g) => Ok(TokenClaims(gc.subject, TOKEN_LIFETIME, g.subscriptions))
  }
}
