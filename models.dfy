/** The records the gateway keeps in its `users` and `groups` collections
    and the cookie it issues, with the wire names of the user roles. */
module Models {
  import opened Wrappers

  /** A user's role; serialised under the names "user", "group" and "system". */
  datatype UserType = User | GroupAdmin | SystemAdmin

  /** The serde rename of each role. */
  function WireName(t: UserType): string {
    match t
    case User => "user"
    case GroupAdmin => "group"
    case SystemAdmin => "system"
  }

  /** Deserialising a role: exactly the three wire names are accepted. */
  function ParseUserType(s: string): (r: Option<UserType>)
    ensures r.Some? <==> (s == "user" || s == "group" || s == "system")
    ensures r.Some? ==> WireName(r.value) == s
  {
    if s == "user" then Some(User)
    else if s == "group" then Some(GroupAdmin)
    else if s == "system" then Some(SystemAdmin)
    else None
  }

  /** Deserialising the serialisation of a role gives the role back. */
  lemma ParseWireName(t: UserType)
    ensures ParseUserType(WireName(t)) == Some(t)
  {
  }

  /** Distinct roles have distinct wire names. */
  lemma WireNameInjective(a: UserType, b: UserType)
    ensures WireName(a) == WireName(b) ==> a == b
  {
    ParseWireName(a);
    ParseWireName(b);
  }

  /** The role names the system admin's user form offers, one per role in
      declaration order: each is the role's wire name. */
  const USER_TYPE_NAMES: seq<string> := [WireName(User), WireName(GroupAdmin), WireName(SystemAdmin)]

  /** Every offered role name deserialises, and every role is offered
      exactly once. */
  lemma UserTypeNames()
    ensures forall i :: 0 <= i < |USER_TYPE_NAMES| ==> ParseUserType(USER_TYPE_NAMES[i]).Some?
    ensures forall t: UserType :: WireName(t) in USER_TYPE_NAMES
    ensures forall i, j :: 0 <= i < j < |USER_TYPE_NAMES| ==> USER_TYPE_NAMES[i] != USER_TYPE_NAMES[j]
  {
    forall t: UserType ensures WireName(t) in USER_TYPE_NAMES {
      match t
      case User => assert USER_TYPE_NAMES[0] == WireName(t);
      case GroupAdmin => assert USER_TYPE_NAMES[1] == WireName(t);
      case SystemAdmin => assert USER_TYPE_NAMES[2] == WireName(t);
    }
  }

  /** Name of the users collection. */
  const USER: string := "users"
  /** Name of the groups collection. */
  const GROUP: string := "groups"

  /** What is stored about a user's notebook; times are seconds. */
  datatype NotebookInfo = NotebookInfo(startTime: Option<int>, persistPvc: bool)

  /** A stored user. `id` is the hex text of the document's ObjectId;
      `notebook`, `token`, `lastUpdatedBy` and `updatedAt` are the fields
      the handlers read and write besides the declared ones. */
  datatype UserDoc = UserDoc(
    id: string,
    sub: string,
    userName: string,
    email: string,
    groups: seq<string>,
    userType: UserType,
    notebook: Option<NotebookInfo>,
    token: Option<string>,
    lastUpdatedBy: string,
    updatedAt: int)

  /** A stored group. */
  datatype Group = Group(
    name: string,
    subscriptions: seq<string>,
    createdAt: int,
    updatedAt: int,
    lastUpdatedBy: string)

  /** The portal cookie: who the caller is and in which role. */
  datatype GuardianCookie = GuardianCookie(subject: string, userType: UserType)

  /** The gateway cookie checked by the bridge middleware. */
  datatype BridgeCookie = BridgeCookie(
    subject: string,
    userType: UserType,
    resources: Option<seq<string>>,
    token: Option<string>)

  /** The tabs of the admin pages; their `Debug` text is the variant name. */
  datatype AdminTab = UserModify | UserView | UserDelete | GroupModify | GroupView | GroupCreate | Profile

  function TabName(t: AdminTab): string {
    match t
    case UserModify => "UserModify"
    case UserView => "UserView"
    case UserDelete => "UserDelete"
    case GroupModify => "GroupModify"
    case GroupView => "GroupView"
    case GroupCreate => "GroupCreate"
    case Profile => "Profile"
  }

  /** The query of a tab request. */
  datatype AdminTabs = AdminTabs(tab: AdminTab, group: Option<string>, user: Option<string>)

  /** Adding a user to, or removing a user from, a group. */
  datatype ModifyUser = Add | Remove

  /** The group admin's membership form. */
  datatype UserGroupMod = UserGroupMod(email: string, groupName: string, modifyUser: ModifyUser)

  /** The system admin's user form. */
  datatype UserForm = UserForm(email: string, groups: seq<string>, userType: UserType, lastUpdatedBy: string)

  /** The system admin's delete form. */
  datatype UserDeleteForm = UserDeleteForm(email: string, lastUpdatedBy: string)

  /** The claims of a gateway token: its subject, lifetime in seconds and
      `scp`, the services it may reach. Signing and validation are not
      modelled; a validated token is given as its claims. */
  datatype TokenClaims = TokenClaims(subject: string, lifetime: int, scope: seq<string>)
}
