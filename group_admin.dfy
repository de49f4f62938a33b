/** The group admin's pages: the membership edit, the page itself and the
    tab dispatch. The users and groups collections are sequences; every
    database answer the handlers act on is computed from them. */
module GroupAdmin {
  import opened Wrappers
  import opened Strings
  import opened Models
  import opened Errors
  import opened Http
  import opened Sorting
  import Store
  import Portal

  const USER_PAGE: string := "pages/portal_group.html"

  /** Why a membership edit was refused. */
  datatype Refusal = AlreadyMember | NotMember

  /** The edit of `group_update_user` on the user's group list: the list is
      sorted, then an added group is pushed at the end and a removed group
      is taken out at the index the search found. */
  method UpdateMembership(groups: seq<string>, op: ModifyUser, name: string) returns (r: Result<seq<string>, Refusal>)
    ensures op.Add? ==> (r.Err? <==> name in groups)
    ensures op.Add? && r.Err? ==> r.error == AlreadyMember
    ensures op.Add? && r.Ok? ==> r.value == Sort(groups) + [name]
    ensures op.Add? && r.Ok? ==> |r.value| == |groups| + 1 && multiset(r.value) == multiset(groups) + multiset{name}
    ensures op.Remove? ==> (r.Err? <==> name !in groups)
    ensures op.Remove? && r.Err? ==> r.error == NotMember
    ensures op.Remove? && r.Ok? ==> Sorted(r.value) && |r.value| == |groups| - 1
    ensures op.Remove? && r.Ok? ==> multiset(r.value) == multiset(groups) - multiset{name}
  {
    var current := Sort(groups);
    assert name in groups <==> name in current by {
      assert name in multiset(groups) <==> name in multiset(current);
    }
    var found := BinarySearch(current, name);
    match op {
      case Add =>
        if found.Found? {
          return Err(AlreadyMember);
        }
        current := current + [name];
        return Ok(current);
      case Remove =>
        if found.NotFound? {
          return Err(NotMember);
        }
        RemoveSorted(current, found.index);
        current := RemoveAt(current, found.index);
        return Ok(current);
    }
  }

  /** The stored user after a membership edit. */
  function Edited(u: UserDoc, groups: seq<string>, who: string, now: int): UserDoc {
    u.(groups := groups, updatedAt := now, lastUpdatedBy := who)
  }

  /** `group_update_user`: refuses callers that are not group admins, answers
      400 for an unknown email, a group the user already has, or a group the
      user does not have, and otherwise stores the edited list, the time and
      the form's email as editor. `form` is None when the body does not
      decode; `updateError` is the database's answer to the update. */
  method GroupUpdateUser(subject: Option<GuardianCookie>, form: Option<UserGroupMod>, users: seq<UserDoc>,
                         now: int, updateError: Option<string>)
    returns (r: Result<Response, RouteError>, after: seq<UserDoc>)
    ensures Portal.CheckAdmin(subject, GroupAdmin).Err? ==> r == Err(Portal.CheckAdmin(subject, GroupAdmin).error)
    ensures Portal.CheckAdmin(subject, GroupAdmin).Ok? && form.None? ==> r == Err(BadPayload)
    ensures r.Err? || r.value.status != 200 ==> after == users
    // an unknown email is answered with 400 and nothing is written
    ensures Portal.CheckAdmin(subject, GroupAdmin).Ok? && form.Some? && Store.FindByEmail(users, form.value.email).None? ==>
      r == Ok(BadRequestWith("<p>User " + form.value.email + " does not exist</p>")) && after == users
    // adding a group the user has, or removing one they lack, is answered with 400
    ensures (&& Portal.CheckAdmin(subject, GroupAdmin).Ok? && form.Some?
             && Store.FindByEmail(users, form.value.email).Some?
             && var u := users[Store.FindByEmail(users, form.value.email).value];
             form.value.modifyUser.Add? && form.value.groupName in u.groups) ==>
      r == Ok(BadRequestWith("<p>User named " + form.value.email + " already belongs to " + form.value.groupName + "</p>"))
    ensures (&& Portal.CheckAdmin(subject, GroupAdmin).Ok? && form.Some?
             && Store.FindByEmail(users, form.value.email).Some?
             && var u := users[Store.FindByEmail(users, form.value.email).value];
             form.value.modifyUser.Remove? && form.value.groupName !in u.groups) ==>
      r == Ok(BadRequestWith("<p>User named " + form.value.email + " does not belong to " + form.value.groupName + "</p>"))
    // an edit that applies is stored and confirmed, unless the database refuses it
    ensures (&& Portal.CheckAdmin(subject, GroupAdmin).Ok? && form.Some?
             && Store.FindByEmail(users, form.value.email).Some?
             && var u := users[Store.FindByEmail(users, form.value.email).value];
             (form.value.modifyUser.Add? <==> form.value.groupName !in u.groups)) ==>
      && (updateError.Some? ==> r == Err(General(updateError.value)))
      && (updateError.None? ==> r == Ok(OkForm(if form.value.modifyUser.Add? then "Added" else "Removed")))
    ensures r.Ok? && r.value.status == 200 ==>
      form.Some? && updateError.None? && Store.FindByEmail(users, form.value.email).Some?
    ensures r.Ok? && r.value.status == 200 ==>
      var f := form.value;
      var i := Store.FindByEmail(users, f.email).value;
      (f.modifyUser.Add? ==>
        && f.groupName !in users[i].groups
        && r.value == OkForm("Added")
        && after == users[i := Edited(users[i], Sort(users[i].groups) + [f.groupName], f.email, now)])
    ensures r.Ok? && r.value.status == 200 ==>
      var f := form.value;
      var i := Store.FindByEmail(users, f.email).value;
      (f.modifyUser.Remove? ==>
        && f.groupName in users[i].groups
        && r.value == OkForm("Removed")
        && |after| == |users|
        && Sorted(after[i].groups)
        && multiset(after[i].groups) == multiset(users[i].groups) - multiset{f.groupName}
        && after == users[i := Edited(users[i], after[i].groups, f.email, now)])
    ensures form.Some? && Store.FindByEmail(users, form.value.email).Some? && r.Ok? && r.value.status != 200 ==>
      var f := form.value;
      var u := users[Store.FindByEmail(users, f.email).value];
      && (f.modifyUser.Add? ==>
           f.groupName in u.groups
           && r.value == BadRequestWith("<p>User named " + f.email + " already belongs to " + f.groupName + "</p>"))
      && (f.modifyUser.Remove? ==>
           f.groupName !in u.groups
           && r.value == BadRequestWith("<p>User named " + f.email + " does not belong to " + f.groupName + "</p>"))
  {
    after := users;
    var admin := Portal.CheckAdmin(subject, GroupAdmin);
    if admin.Err? {
      return Err(admin.error), after;
    }
    if form.None? {
      return Err(BadPayload), after;
    }
    var f := form.value;
    var found := Store.FindByEmail(users, f.email);
    if found.None? {
      return Ok(BadRequestWith("<p>User " + f.email + " does not exist</p>")), after;
    }
    var i := found.value;
    var edit := UpdateMembership(users[i].groups, f.modifyUser, f.groupName);
    if edit.Err? {
      var msg := if edit.error == AlreadyMember
        then "<p>User named " + f.email + " already belongs to " + f.groupName + "</p>"
        else "<p>User named " + f.email + " does not belong to " + f.groupName + "</p>";
      return Ok(BadRequestWith(msg)), after;
    }
    if updateError.Some? {
      return Err(General(updateError.value)), after;
    }
    after := users[i := Edited(users[i], edit.value, f.email, now)];
    var message := if f.modifyUser.Add? then "Added" else "Removed";
    return Ok(OkForm(message)), after;
  }

  // --------------------------------------------------------------- the page

  /** What the group page shows. `notebook` is present only when the
      group's subscriptions include the notebook service; it then holds the
      user's notebook record, if any. */
  datatype PageContext = PageContext(
    name: string,
    group: string,
    subscriptions: seq<string>,
    token: Option<string>,
    notebook: Option<Option<NotebookInfo>>)

  /** `group`: only a group admin, by cookie and by stored record, sees the
      page. `notebookSub` is the name of the notebook service. */
  function GroupPage(subject: Option<GuardianCookie>, users: seq<UserDoc>, groups: seq<Group>, notebookSub: string)
    : (r: Result<PageContext, RouteError>)
    ensures Portal.CheckAdmin(subject, GroupAdmin).Err? ==> r == Err(Portal.CheckAdmin(subject, GroupAdmin).error)
    ensures r.Ok? ==> subject.Some? && subject.value.userType == GroupAdmin
    ensures r.Ok? ==>
      exists u ::
        && u in users && Some(u.id) == Portal.ObjectIdOf(subject.value.subject)
        && u.userType == GroupAdmin && r.value.name == u.userName && r.value.group == Join(u.groups, ", ")
        && r.value.token == u.token && r.value.subscriptions == Portal.FirstGroupSubscriptions(u, groups)
        && (r.value.notebook.Some? ==> r.value.notebook.value == u.notebook)
    ensures r.Ok? ==> (r.value.notebook.Some? <==> notebookSub in r.value.subscriptions)
    // the page is shown exactly to a stored group admin
    ensures r.Ok? <==>
      && Portal.CheckAdmin(subject, GroupAdmin).Ok? && Portal.FindSubject(users, subject.value.subject).Ok?
      && Portal.FindSubject(users, subject.value.subject).value.userType == GroupAdmin
    ensures Portal.CheckAdmin(subject, GroupAdmin).Ok? && Portal.FindSubject(users, subject.value.subject).Err? ==>
      r == Err(Portal.FindSubject(users, subject.value.subject).error)
    ensures (&& subject.Some? && subject.value.userType == GroupAdmin
             && Portal.FindSubject(users, subject.value.subject).Ok?
             && Portal.FindSubject(users, subject.value.subject).value.userType != GroupAdmin) ==>
      r == Err(UserNotAllowedOnPage(USER_PAGE))
  {
    match Portal.CheckAdmin(subject, GroupAdmin)
    case Err(e) => Err(e)
    case Ok(gc) =>
      match Portal.FindSubject(users, gc.subject)
      case Err(e) => Err(e)
      case Ok(u) =>
        if u.userType != GroupAdmin then Err(UserNotAllowedOnPage(USER_PAGE))
        else
          var subs := Portal.FirstGroupSubscriptions(u, groups);
          var notebook := if notebookSub in subs then Some(u.notebook) else None;
          Ok(PageContext(u.userName, Join(u.groups, ", "), subs, u.token, notebook))
  }

  // ---------------------------------------------------------------- the tabs

  /** What a tab shows: the membership form over the members' emails, or the
      member list; an unknown tab is answered with 400. */
  datatype TabView =
    | MemberForm(admin: string, group: string, emails: seq<string>)
    | MemberView(groupMembers: seq<UserDoc>, group: string, admin: string)
    | TabRefused(response: Response)

  const NO_GROUP: string := "Group admin doesn't belong to any group... something is not right"

  function Emails(us: seq<UserDoc>): (es: seq<string>)
    ensures |es| == |us| && forall i :: 0 <= i < |us| ==> es[i] == us[i].email
  {
    seq(|us|, i requires 0 <= i < |us| => us[i].email)
  }

  /** `group_tab_htmx`: the member tabs need the admin's first group and a
      non-empty member list; any other tab is refused with its name. `tab`
      is None when the query does not decode. */
  function GroupTab(subject: Option<GuardianCookie>, tab: Option<AdminTabs>, users: seq<UserDoc>): (r: Result<TabView, RouteError>)
    ensures Portal.CheckAdmin(subject, GroupAdmin).Err? ==> r == Err(Portal.CheckAdmin(subject, GroupAdmin).error)
    ensures Portal.CheckAdmin(subject, GroupAdmin).Ok? && tab.None? ==> r == Err(BadPayload)
    ensures r.Ok? && r.value.TabRefused? <==>
      r.Ok? && tab.Some? && tab.value.tab != UserModify && tab.value.tab != GroupView
    ensures r.Ok? && r.value.TabRefused? ==>
      r.value.response == BadRequestWith("Tab " + TabName(tab.value.tab) + " not found")
    ensures r.Ok? && !r.value.TabRefused? ==>
      exists u ::
        && u in users && Some(u.id) == Portal.ObjectIdOf(subject.value.subject) && |u.groups| > 0
        && |Store.MembersOf(users, u.groups[0])| > 0
        && (r.value.MemberForm? ==> r.value == MemberForm(u.email, u.groups[0], Emails(Store.MembersOf(users, u.groups[0]))))
        && (r.value.MemberView? ==> r.value == MemberView(Store.MembersOf(users, u.groups[0]), u.groups[0], u.email))
    ensures r.Ok? && r.value.MemberForm? ==> tab.value.tab == UserModify
    ensures r.Ok? && r.value.MemberView? ==> tab.value.tab == GroupView
    // a tab is shown exactly to a stored group admin, and a member tab only
    // when the admin's first group has members
    ensures r.Ok? <==>
      && Portal.CheckAdmin(subject, GroupAdmin).Ok? && tab.Some? && Portal.FindSubject(users, subject.value.subject).Ok?
      && var u := Portal.FindSubject(users, subject.value.subject).value;
      ((tab.value.tab == UserModify || tab.value.tab == GroupView) ==>
         |u.groups| > 0 && |Store.MembersOf(users, u.groups[0])| > 0)
    ensures Portal.CheckAdmin(subject, GroupAdmin).Ok? && tab.Some? && Portal.FindSubject(users, subject.value.subject).Err? ==>
      r == Err(Portal.FindSubject(users, subject.value.subject).error)
    ensures (&& Portal.CheckAdmin(subject, GroupAdmin).Ok? && tab.Some?
             && (tab.value.tab == UserModify || tab.value.tab == GroupView)
             && Portal.FindSubject(users, subject.value.subject).Ok?
             && var u := Portal.FindSubject(users, subject.value.subject).value;
             |u.groups| > 0 && |Store.MembersOf(users, u.groups[0])| == 0) ==>
      r == Err(General(Store.NONE_FOUND))
    ensures (&& Portal.CheckAdmin(subject, GroupAdmin).Ok?
             && tab.Some? && (tab.value.tab == UserModify || tab.value.tab == GroupView)
             && Portal.FindSubject(users, subject.value.subject).Ok?
             && |Portal.FindSubject(users, subject.value.subject).value.groups| == 0) ==>
      r == Err(General(NO_GROUP))
  {
    match Portal.CheckAdmin(subject, GroupAdmin)
    case Err(e) => Err(e)
    case Ok(gc) =>
      if tab.None? then Err(BadPayload)
      else
        match Portal.FindSubject(users, gc.subject)
        case Err(e) => Err(e)
        case Ok(u) =>
          var t := tab.value.tab;
          if t == UserModify || t == GroupView then
            if |u.groups| == 0 then Err(General(NO_GROUP))
            else
              match Store.FindMembers(users, u.groups[0])
              case Err(e) => Err(General(e))
              case Ok(members) =>
                if t == UserModify then Ok(MemberForm(u.email, u.groups[0], Emails(members)))
                else Ok(MemberView(members, u.groups[0], u.email))
          else Ok(TabRefused(BadRequestWith("Tab " + TabName(t) + " not found")))
  }
}
