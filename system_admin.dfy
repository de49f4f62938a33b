/** The system admin's handlers: the page, group creation and update, user
    update and deletion, and the tab dispatch. Each one is a sequence of
    guards with early answers over the stored collections, which are
    sequences here; the outcome of each database write is an input. */
module SystemAdmin {
  import opened Wrappers
  import opened Strings
  import opened Models
  import opened Errors
  import opened Http
  import Store
  import Portal
  import Helper
  import DbDeserialize

  const USER_PAGE: string := "pages/portal_system.html"

  // ---------------------------------------------------------------- the page

  /** What the system page shows; `notebook` is set when the subscriptions
      of the admin's first group include the notebook service. */
  datatype PageContext = PageContext(
    name: string,
    group: string,
    subscriptions: seq<string>,
    token: Option<string>,
    notebook: bool)

  /** `system`: only a system admin, by cookie and by stored record, sees
      the page. */
  function SystemPage(subject: Option<GuardianCookie>, users: seq<UserDoc>, groups: seq<Group>, notebookSub: string)
    : (r: Result<PageContext, RouteError>)
    ensures Portal.CheckAdmin(subject, SystemAdmin).Err? ==> r == Err(Portal.CheckAdmin(subject, SystemAdmin).error)
    ensures r.Ok? ==> subject.Some? && subject.value.userType == SystemAdmin
    ensures r.Ok? ==>
      exists u ::
        && u in users && Some(u.id) == Portal.ObjectIdOf(subject.value.subject)
        && u.userType == SystemAdmin && r.value.name == u.userName && r.value.group == Join(u.groups, ", ")
        && r.value.token == u.token && r.value.subscriptions == Portal.FirstGroupSubscriptions(u, groups)
    ensures r.Ok? ==> (r.value.notebook <==> notebookSub in r.value.subscriptions)
    // the page is shown exactly to a stored system admin
    ensures r.Ok? <==> Portal.CheckAdmin(subject, SystemAdmin).Ok? && Portal.FindSubject(users, subject.value.subject).Ok? && Portal.FindSubject(users, subject.value.subject).value.userType == SystemAdmin
    ensures Portal.CheckAdmin(subject, SystemAdmin).Ok? && Portal.FindSubject(users, subject.value.subject).Err? ==> r == Err(Portal.FindSubject(users, subject.value.subject).error)
    ensures (&& subject.Some? && subject.value.userType == SystemAdmin
             && Portal.FindSubject(users, subject.value.subject).Ok?
             && Portal.FindSubject(users, subject.value.subject).value.userType != SystemAdmin) ==>
      r == Err(UserNotAllowedOnPage(USER_PAGE))
  {
    match Portal.CheckAdmin(subject, SystemAdmin)
    case Err(e) => Err(e)
    case Ok(gc) =>
      match Portal.FindSubject(users, gc.subject)
      case Err(e) => Err(e)
      case Ok(u) =>
        if u.userType != SystemAdmin then Err(UserNotAllowedOnPage(USER_PAGE))
        else
          var subs := Portal.FirstGroupSubscriptions(u, groups);
          Ok(PageContext(u.userName, Join(u.groups, ", "), subs, u.token, notebookSub in subs))
  }

  // ------------------------------------------------------------------ groups

  /** Decoding the request body as a group form; a failure is a bad payload. */
  function GroupFormOf(body: string): (r: Result<DbDeserialize.GroupForm, RouteError>)
    ensures r.Ok? <==> DbDeserialize.DecodeGroupForm(body).Ok?
    ensures r.Ok? ==> r.value == DbDeserialize.DecodeGroupForm(body).value
    ensures r.Err? ==> r.error == BadPayload
  {
    match DbDeserialize.DecodeGroupForm(body)
    case Ok(gf) => Ok(gf)
    case Err(_) => Err(BadPayload)
  }

  /** The subscriptions a form denotes: each entry split on commas. */
  function FormSubscriptions(gf: DbDeserialize.GroupForm): seq<string> {
    Flatten(Helper.SplitEach(gf.subscriptions, ","))
  }

  /** `system_create_group`: the new group has the comma-split subscriptions
      and the same creation and update time. The insert's outcome is an
      input: an error mentioning "dup key" becomes a 400, any other error is
      passed on. */
  function SystemCreateGroup(subject: Option<GuardianCookie>, body: string, groups: seq<Group>, now: int,
                             insertResult: Result<string, string>)
    : (out: (Result<Response, RouteError>, seq<Group>))
    ensures Portal.CheckAdmin(subject, SystemAdmin).Err? ==> out.0 == Err(Portal.CheckAdmin(subject, SystemAdmin).error)
    ensures Portal.CheckAdmin(subject, SystemAdmin).Ok? && GroupFormOf(body).Err? ==> out.0 == Err(BadPayload)
    ensures out.0.Err? || out.0.value.status != 200 ==> out.1 == groups
    ensures out.0.Ok? && out.0.value.status == 200 ==>
      var gf := GroupFormOf(body).value;
      && insertResult.Ok?
      && out.0.value == OkForm("<p>Group created with id: " + insertResult.value + "</p>")
      && out.1 == groups + [Group(gf.name, FormSubscriptions(gf), now, now, gf.lastUpdatedBy)]
    ensures out.0.Ok? && out.0.value.status != 200 ==>
      && insertResult.Err? && Contains(insertResult.error, "dup key")
      && out.0.value == BadRequestWith("<p>Group '" + GroupFormOf(body).value.name + "' already exists</p>")
    ensures (&& Portal.CheckAdmin(subject, SystemAdmin).Ok? && GroupFormOf(body).Ok?
             && insertResult.Err? && !Contains(insertResult.error, "dup key")) ==>
      out.0 == Err(General(insertResult.error))
    // an accepted insert is confirmed with its id, a duplicate name is a 400
    ensures Portal.CheckAdmin(subject, SystemAdmin).Ok? && GroupFormOf(body).Ok? && insertResult.Ok? ==>
      var gf := GroupFormOf(body).value;
      && out.0 == Ok(OkForm("<p>Group created with id: " + insertResult.value + "</p>"))
      && out.1 == groups + [Group(gf.name, FormSubscriptions(gf), now, now, gf.lastUpdatedBy)]
    ensures (&& Portal.CheckAdmin(subject, SystemAdmin).Ok? && GroupFormOf(body).Ok?
             && insertResult.Err? && Contains(insertResult.error, "dup key")) ==>
      out == (Ok(BadRequestWith("<p>Group '" + GroupFormOf(body).value.name + "' already exists</p>")), groups)
  {
    if Portal.CheckAdmin(subject, SystemAdmin).Err? then (Err(Portal.CheckAdmin(subject, SystemAdmin).error), groups)
    else if GroupFormOf(body).Err? then (Err(BadPayload), groups)
    else
      var gf := GroupFormOf(body).value;
      var group := Group(gf.name, FormSubscriptions(gf), now, now, gf.lastUpdatedBy);
      match insertResult
      case Ok(id) => (Ok(OkForm("<p>Group created with id: " + id + "</p>")), groups + [group])
      case Err(e) =>
        if Contains(e, "dup key") then (Ok(BadRequestWith("<p>Group '" + gf.name + "' already exists</p>")), groups)
        else (Err(General(e)), groups)
  }

  /** The stored group after an update. */
  function UpdatedGroup(g: Group, gf: DbDeserialize.GroupForm, now: int): Group {
    g.(name := gf.name, subscriptions := FormSubscriptions(gf), updatedAt := now, lastUpdatedBy := gf.lastUpdatedBy)
  }

  /** `system_update_group`: the first group with the form's name gets the
      new subscriptions, time and editor; when none matches the answer is a
      400 saying it does not exist. */
  function SystemUpdateGroup(subject: Option<GuardianCookie>, body: string, groups: seq<Group>, now: int,
                             updateError: Option<string>)
    : (out: (Result<Response, RouteError>, seq<Group>))
    ensures Portal.CheckAdmin(subject, SystemAdmin).Err? ==> out.0 == Err(Portal.CheckAdmin(subject, SystemAdmin).error)
    ensures Portal.CheckAdmin(subject, SystemAdmin).Ok? && GroupFormOf(body).Err? ==> out.0 == Err(BadPayload)
    ensures (&& Portal.CheckAdmin(subject, SystemAdmin).Ok? && GroupFormOf(body).Ok? && updateError.Some?) ==>
      out.0 == Err(General(updateError.value))
    ensures out.0.Err? || out.0.value.status != 200 ==> out.1 == groups
    ensures out.0.Ok? ==>
      var gf := GroupFormOf(body).value;
      && updateError.None?
      && (Store.FindGroup(groups, gf.name).None? <==>
          out.0.value == BadRequestWith("<p>Group '" + gf.name + "' does not exist</p>"))
      && (Store.FindGroup(groups, gf.name).Some? ==>
          var i := Store.FindGroup(groups, gf.name).value;
          && out.0.value == OkForm("<p>Group '" + gf.name + "' has been updated</p>")
          && out.1 == groups[i := UpdatedGroup(groups[i], gf, now)])
    // with the update accepted, a stored group is updated and an unknown one is a 400
    ensures Portal.CheckAdmin(subject, SystemAdmin).Ok? && GroupFormOf(body).Ok? && updateError.None? ==>
      var gf := GroupFormOf(body).value;
      && (Store.FindGroup(groups, gf.name).None? ==>
            out == (Ok(BadRequestWith("<p>Group '" + gf.name + "' does not exist</p>")), groups))
      && (Store.FindGroup(groups, gf.name).Some? ==>
            out.0 == Ok(OkForm("<p>Group '" + gf.name + "' has been updated</p>")))
  {
    if Portal.CheckAdmin(subject, SystemAdmin).Err? then (Err(Portal.CheckAdmin(subject, SystemAdmin).error), groups)
    else if GroupFormOf(body).Err? then (Err(BadPayload), groups)
    else if updateError.Some? then (Err(General(updateError.value)), groups)
    else
      var gf := GroupFormOf(body).value;
      match Store.FindGroup(groups, gf.name)
      case None => (Ok(BadRequestWith("<p>Group '" + gf.name + "' does not exist</p>")), groups)
      case Some(i) => (Ok(OkForm("<p>Group '" + gf.name + "' has been updated</p>")), groups[i := UpdatedGroup(groups[i], gf, now)])
  }

  // ------------------------------------------------------------------- users

  /** The stored user after an update. */
  function UpdatedUser(u: UserDoc, uf: UserForm, now: int): UserDoc {
    u.(groups := uf.groups, userType := uf.userType, updatedAt := now, lastUpdatedBy := uf.lastUpdatedBy)
  }

  /** `system_update_user`: an admin may not update their own record, and
      that refusal happens before the database is touched; otherwise the
      first user with the form's email gets the form's groups and role. */
  function SystemUpdateUser(subject: Option<GuardianCookie>, form: Option<UserForm>, users: seq<UserDoc>, now: int,
                            updateError: Option<string>)
    : (out: (Result<Response, RouteError>, seq<UserDoc>))
    ensures Portal.CheckAdmin(subject, SystemAdmin).Err? ==> out.0 == Err(Portal.CheckAdmin(subject, SystemAdmin).error)
    ensures Portal.CheckAdmin(subject, SystemAdmin).Ok? && form.None? ==> out.0 == Err(BadPayload)
    ensures (Portal.CheckAdmin(subject, SystemAdmin).Ok? && form.Some? && form.value.email == form.value.lastUpdatedBy) ==>
      out.0 == Ok(BadRequestWith("<p>Cannot update self</p>"))
    ensures out.0.Err? || out.0.value.status != 200 ==> out.1 == users
    ensures out.0.Ok? && out.0.value.status == 200 ==>
      var uf := form.value;
      && updateError.None? && uf.email != uf.lastUpdatedBy
      && Store.FindByEmail(users, uf.email).Some?
      && var i := Store.FindByEmail(users, uf.email).value;
      && out.0.value == OkForm("<p>User with email address " + uf.email + " has been updated</p>")
      && out.1 == users[i := UpdatedUser(users[i], uf, now)]
    ensures (&& Portal.CheckAdmin(subject, SystemAdmin).Ok? && form.Some?
             && form.value.email != form.value.lastUpdatedBy && updateError.None?
             && Store.FindByEmail(users, form.value.email).None?) ==>
      out.0 == Ok(BadRequestWith("<p>User with email address " + form.value.email + " does not exist</p>"))
    // another user's stored record is updated and confirmed, unless the database refuses
    ensures (&& Portal.CheckAdmin(subject, SystemAdmin).Ok? && form.Some? && form.value.email != form.value.lastUpdatedBy
             && updateError.Some?) ==>
      out == (Err(General(updateError.value)), users)
    ensures (&& Portal.CheckAdmin(subject, SystemAdmin).Ok? && form.Some? && form.value.email != form.value.lastUpdatedBy
             && updateError.None? && Store.FindByEmail(users, form.value.email).Some?) ==>
      var i := Store.FindByEmail(users, form.value.email).value;
      && out.0 == Ok(OkForm("<p>User with email address " + form.value.email + " has been updated</p>"))
      && out.1 == users[i := UpdatedUser(users[i], form.value, now)]
  {
    if Portal.CheckAdmin(subject, SystemAdmin).Err? then (Err(Portal.CheckAdmin(subject, SystemAdmin).error), users)
    else if form.None? then (Err(BadPayload), users)
    else
      var uf := form.value;
      if uf.email == uf.lastUpdatedBy then (Ok(BadRequestWith("<p>Cannot update self</p>")), users)
      else if updateError.Some? then (Err(General(updateError.value)), users)
      else
        match Store.FindByEmail(users, uf.email)
        case None => (Ok(BadRequestWith("<p>User with email address " + uf.email + " does not exist</p>")), users)
        case Some(i) =>
          (Ok(OkForm("<p>User with email address " + uf.email + " has been updated</p>")), users[i := UpdatedUser(users[i], uf, now)])
  }

  /** `delete_one` by email: the first user with that email is removed. */
  function DeleteFirst(users: seq<UserDoc>, email: string): (r: seq<UserDoc>)
    ensures Store.FindByEmail(users, email).None? ==> r == users
    ensures Store.FindByEmail(users, email).Some? ==>
      var i := Store.FindByEmail(users, email).value;
      r == users[..i] + users[i + 1..]
  {
    match Store.FindByEmail(users, email)
    case None => users
    case Some(i) => users[..i] + users[i + 1..]
  }

  /** `system_delete_user`: an admin may not delete their own record; any
      other email is deleted, and the answer does not say whether a record
      matched. */
  function SystemDeleteUser(subject: Option<GuardianCookie>, form: Option<UserDeleteForm>, users: seq<UserDoc>,
                            deleteError: Option<string>)
    : (out: (Result<Response, RouteError>, seq<UserDoc>))
    ensures Portal.CheckAdmin(subject, SystemAdmin).Err? ==> out.0 == Err(Portal.CheckAdmin(subject, SystemAdmin).error)
    ensures Portal.CheckAdmin(subject, SystemAdmin).Ok? && form.None? ==> out.0 == Err(BadPayload)
    ensures (Portal.CheckAdmin(subject, SystemAdmin).Ok? && form.Some? && form.value.email == form.value.lastUpdatedBy) ==>
      out.0 == Ok(BadRequestWith("<p>Cannot delete self</p>"))
    ensures out.0.Err? || out.0.value.status != 200 ==> out.1 == users
    ensures out.0.Ok? && out.0.value.status == 200 ==>
      && deleteError.None? && form.value.email != form.value.lastUpdatedBy
      && out.0.value == OkForm("<p>User with sub " + form.value.email + " has been deleted</p>")
      && out.1 == DeleteFirst(users, form.value.email)
    ensures (&& Portal.CheckAdmin(subject, SystemAdmin).Ok? && form.Some?
             && form.value.email != form.value.lastUpdatedBy && deleteError.Some?) ==>
      out.0 == Err(General(deleteError.value))
    // another user's record is deleted and the deletion confirmed, unless the database refuses
    ensures (&& Portal.CheckAdmin(subject, SystemAdmin).Ok? && form.Some? && form.value.email != form.value.lastUpdatedBy
             && deleteError.None?) ==>
      && out.0 == Ok(OkForm("<p>User with sub " + form.value.email + " has been deleted</p>"))
      && out.1 == DeleteFirst(users, form.value.email)
  {
    if Portal.CheckAdmin(subject, SystemAdmin).Err? then (Err(Portal.CheckAdmin(subject, SystemAdmin).error), users)
    else if form.None? then (Err(BadPayload), users)
    else
      var uf := form.value;
      if uf.email == uf.lastUpdatedBy then (Ok(BadRequestWith("<p>Cannot delete self</p>")), users)
      else if deleteError.Some? then (Err(General(deleteError.value)), users)
      else (Ok(OkForm("<p>User with sub " + uf.email + " has been deleted</p>")), DeleteFirst(users, uf.email))
  }

  // -------------------------------------------------------------------- tabs

  /** The page templates a tab renders. */
  datatype GroupTemplate = ViewGroup | CreateModifyGroup
  datatype UserTemplate = ViewUser | ModifyUserTemplate

  /** What a tab shows: a group form over the catalogued services (with the
      group names, or the group being modified), a user form over the
      group names and role names, or fixed text. */
  datatype TabView =
    | GroupTab(template: GroupTemplate, admin: string, services: seq<string>,
               groupNames: Option<seq<string>>, groupName: Option<string>)
    | UserTab(form: UserTemplate, admin: string, target: string, groups: seq<string>,
              userTypes: seq<string>, delete: bool)
    | Text(content: string)

  const PROFILE_TAB: string := "<br><p>Profile tab</p>"

  function GroupNames(gs: seq<Group>): (ns: seq<string>)
    ensures |ns| == |gs| && forall i :: 0 <= i < |gs| ==> ns[i] == gs[i].name
  {
    seq(|gs|, i requires 0 <= i < |gs| => gs[i].name)
  }

  predicate IsGroupTab(t: AdminTab) {
    t == GroupModify || t == GroupView || t == GroupCreate
  }

  predicate IsUserTab(t: AdminTab) {
    t == UserModify || t == UserView || t == UserDelete
  }

  /** `system_tab_htmx`. `services` are the names in the catalog's
      `services` table, None when there is no such table; the user form
      offers the role names of `USER_TYPE_NAMES`. A failed `find_many` of the groups
      gives an empty list. */
  function SystemTab(subject: Option<GuardianCookie>, users: seq<UserDoc>, tab: Option<AdminTabs>,
                     services: Option<seq<string>>, groups: seq<Group>)
    : (r: Result<TabView, RouteError>)
    ensures Portal.CheckAdmin(subject, SystemAdmin).Err? ==> r == Err(Portal.CheckAdmin(subject, SystemAdmin).error)
    ensures r.Ok? ==> tab.Some? && Portal.FindSubject(users, subject.value.subject).Ok?
    ensures r.Ok? && r.value.Text? <==> r.Ok? && tab.value.tab == Profile
    ensures r.Ok? && r.value.Text? ==> r.value.content == PROFILE_TAB
    ensures r.Ok? && r.value.GroupTab? ==>
      && IsGroupTab(tab.value.tab) && services.Some? && r.value.services == services.value
      && r.value.admin == Portal.FindSubject(users, subject.value.subject).value.email
      && (r.value.template == ViewGroup <==> tab.value.tab == GroupView)
      && (r.value.groupNames.Some? <==> tab.value.tab == GroupView)
      && (r.value.groupNames.Some? ==> r.value.groupNames.value == GroupNames(groups))
      && (r.value.groupName.Some? <==> tab.value.tab == GroupModify)
      && (r.value.groupName.Some? ==> r.value.groupName == tab.value.group)
    ensures r.Ok? && r.value.UserTab? ==>
      && IsUserTab(tab.value.tab) && tab.value.user == Some(r.value.target)
      && r.value.admin == Portal.FindSubject(users, subject.value.subject).value.email
      && r.value.groups == GroupNames(groups) && r.value.userTypes == USER_TYPE_NAMES
      && (r.value.form == ViewUser <==> tab.value.tab == UserView)
      && (r.value.delete <==> tab.value.tab == UserDelete)
    ensures (&& Portal.CheckAdmin(subject, SystemAdmin).Ok? && Portal.FindSubject(users, subject.value.subject).Ok?
             && tab.Some? && IsGroupTab(tab.value.tab) && services.None?) ==>
      r == Err(General("No services found"))
    ensures (&& Portal.CheckAdmin(subject, SystemAdmin).Ok? && Portal.FindSubject(users, subject.value.subject).Ok?
             && tab.Some? && tab.value.tab == GroupModify && services.Some? && tab.value.group.None?) ==>
      r == Err(General("No group provided"))
    ensures (&& Portal.CheckAdmin(subject, SystemAdmin).Ok? && Portal.FindSubject(users, subject.value.subject).Ok?
             && tab.Some? && IsUserTab(tab.value.tab) && tab.value.user.None?) ==>
      r == Err(General("No user provided"))
    // a tab is shown exactly to a stored system admin asking for a tab it can fill
    ensures r.Ok? <==>
      && Portal.CheckAdmin(subject, SystemAdmin).Ok? && Portal.FindSubject(users, subject.value.subject).Ok? && tab.Some?
      && (IsGroupTab(tab.value.tab) ==> services.Some? && (tab.value.tab == GroupModify ==> tab.value.group.Some?))
      && (IsUserTab(tab.value.tab) ==> tab.value.user.Some?)
    ensures Portal.CheckAdmin(subject, SystemAdmin).Ok? && Portal.FindSubject(users, subject.value.subject).Err? ==> r == Err(Portal.FindSubject(users, subject.value.subject).error)
    ensures Portal.CheckAdmin(subject, SystemAdmin).Ok? && Portal.FindSubject(users, subject.value.subject).Ok? && tab.None? ==> r == Err(BadPayload)
    ensures r.Ok? ==> (r.value.GroupTab? <==> IsGroupTab(tab.value.tab)) && (r.value.UserTab? <==> IsUserTab(tab.value.tab))
  {
    match Portal.CheckAdmin(subject, SystemAdmin)
    case Err(e) => Err(e)
    case Ok(gc) =>
      match Portal.FindSubject(users, gc.subject)
      case Err(e) => Err(e)
      case Ok(u) =>
        if tab.None? then Err(BadPayload)
        else
          var t := tab.value;
          if IsGroupTab(t.tab) then
            if services.None? then Err(General("No services found"))
            else if t.tab == GroupView then
              Ok(GroupTab(ViewGroup, u.email, services.value, Some(GroupNames(groups)), None))
            else if t.tab == GroupCreate then
              Ok(GroupTab(CreateModifyGroup, u.email, services.value, None, None))
            else if t.group.None? then Err(General("No group provided"))
            else Ok(GroupTab(CreateModifyGroup, u.email, services.value, None, t.group))
          else if IsUserTab(t.tab) then
            if t.user.None? then Err(General("No user provided"))
            else
              var template := if t.tab == UserView then ViewUser else ModifyUserTemplate;
              Ok(UserTab(template, u.email, t.user.value, GroupNames(groups), USER_TYPE_NAMES, t.tab == UserDelete))
          else Ok(Text(PROFILE_TAB))
  }
}
