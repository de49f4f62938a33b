/** The MongoDB collections as in-memory sequences in natural order:
    `find` and `update_one` act on the first matching document, `find_many`
    refuses an empty answer. */
module Store {
  import opened Wrappers
  import opened Models

  const NOT_FOUND: string := "Could not find any document"
  const NONE_FOUND: string := "Could not find any documents"

  /** Index of the first document that `matches`: what `find` and
      `update_one` act on. */
  function FirstIndex<T>(docs: seq<T>, matches: T -> bool): (r: Option<nat>)
    ensures r.Some? ==> r.value < |docs| && matches(docs[r.value])
    ensures r.Some? ==> forall j :: 0 <= j < r.value ==> !matches(docs[j])
    ensures r.None? ==> forall j :: 0 <= j < |docs| ==> !matches(docs[j])
    decreases |docs|
  {
    if |docs| == 0 then None
    else if matches(docs[0]) then Some(0)
    else match FirstIndex(docs[1..], matches)
      case None => None
      case Some(i) => Some(i + 1)
  }

  /** Index of the first user whose email is `email`. */
  function FindByEmail(users: seq<UserDoc>, email: string): (r: Option<nat>)
    ensures r.Some? ==> r.value < |users| && users[r.value].email == email
    ensures r.Some? ==> forall j :: 0 <= j < r.value ==> users[j].email != email
    ensures r.None? ==> forall j :: 0 <= j < |users| ==> users[j].email != email
  {
    FirstIndex(users, (u: UserDoc) => u.email == email)
  }

  /** Index of the first user whose id is `id`. */
  function FindById(users: seq<UserDoc>, id: string): (r: Option<nat>)
    ensures r.Some? ==> r.value < |users| && users[r.value].id == id
    ensures r.Some? ==> forall j :: 0 <= j < r.value ==> users[j].id != id
    ensures r.None? ==> forall j :: 0 <= j < |users| ==> users[j].id != id
  {
    FirstIndex(users, (u: UserDoc) => u.id == id)
  }

  /** Index of the first group named `name`. */
  function FindGroup(groups: seq<Group>, name: string): (r: Option<nat>)
    ensures r.Some? ==> r.value < |groups| && groups[r.value].name == name
    ensures r.Some? ==> forall j :: 0 <= j < r.value ==> groups[j].name != name
    ensures r.None? ==> forall j :: 0 <= j < |groups| ==> groups[j].name != name
  {
    FirstIndex(groups, (g: Group) => g.name == name)
  }

  /** `find` on the users collection by id. */
  function FindUserById(users: seq<UserDoc>, id: string): (r: Result<UserDoc, string>)
    ensures r.Ok? <==> exists j :: 0 <= j < |users| && users[j].id == id
    ensures r.Ok? ==> r.value.id == id && r.value in users
    ensures r.Err? ==> r.error == NOT_FOUND
  {
    match FindById(users, id)
    case None => Err(NOT_FOUND)
    case Some(i) => Ok(users[i])
  }

  /** `find` on the groups collection by name. */
  function FindGroupByName(groups: seq<Group>, name: string): (r: Result<Group, string>)
    ensures r.Ok? <==> exists j :: 0 <= j < |groups| && groups[j].name == name
    ensures r.Ok? ==> r.value.name == name && r.value in groups
    ensures r.Err? ==> r.error == NOT_FOUND
  {
    match FindGroup(groups, name)
    case None => Err(NOT_FOUND)
    case Some(i) => Ok(groups[i])
  }

  /** The users in `users` that are in group `g`, in order. */
  function MembersOf(users: seq<UserDoc>, g: string): (ms: seq<UserDoc>)
    ensures forall u :: u in ms <==> u in users && g in u.groups
    decreases |users|
  {
    if |users| == 0 then []
    else (if g in users[0].groups then [users[0]] else []) + MembersOf(users[1..], g)
  }

  /** `find_many` of the members of a group: an empty answer is an error. */
  function FindMembers(users: seq<UserDoc>, g: string): (r: Result<seq<UserDoc>, string>)
    ensures r.Ok? ==> |r.value| > 0 && r.value == MembersOf(users, g)
    ensures r.Err? <==> MembersOf(users, g) == []
    ensures r.Err? ==> r.error == NONE_FOUND
  {
    var ms := MembersOf(users, g);
    if |ms| == 0 then Err(NONE_FOUND) else Ok(ms)
  }
}
