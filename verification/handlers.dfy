/** The six route handlers of the server, each a pure function from the store
    and the request's fields to the reply and the store afterwards. */
module Handlers {
  import opened Values
  import opened Store
  import opened Listing
  import opened Pagination

  /** JSON response bodies. */
  datatype Body =
    | Message(text: string)
    | UserList(users: seq<Entry>)
    | PageOf(users: seq<Entry>, total: nat, page: int, totalPages: nat)
    | One(user: Entry)
    | UpdatedUser(data: Entry, message: string)

  /** An HTTP status code and the JSON body sent with it. */
  datatype Reply = Reply(status: int, body: Body)

  /** What a request produces: the reply, and the store as it is afterwards. */
  datatype Outcome = Outcome(reply: Reply, store: Store)

  const NotFound: Reply := Reply(404, Message("User not found"))
  const CreatedMessage: string := "User Created Successfully!"
  const UpdatedMessage: string := "User Information Updated Successfully!"
  const UpdateFailedMessage: string := "Failed to update user"
  const DeletedMessage: string := "User Deleted Successfully!"

  // ---------------------------------------------------------------------
  // POST /api/users/create

  /** Creates a user with its profile. `now` is the clock reading the
      database stores as `createdAt`. A nullish `status` becomes `true`; every
      other field is stored as given. */
  function CreateUser(s: Store, now: int, email: Value, name: Value, status: Value, bio: Value): (r: Outcome)
    requires Valid(s)
    ensures Valid(r.store)
    ensures r.reply == Reply(201, Message(CreatedMessage))
    ensures s.nextId !in s.users
    ensures r.store.users.Keys == s.users.Keys + {s.nextId}
    ensures forall id :: id in s.users ==> r.store.users[id] == s.users[id]
    ensures var u := r.store.users[s.nextId];
      && u.email == email && u.createdAt == now && u.profile.Some?
      && u.profile.value.name == name && u.profile.value.bio == bio
      && (Nullish(status) ==> u.profile.value.status == Bool(true))
      && (!Nullish(status) ==> u.profile.value.status == status)
  {
    var profile := Profile(name, if Nullish(status) then Bool(true) else status, bio);
    Outcome(Reply(201, Message(CreatedMessage)), InsertUser(s, User(email, now, Some(profile))))
  }

  // ---------------------------------------------------------------------
  // GET /api/users/all

  /** Every user with its profile, newest first. */
  function AllUsers(s: Store): (r: Outcome)
    requires Valid(s)
    ensures r.store == s && r.reply.status == 200 && r.reply.body.UserList?
    ensures forall e :: e in r.reply.body.users <==> e.id in s.users && e.user == s.users[e.id]
    ensures SortedDesc(r.reply.body.users)
    ensures |r.reply.body.users| == |s.users|
  {
    Outcome(Reply(200, UserList(ListAll(s))), s)
  }

  // ---------------------------------------------------------------------
  // GET /api/users/paginate?page&limit

  /** One page of the newest-first listing. `pageParam` and `limitParam` are
      the results of `parseInt` on the query strings, `None` for NaN. */
  function Paginate(s: Store, pageParam: Option<int>, limitParam: Option<int>): (r: Outcome)
    requires Valid(s)
    requires pageParam.Some? ==> pageParam.value >= 0
    requires limitParam.Some? ==> limitParam.value >= 0
    ensures r.store == s && r.reply.status == 200 && r.reply.body.PageOf?
    ensures r.reply.body.page == OrDefault(pageParam, 1) >= 1
    ensures r.reply.body.total == |s.users|
    ensures var limit := OrDefault(limitParam, 10);
      && limit >= 1
      && r.reply.body.totalPages * limit >= r.reply.body.total
      && (r.reply.body.totalPages - 1) * limit < r.reply.body.total
    ensures |r.reply.body.users| <= OrDefault(limitParam, 10)
    ensures IsPage(ListAll(s), r.reply.body.page, OrDefault(limitParam, 10), r.reply.body.users)
  {
    var page := OrDefault(pageParam, 1);
    var limit := OrDefault(limitParam, 10);
    var list := ListAll(s);
    var users := PageSlice(list, page, limit);
    var total := |list|;
    Outcome(Reply(200, PageOf(users, total, page, CeilDiv(total, limit))), s)
  }

  // ---------------------------------------------------------------------
  // GET /api/users/:id

  /** The user with the given id, or 404. */
  function GetUser(s: Store, id: int): (r: Outcome)
    ensures r.store == s
    ensures id in s.users ==> r.reply == Reply(200, One(Entry(id, s.users[id])))
    ensures id !in s.users ==> r.reply == NotFound
  {
    if id in s.users then Outcome(Reply(200, One(Entry(id, s.users[id]))), s)
    else Outcome(NotFound, s)
  }

  // ---------------------------------------------------------------------
  // PATCH /api/users/:id

  /** The profile columns a request asks to change; `None` leaves one alone. */
  datatype ProfilePatch = ProfilePatch(name: Option<Value>, bio: Option<Value>, status: Option<bool>)

  /** The `data` argument of the update: a new email, and the nested profile
      update, which is left out entirely when it would change nothing. */
  datatype Patch = Patch(email: Option<Value>, profile: Option<ProfilePatch>)

  /** A field is taken into the patch only when its value is truthy. */
  function IfTruthy(v: Value): Option<Value> {
    if Truthy(v) then Some(v) else None
  }

  /** The patch built from the request body. */
  function BuildPatch(email: Value, name: Value, bio: Value, status: Value): (p: Patch)
    ensures p.email.Some? <==> Truthy(email)
    ensures p.email.Some? ==> p.email.value == email
    ensures p.profile.Some? <==> Truthy(name) || Truthy(bio) || status.Bool?
    ensures p.profile.Some? ==> var pp := p.profile.value;
      && (pp.name.Some? <==> Truthy(name)) && (pp.name.Some? ==> pp.name.value == name)
      && (pp.bio.Some? <==> Truthy(bio)) && (pp.bio.Some? ==> pp.bio.value == bio)
      && (pp.status.Some? <==> status.Bool?) && (pp.status.Some? ==> Bool(pp.status.value) == status)
  {
    var pp := ProfilePatch(IfTruthy(name), IfTruthy(bio), if status.Bool? then Some(status.b) else None);
    var touched := pp.name.Some? || pp.bio.Some? || pp.status.Some?;
    Patch(IfTruthy(email), if touched then Some(pp) else None)
  }

  /** The column value after an update: the patched value when there is one. */
  function Override<T>(patch: Option<T>, current: T): T {
    if patch.Some? then patch.value else current
  }

  /** A nested `update` of the profile row. */
  function ApplyProfile(p: Profile, pp: ProfilePatch): Profile {
    Profile(
      Override(pp.name, p.name),
      if pp.status.Some? then Bool(pp.status.value) else p.status,
      Override(pp.bio, p.bio))
  }

  /** `prisma.user.update` with the patch. The database refuses a nested
      profile update when the user has no profile row: `None`. Otherwise
      exactly the columns the patch names take its values. */
  function ApplyPatch(u: User, p: Patch): (r: Option<User>)
    ensures r.None? <==> p.profile.Some? && u.profile.None?
    ensures r.Some? ==> var u2 := r.value;
      && u2.createdAt == u.createdAt
      && (p.email.Some? ==> u2.email == p.email.value)
      && (p.email.None? ==> u2.email == u.email)
      && (p.profile.None? ==> u2.profile == u.profile)
      && (p.profile.Some? ==> u2.profile.Some?)
      && (p.profile.Some? && u2.profile.Some? ==>
          var pp, before, after := p.profile.value, u.profile.value, u2.profile.value;
          && (pp.name.Some? ==> after.name == pp.name.value)
          && (pp.name.None? ==> after.name == before.name)
          && (pp.bio.Some? ==> after.bio == pp.bio.value)
          && (pp.bio.None? ==> after.bio == before.bio)
          && (pp.status.Some? ==> after.status == Bool(pp.status.value))
          && (pp.status.None? ==> after.status == before.status))
  {
    if p.profile.Some? && u.profile.None? then None
    else
      var profile := if p.profile.Some? then Some(ApplyProfile(u.profile.value, p.profile.value)) else u.profile;
      Some(User(Override(p.email, u.email), u.createdAt, profile))
  }

  /** `u2` is `u` with exactly the supplied fields overwritten: a text field
      when its value is truthy, `status` when it is a boolean. */
  ghost predicate PatchedFrom(u: User, u2: User, email: Value, name: Value, bio: Value, status: Value) {
    && u2.createdAt == u.createdAt
    && (Truthy(email) ==> u2.email == email)
    && (!Truthy(email) ==> u2.email == u.email)
    && (u2.profile.Some? <==> u.profile.Some?)
    && (u.profile.Some? && u2.profile.Some? ==>
        var p, p2 := u.profile.value, u2.profile.value;
        && (Truthy(name) ==> p2.name == name)
        && (!Truthy(name) ==> p2.name == p.name)
        && (Truthy(bio) ==> p2.bio == bio)
        && (!Truthy(bio) ==> p2.bio == p.bio)
        && (status.Bool? ==> p2.status == status)
        && (!status.Bool? ==> p2.status == p.status))
  }

  /** The request would touch the profile row. */
  predicate TouchesProfile(name: Value, bio: Value, status: Value) {
    Truthy(name) || Truthy(bio) || status.Bool?
  }

  /** Partial update of the user with the given id: 404 when there is none,
      500 (and no change) when a profile field is supplied for a user without
      a profile, otherwise 200 with the updated user. */
  function UpdateUser(s: Store, id: int, email: Value, name: Value, bio: Value, status: Value): (r: Outcome)
    requires Valid(s)
    ensures Valid(r.store)
    ensures id !in s.users ==> r.reply == NotFound && r.store == s
    ensures id in s.users && s.users[id].profile.None? && TouchesProfile(name, bio, status) ==>
      r.reply == Reply(500, Message(UpdateFailedMessage)) && r.store == s
    ensures id in s.users && (s.users[id].profile.Some? || !TouchesProfile(name, bio, status)) ==>
      && r.store.users.Keys == s.users.Keys && r.store.nextId == s.nextId
      && PatchedFrom(s.users[id], r.store.users[id], email, name, bio, status)
      && (forall other :: other in s.users && other != id ==> r.store.users[other] == s.users[other])
      && r.reply == Reply(200, UpdatedUser(Entry(id, r.store.users[id]), UpdatedMessage))
  {
    if id !in s.users then Outcome(NotFound, s)
    else
      match ApplyPatch(s.users[id], BuildPatch(email, name, bio, status))
      case None => Outcome(Reply(500, Message(UpdateFailedMessage)), s)
      case Some(u) =>
        Outcome(Reply(200, UpdatedUser(Entry(id, u), UpdatedMessage)), ReplaceUser(s, id, u))
  }

  // ---------------------------------------------------------------------
  // DELETE /api/users/:id

  /** Deletes the user with the given id: its profile row first, when it has
      one, then the user row. 404 when there is no such user. */
  function DeleteUser(s: Store, id: int): (r: Outcome)
    requires Valid(s)
    ensures Valid(r.store)
    ensures id !in s.users ==> r.reply == NotFound && r.store == s
    ensures id in s.users ==>
      && r.reply == Reply(200, Message(DeletedMessage))
      && r.store.users.Keys == s.users.Keys - {id}
      && r.store.nextId == s.nextId
      && forall other :: other in r.store.users ==> r.store.users[other] == s.users[other]
  {
    if id !in s.users then Outcome(NotFound, s)
    else
      var withoutProfile := if s.users[id].profile.Some? then DeleteProfileRow(s, id) else s;
      Outcome(Reply(200, Message(DeletedMessage)), DeleteUserRow(withoutProfile, id))
  }
}
