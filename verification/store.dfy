/** The database behind the server, reduced to the two tables the handlers
    touch. A user row and its (at most one) profile row are kept together:
    the profile is `Some` exactly when a profile row with that `userId` exists. */
module Store {
  import opened Values

  datatype Profile = Profile(name: Value, status: Value, bio: Value)

  datatype User = User(email: Value, createdAt: int, profile: Option<Profile>)

  /** A user row together with its id, as it appears in a JSON response. */
  datatype Entry = Entry(id: int, user: User)

  /** `users` maps each autoincrement id to its row; `nextId` is the value the
      autoincrement column hands out next. Ids are never reused. */
  datatype Store = Store(users: map<int, User>, nextId: int)

  /** A freshly migrated database: no rows, autoincrement starting at 1. */
  const Empty: Store := Store(map[], 1)

  /** Every id in use was handed out by the autoincrement counter. */
  ghost predicate Valid(s: Store) {
    && 1 <= s.nextId
    && forall id :: id in s.users ==> 1 <= id < s.nextId
  }

  /** `INSERT` of a user row (with its nested profile) under the next id. */
  function InsertUser(s: Store, u: User): (r: Store)
    requires Valid(s)
    ensures Valid(r)
    ensures s.nextId !in s.users
    ensures r.users.Keys == s.users.Keys + {s.nextId}
    ensures r.users[s.nextId] == u
    ensures forall id :: id in s.users ==> r.users[id] == s.users[id]
  {
    Store(s.users[s.nextId := u], s.nextId + 1)
  }

  /** `UPDATE` of an existing row; no key is added or removed. */
  function ReplaceUser(s: Store, id: int, u: User): (r: Store)
    requires Valid(s) && id in s.users
    ensures Valid(r)
    ensures r.users.Keys == s.users.Keys && r.nextId == s.nextId
    ensures r.users[id] == u
    ensures forall other :: other in s.users && other != id ==> r.users[other] == s.users[other]
  {
    Store(s.users[id := u], s.nextId)
  }

  /** `DELETE FROM profile WHERE userId = id`. */
  function DeleteProfileRow(s: Store, id: int): (r: Store)
    requires Valid(s) && id in s.users && s.users[id].profile.Some?
    ensures Valid(r)
    ensures r.users.Keys == s.users.Keys && r.nextId == s.nextId
    ensures r.users[id] == s.users[id].(profile := None)
    ensures forall other :: other in s.users && other != id ==> r.users[other] == s.users[other]
  {
    ReplaceUser(s, id, s.users[id].(profile := None))
  }

  /** `DELETE FROM user WHERE id = id`. The profile's foreign key has no
      cascade, so the database refuses this while a profile row still refers
      to the user: that is the precondition. */
  function DeleteUserRow(s: Store, id: int): (r: Store)
    requires Valid(s) && id in s.users && s.users[id].profile.None?
    ensures Valid(r)
    ensures r.users.Keys == s.users.Keys - {id} && r.nextId == s.nextId
    ensures forall other :: other in r.users ==> r.users[other] == s.users[other]
  {
    Store(s.users - {id}, s.nextId)
  }
}
