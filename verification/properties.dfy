/** Properties that relate several handlers, or a handler to an independent
    description of its result. */
module Properties {
  import opened Values
  import opened Store
  import opened Listing
  import opened Pagination
  import opened Handlers

  // ---------------------------------------------------------------------
  // Create

  /** A user created with `email` and `name` is then found under the next
      autoincrement id, with those values and `status` defaulted. */
  lemma CreateThenGet(s: Store, now: int, email: Value, name: Value, status: Value, bio: Value)
    requires Valid(s)
    ensures var stored := Profile(name, if Nullish(status) then Bool(true) else status, bio);
      GetUser(CreateUser(s, now, email, name, status, bio).store, s.nextId).reply
        == Reply(200, One(Entry(s.nextId, User(email, now, Some(stored)))))
  {
  }

  /** Deleting the user just created gives back the users from before; only
      the autoincrement counter has moved on. */
  lemma CreateThenDelete(s: Store, now: int, email: Value, name: Value, status: Value, bio: Value)
    requires Valid(s)
    ensures var created := CreateUser(s, now, email, name, status, bio).store;
      DeleteUser(created, s.nextId).store == Store(s.users, s.nextId + 1)
  {
  }

  // ---------------------------------------------------------------------
  // Delete

  /** After a delete, looking the user up gives 404. */
  lemma DeleteThenGet(s: Store, id: int)
    requires Valid(s)
    ensures GetUser(DeleteUser(s, id).store, id).reply == NotFound
  {
  }

  /** Deleting twice is the same as deleting once; the second reply is 404. */
  lemma DeleteTwice(s: Store, id: int)
    requires Valid(s)
    ensures var once := DeleteUser(s, id).store;
      DeleteUser(once, id) == Outcome(NotFound, once)
  {
  }

  // ---------------------------------------------------------------------
  // Update

  /** Applying a patch to its own result changes nothing more. */
  lemma ApplyPatchIdempotent(u: User, p: Patch)
    requires ApplyPatch(u, p).Some?
    ensures ApplyPatch(ApplyPatch(u, p).value, p) == ApplyPatch(u, p)
  {
  }

  /** Sending the same partial update twice leaves the store as the first
      one left it, with the same reply. */
  lemma UpdateIdempotent(s: Store, id: int, email: Value, name: Value, bio: Value, status: Value)
    requires Valid(s)
    ensures var first := UpdateUser(s, id, email, name, bio, status);
      UpdateUser(first.store, id, email, name, bio, status) == first
  {
  }

  /** The user in a successful update's reply is the one a later lookup finds. */
  lemma UpdateThenGet(s: Store, id: int, email: Value, name: Value, bio: Value, status: Value)
    requires Valid(s)
    ensures var r := UpdateUser(s, id, email, name, bio, status);
      r.reply.status == 200 ==>
        GetUser(r.store, id).reply == Reply(200, One(r.reply.body.data))
  {
  }

  /** An update with no truthy field and no boolean status changes nothing. */
  lemma EmptyUpdateChangesNothing(s: Store, id: int, email: Value, name: Value, bio: Value, status: Value)
    requires Valid(s)
    requires !Truthy(email) && !Truthy(name) && !Truthy(bio) && !status.Bool?
    ensures UpdateUser(s, id, email, name, bio, status).store == s
  {
  }

  // ---------------------------------------------------------------------
  // Listing

  /** There is only one way to order a collection of entries newest first:
      two ordered sequences with the same elements are equal. So the listing
      is determined by the store alone. */
  lemma {:induction false} SortedUnique(a: seq<Entry>, b: seq<Entry>)
    requires SortedDesc(a) && SortedDesc(b)
    requires forall e :: e in a <==> e in b
    decreases |a|
    ensures a == b
  {
    if a == [] {
      assert forall k :: 0 <= k < |b| ==> b[k] in b;
    } else {
      assert a[0] in b;
      assert b != [];
      assert b[0] in a;
      forall e | e in a[1..] ensures e in b[1..] {
        var k :| 1 <= k < |a| && a[k] == e;
        assert Precedes(a[0], e);
        assert a[k] in a;
        var m :| 0 <= m < |b| && b[m] == e;
        assert m != 0;
        assert b[1..][m - 1] == e;
      }
      forall e | e in b[1..] ensures e in a[1..] {
        var k :| 1 <= k < |b| && b[k] == e;
        assert Precedes(b[0], e);
        assert b[k] in b;
        var m :| 0 <= m < |a| && a[m] == e;
        assert m != 0;
        assert a[1..][m - 1] == e;
      }
      SortedUnique(a[1..], b[1..]);
    }
  }

  /** Any newest-first arrangement of exactly the store's rows is the listing
      `GET /api/users/all` returns. */
  lemma ListAllIsTheOrdering(s: Store, list: seq<Entry>)
    requires Valid(s)
    requires SortedDesc(list)
    requires forall e :: e in list <==> e.id in s.users && e.user == s.users[e.id]
    ensures AllUsers(s).reply.body.users == list
  {
    SortedUnique(ListAll(s), list);
  }

  // ---------------------------------------------------------------------
  // Paginate

  /** Every user of the listing is shown on exactly one page: the one
      holding its position, which is no later than `totalPages`. */
  lemma PaginateShowsEveryUser(s: Store, limit: int, i: int)
    requires Valid(s) && 1 <= limit && 0 <= i < |s.users|
    ensures var page := i / limit + 1;
      var r := Paginate(s, Some(page), Some(limit)).reply.body;
      && page <= r.totalPages
      && i % limit < |r.users|
      && r.users[i % limit] == ListAll(s)[i]
  {
    var list := ListAll(s);
    EveryIndexOnOnePage(list, limit, i);
    var page := i / limit + 1;
    var r := Paginate(s, Some(page), Some(limit)).reply.body;
    assert r.users == PageSlice(list, page, limit);
  }

  /** Two different pages never show the same user. */
  lemma PagesAreDisjoint(s: Store, limit: int, p1: int, p2: int)
    requires Valid(s) && 1 <= limit && 1 <= p1 && 1 <= p2 && p1 != p2
    ensures forall e :: e in Paginate(s, Some(p1), Some(limit)).reply.body.users ==>
      e !in Paginate(s, Some(p2), Some(limit)).reply.body.users
  {
    var list := ListAll(s);
    assert Paginate(s, Some(p1), Some(limit)).reply.body.users == PageSlice(list, p1, limit);
    assert Paginate(s, Some(p2), Some(limit)).reply.body.users == PageSlice(list, p2, limit);
    DistinctPagesShareNothing(list, limit, p1, p2);
  }
}
