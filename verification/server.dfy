/** The route table: which handler a request reaches, and what any sequence
    of requests does to the store. */
module Server {
  import opened Values
  import opened Store
  import opened Handlers

  /** A request, after routing and after `parseInt` of its id or query. */
  datatype Request =
    | CreateReq(now: int, email: Value, name: Value, status: Value, bio: Value)
    | AllReq
    | PaginateReq(page: Option<int>, limit: Option<int>)
    | GetReq(id: int)
    | PatchReq(id: int, email: Value, name: Value, bio: Value, status: Value)
    | DeleteReq(id: int)

  /** The paginate query parameters are not negative. */
  predicate Admissible(req: Request) {
    req.PaginateReq? ==>
      && (req.page.Some? ==> req.page.value >= 0)
      && (req.limit.Some? ==> req.limit.value >= 0)
  }

  /** Requests that only read. */
  predicate ReadOnly(req: Request) {
    req.AllReq? || req.PaginateReq? || req.GetReq?
  }

  /** Dispatches a request to its handler. Reads leave the store alone; only
      a create adds an id, and it is the next autoincrement value; no request
      changes a surviving user's `createdAt`. */
  function Handle(s: Store, req: Request): (r: Outcome)
    requires Valid(s) && Admissible(req)
    ensures Valid(r.store)
    ensures ReadOnly(req) ==> r.store == s
    ensures r.store.nextId == (if req.CreateReq? then s.nextId + 1 else s.nextId)
    ensures forall id :: id in r.store.users && id != s.nextId ==> id in s.users
    ensures forall id :: id in r.store.users && id in s.users ==>
      r.store.users[id].createdAt == s.users[id].createdAt
  {
    match req
    case CreateReq(now, email, name, status, bio) => CreateUser(s, now, email, name, status, bio)
    case AllReq => AllUsers(s)
    case PaginateReq(page, limit) => Paginate(s, page, limit)
    case GetReq(id) => GetUser(s, id)
    case PatchReq(id, email, name, bio, status) => UpdateUser(s, id, email, name, bio, status)
    case DeleteReq(id) => DeleteUser(s, id)
  }

  /** Every request of `reqs` is admissible. */
  ghost predicate AllAdmissible(reqs: seq<Request>) {
    forall i :: 0 <= i < |reqs| ==> Admissible(reqs[i])
  }

  /** The store after serving `reqs` one after another, from `s`. Ids are
      never reused: a user whose id was handed out before the run and who is
      present after it was present before it, with its `createdAt`. */
  function Run(s: Store, reqs: seq<Request>): (r: Store)
    requires Valid(s)
    requires AllAdmissible(reqs)
    decreases |reqs|
    ensures Valid(r)
    ensures r.nextId >= s.nextId
    ensures forall id :: id in r.users && id < s.nextId ==> id in s.users
    ensures forall id :: id in r.users && id in s.users ==> r.users[id].createdAt == s.users[id].createdAt
  {
    if reqs == [] then s
    else Run(Handle(s, reqs[0]).store, reqs[1..])
  }

  /** Serving `a` and then `b` is serving `a + b`. */
  lemma {:induction false} RunAppend(s: Store, a: seq<Request>, b: seq<Request>)
    requires Valid(s) && AllAdmissible(a) && AllAdmissible(b)
    decreases |a|
    ensures AllAdmissible(a + b)
    ensures Run(s, a + b) == Run(Run(s, a), b)
  {
    assert AllAdmissible(a + b) by {
      forall i | 0 <= i < |a + b| ensures Admissible((a + b)[i]) {
        if i < |a| { assert (a + b)[i] == a[i]; } else { assert (a + b)[i] == b[i - |a|]; }
      }
    }
    if a == [] {
      assert a + b == b;
    } else {
      assert (a + b)[0] == a[0];
      assert (a + b)[1..] == a[1..] + b;
      assert AllAdmissible(a[1..]) by {
        forall i | 0 <= i < |a| - 1 ensures Admissible(a[1..][i]) { assert a[1..][i] == a[i + 1]; }
      }
      RunAppend(Handle(s, a[0]).store, a[1..], b);
    }
  }

  /** What `Run` promises about its start holds from every point of the run:
      a user present at the end, whose id had been handed out by the time the
      first `k` requests were served, was present at that time, with the same
      `createdAt`. So an id deleted anywhere in the run, and not created
      again before it, never comes back. */
  lemma RunFromMidpoint(s: Store, reqs: seq<Request>, k: int)
    requires Valid(s) && AllAdmissible(reqs) && 0 <= k <= |reqs|
    ensures var mid, end := Run(s, reqs[..k]), Run(s, reqs);
      && (forall id :: id in end.users && id < mid.nextId ==> id in mid.users)
      && (forall id :: id in end.users && id in mid.users ==> end.users[id].createdAt == mid.users[id].createdAt)
  {
    assert reqs == reqs[..k] + reqs[k..];
    assert AllAdmissible(reqs[..k]) by {
      forall i | 0 <= i < k ensures Admissible(reqs[..k][i]) { assert reqs[..k][i] == reqs[i]; }
    }
    assert AllAdmissible(reqs[k..]) by {
      forall i | 0 <= i < |reqs| - k ensures Admissible(reqs[k..][i]) { assert reqs[k..][i] == reqs[k + i]; }
    }
    RunAppend(s, reqs[..k], reqs[k..]);
  }

  /** Serving a delete first is serving the rest from the store it leaves. */
  lemma RunDeleteFirst(t: Store, id: int, after: seq<Request>)
    requires Valid(t) && AllAdmissible(after)
    ensures AllAdmissible([DeleteReq(id)] + after)
    ensures Run(t, [DeleteReq(id)] + after) == Run(DeleteUser(t, id).store, after)
  {
    var rest := [DeleteReq(id)] + after;
    assert rest[0] == DeleteReq(id) && rest[1..] == after;
    assert AllAdmissible(rest) by {
      forall i | 0 <= i < |rest| ensures Admissible(rest[i]) {
        if i > 0 { assert rest[i] == after[i - 1]; }
      }
    }
  }

  /** A delete that finds its user, served after `before` and followed by
      `after`, leaves that id absent at the end of the run. */
  lemma DeletedStaysGone(s: Store, before: seq<Request>, id: int, after: seq<Request>)
    requires Valid(s) && AllAdmissible(before) && AllAdmissible(after)
    requires id in Run(s, before).users
    ensures AllAdmissible(before + ([DeleteReq(id)] + after))
    ensures id !in Run(s, before + ([DeleteReq(id)] + after)).users
  {
    var mid := Run(s, before);
    RunDeleteFirst(mid, id, after);
    RunAppend(s, before, [DeleteReq(id)] + after);
    var gap := DeleteUser(mid, id).store;
    assert id !in gap.users && id < gap.nextId;
  }
}
