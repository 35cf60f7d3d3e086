/** `findMany({ orderBy: { createdAt: 'desc' } })`: every user row, newest
    first. The database leaves the order of rows with equal `createdAt`
    unspecified; this model fixes it to ascending id, so that the full listing
    and every page are cut from one and the same sequence. */
module Listing {
  import opened Values
  import opened Store

  /** `a` comes before `b` in the listing. */
  predicate Precedes(a: Entry, b: Entry) {
    || a.user.createdAt > b.user.createdAt
    || (a.user.createdAt == b.user.createdAt && a.id < b.id)
  }

  /** Strictly ordered by `Precedes`; in particular no id occurs twice. */
  ghost predicate SortedDesc(es: seq<Entry>) {
    forall i, j :: 0 <= i < j < |es| ==> Precedes(es[i], es[j])
  }

  /** The ids in use among `k .. nextId-1`. */
  ghost function KeysFrom(s: Store, k: int): set<int> {
    set id | id in s.users && k <= id < s.nextId
  }

  /** The ids in use among `k .. nextId-1`, in ascending order. */
  function IdsFrom(s: Store, k: int): (r: seq<int>)
    decreases s.nextId - k
    ensures forall id :: id in r <==> id in s.users && k <= id < s.nextId
    ensures forall i, j :: 0 <= i < j < |r| ==> r[i] < r[j]
  {
    if k >= s.nextId then []
    else if k in s.users then
      var rest := IdsFrom(s, k + 1);
      assert forall i :: 0 <= i < |rest| ==> k < rest[i] by {
        forall i | 0 <= i < |rest| ensures k < rest[i] {
          assert rest[i] in rest;
        }
      }
      [k] + rest
    else IdsFrom(s, k + 1)
  }

  /** `IdsFrom` lists each id in use exactly once. */
  lemma {:induction false} IdsFromCount(s: Store, k: int)
    decreases s.nextId - k
    ensures |IdsFrom(s, k)| == |KeysFrom(s, k)|
  {
    if k >= s.nextId {
      assert KeysFrom(s, k) == {};
    } else {
      IdsFromCount(s, k + 1);
      if k in s.users {
        assert KeysFrom(s, k) == {k} + KeysFrom(s, k + 1);
      } else {
        assert KeysFrom(s, k) == KeysFrom(s, k + 1);
      }
    }
  }

  /** The rows of the given ids, in the given order. */
  function RowsOf(s: Store, ids: seq<int>): (r: seq<Entry>)
    requires forall i :: 0 <= i < |ids| ==> ids[i] in s.users
    ensures |r| == |ids|
    ensures forall i :: 0 <= i < |r| ==> r[i] == Entry(ids[i], s.users[ids[i]])
  {
    seq(|ids|, i requires 0 <= i < |ids| => Entry(ids[i], s.users[ids[i]]))
  }

  /** Places `e` among the already ordered `xs`. */
  function Insert(e: Entry, xs: seq<Entry>): (r: seq<Entry>)
    requires SortedDesc(xs)
    requires forall x :: x in xs ==> x.id != e.id
    ensures SortedDesc(r)
    ensures forall y :: y in r <==> y == e || y in xs
    ensures |r| == |xs| + 1
  {
    if xs == [] || Precedes(e, xs[0]) then
      [e] + xs
    else
      var rest := Insert(e, xs[1..]);
      assert forall y :: y in rest ==> Precedes(xs[0], y);
      [xs[0]] + rest
  }

  /** Insertion sort by `Precedes`. */
  function Sort(es: seq<Entry>): (r: seq<Entry>)
    requires forall i, j :: 0 <= i < j < |es| ==> es[i].id != es[j].id
    ensures SortedDesc(r)
    ensures forall y :: y in r <==> y in es
    ensures |r| == |es|
  {
    if es == [] then [] else Insert(es[0], Sort(es[1..]))
  }

  /** The rows of a list holding exactly the ids in use are the store's rows. */
  lemma RowsOfAllIds(s: Store, ids: seq<int>)
    requires forall i :: 0 <= i < |ids| ==> ids[i] in s.users
    requires forall id :: id in s.users ==> id in ids
    ensures forall e :: e in RowsOf(s, ids) <==> e.id in s.users && e.user == s.users[e.id]
  {
  }

  /** Every row of the store once, in ascending id order. */
  function Rows(s: Store): (r: seq<Entry>)
    requires Valid(s)
    ensures forall e :: e in r <==> e.id in s.users && e.user == s.users[e.id]
    ensures forall i, j :: 0 <= i < j < |r| ==> r[i].id < r[j].id
    ensures |r| == |s.users|
  {
    var ids := IdsFrom(s, 1);
    IdsFromCount(s, 1);
    assert KeysFrom(s, 1) == s.users.Keys;
    assert forall i :: 0 <= i < |ids| ==> ids[i] in s.users by {
      forall i | 0 <= i < |ids| ensures ids[i] in s.users {
        assert ids[i] in ids;
      }
    }
    RowsOfAllIds(s, ids);
    RowsOf(s, ids)
  }

  /** The listing `GET /api/users/all` returns and every page is cut from:
      each row of the store exactly once, newest first. */
  function ListAll(s: Store): (r: seq<Entry>)
    requires Valid(s)
    ensures forall e :: e in r <==> e.id in s.users && e.user == s.users[e.id]
    ensures SortedDesc(r)
    ensures forall i, j :: 0 <= i < j < |r| ==> r[i].user.createdAt >= r[j].user.createdAt
    ensures |r| == |s.users|
  {
    Sort(Rows(s))
  }
}
