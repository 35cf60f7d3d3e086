/** The arithmetic of `GET /api/users/paginate`: query defaults, the
    skip/take window and the page count. */
module Pagination {
  import opened Values

  function Min(a: int, b: int): int {
    if a <= b then a else b
  }

  /** `parseInt(q) || d`, where `parsed` is the result of `parseInt` with
      `None` standing for NaN. NaN and 0 are falsy and give the default;
      every other number is kept. */
  function OrDefault(parsed: Option<int>, d: int): (r: int)
    ensures parsed == None || parsed == Some(0) ==> r == d
    ensures parsed.Some? && parsed.value != 0 ==> r == parsed.value
  {
    match parsed
    case None => d
    case Some(n) => if n == 0 then d else n
  }

  /** `Math.ceil(total / limit)`, on integers. */
  function CeilDiv(total: nat, limit: int): (q: nat)
    requires 1 <= limit
    ensures q * limit >= total
    ensures (q - 1) * limit < total
  {
    var q := (total + limit - 1) / limit;
    var rem := (total + limit - 1) % limit;
    assert total + limit - 1 == q * limit + rem;
    assert (q - 1) * limit == q * limit - limit;
    q
  }

  /** `skip`/`take` applied to an ordered result: at most `take` elements,
      starting at position `skip`, cut short by the end of the sequence. */
  function Window<T>(xs: seq<T>, skip: nat, take: nat): (w: seq<T>)
    ensures |w| <= take
    ensures |w| == if skip >= |xs| then 0 else Min(take, |xs| - skip)
    ensures forall i :: 0 <= i < |w| ==> skip + i < |xs| && w[i] == xs[skip + i]
  {
    if skip >= |xs| then [] else xs[skip..Min(skip + take, |xs|)]
  }

  /** The first position of page `page` (counting pages from 1). */
  function Offset(page: int, limit: int): int {
    (page - 1) * limit
  }

  /** `w` is what page `page` of the ordered result `xs` shows: the
      elements from position `Offset(page, limit)` on, `limit` of them or as
      many as remain. */
  ghost predicate IsPage<T>(xs: seq<T>, page: int, limit: int, w: seq<T>) {
    var skip := Offset(page, limit);
    && 0 <= skip
    && |w| == (if skip >= |xs| then 0 else Min(limit, |xs| - skip))
    && forall i :: 0 <= i < |w| ==> skip + i < |xs| && w[i] == xs[skip + i]
  }

  /** The rows shown on page `page` of the ordered result `xs`. */
  function PageSlice<T>(xs: seq<T>, page: int, limit: int): (w: seq<T>)
    requires 1 <= page && 1 <= limit
    ensures |w| <= limit
    ensures IsPage(xs, page, limit, w)
  {
    Window(xs, Offset(page, limit), limit)
  }

  /** Multiplying by a positive page size keeps the order of page numbers:
      page `a` ends no later than page `b` starts. */
  lemma {:induction false} MulMonotone(a: int, b: int, limit: int)
    requires a < b && 1 <= limit
    decreases b - a
    ensures a * limit + limit <= b * limit
  {
    assert b * limit == (b - 1) * limit + limit;
    if a < b - 1 {
      MulMonotone(a, b - 1, limit);
    }
  }

  /** `a` precedes `b` exactly when page `a` ends no later than page `b` starts. */
  lemma MulOrder(a: int, b: int, limit: int)
    requires 1 <= limit
    ensures a < b <==> a * limit + limit <= b * limit
  {
    if a < b {
      MulMonotone(a, b, limit);
    } else if b < a {
      MulMonotone(b, a, limit);
    }
  }

  /** The page holding position `i` of the ordered result is `i / limit + 1`. */
  lemma PageOfIndex(i: int, limit: int, page: int)
    requires 1 <= limit && 0 <= i
    requires 1 <= page && Offset(page, limit) <= i < Offset(page, limit) + limit
    ensures page == i / limit + 1
  {
    var q := i / limit;
    var k := page - 1;
    assert i == q * limit + i % limit;
    MulOrder(k, q, limit);
    MulOrder(q, k, limit);
  }

  /** Element `i` of the ordered result is shown on page `i / limit + 1`, at
      position `i % limit`, and that page is within `totalPages`; it is
      shown on no other page. */
  lemma EveryIndexOnOnePage<T>(xs: seq<T>, limit: int, i: int)
    requires 1 <= limit && 0 <= i < |xs|
    ensures 1 <= i / limit + 1 <= CeilDiv(|xs|, limit)
    ensures i % limit < |PageSlice(xs, i / limit + 1, limit)|
    ensures PageSlice(xs, i / limit + 1, limit)[i % limit] == xs[i]
    ensures forall page :: 1 <= page && Offset(page, limit) <= i < Offset(page, limit) + limit ==> page == i / limit + 1
  {
    var q := i / limit;
    assert i == q * limit + i % limit;
    assert Offset(q + 1, limit) == q * limit;
    var tp := CeilDiv(|xs|, limit);
    MulOrder(q, tp, limit);
    forall page | 1 <= page && Offset(page, limit) <= i < Offset(page, limit) + limit
      ensures page == q + 1
    {
      PageOfIndex(i, limit, page);
    }
  }

  /** Distinct pages cover distinct positions, so over a sequence without
      repetitions they show no element in common. */
  lemma DistinctPagesShareNothing<T>(xs: seq<T>, limit: int, p1: int, p2: int)
    requires forall a, b :: 0 <= a < b < |xs| ==> xs[a] != xs[b]
    requires 1 <= limit && 1 <= p1 && 1 <= p2 && p1 != p2
    ensures forall x :: x in PageSlice(xs, p1, limit) ==> x !in PageSlice(xs, p2, limit)
  {
    var w1, w2 := PageSlice(xs, p1, limit), PageSlice(xs, p2, limit);
    forall x | x in w1 ensures x !in w2 {
      var j1 :| 0 <= j1 < |w1| && w1[j1] == x;
      if x in w2 {
        var j2 :| 0 <= j2 < |w2| && w2[j2] == x;
        var i1, i2 := Offset(p1, limit) + j1, Offset(p2, limit) + j2;
        assert xs[i1] == xs[i2];
        PageOfIndex(i1, limit, p1);
        PageOfIndex(i2, limit, p2);
      }
    }
  }
}
