/** The demand repository's three queries, as functions over the demand table. */
module DemandQueries {
  import opened Outcomes
  import opened Entities

  /** The queue order: createdAt ascending. JPQL leaves the order of equal timestamps open;
      here they are ordered by id, which is the order the store assigned identities in. */
  predicate NotAfter(a: Demand, b: Demand) {
    a.createdAt < b.createdAt || (a.createdAt == b.createdAt && a.id <= b.id)
  }

  ghost predicate SortedByCreatedAt(s: seq<Demand>) {
    forall i, j :: 0 <= i < j < |s| ==> NotAfter(s[i], s[j])
  }

  /** `where d.offer.id = :offerId`, keeping table order. */
  function ForOffer(ds: seq<Demand>, offerId: int): seq<Demand>
  {
    if ds == [] then []
    else (if ds[0].offer == Some(offerId) then [ds[0]] else []) + ForOffer(ds[1..], offerId)
  }

  /** `where d.status = :status`, keeping the order of `ds`. */
  function WithStatus(ds: seq<Demand>, status: DemandStatus): seq<Demand>
  {
    if ds == [] then []
    else (if ds[0].status == status then [ds[0]] else []) + WithStatus(ds[1..], status)
  }

  /** ForOffer keeps exactly the demands of the offer, each as often as `ds` holds it. */
  lemma {:induction false} ForOfferSelects(ds: seq<Demand>, offerId: int)
    ensures forall d :: multiset(ForOffer(ds, offerId))[d] == if d.offer == Some(offerId) then multiset(ds)[d] else 0
  {
    if ds != [] {
      ForOfferSelects(ds[1..], offerId);
      assert ds == [ds[0]] + ds[1..];
    }
  }

  /** WithStatus keeps exactly the demands in that status, each as often as `ds` holds it. */
  lemma {:induction false} WithStatusSelects(ds: seq<Demand>, status: DemandStatus)
    ensures forall d :: multiset(WithStatus(ds, status))[d] == if d.status == status then multiset(ds)[d] else 0
  {
    if ds != [] {
      WithStatusSelects(ds[1..], status);
      assert ds == [ds[0]] + ds[1..];
    }
  }

  /** Places `d` before the first element it does not come after. */
  function Insert(d: Demand, s: seq<Demand>): (r: seq<Demand>)
    ensures multiset(r) == multiset(s) + multiset{d}
  {
    if s == [] then [d]
    else if NotAfter(d, s[0]) then [d] + s
    else
      assert s == [s[0]] + s[1..];
      [s[0]] + Insert(d, s[1..])
  }

  lemma SortedTail(s: seq<Demand>)
    requires s != [] && SortedByCreatedAt(s)
    ensures SortedByCreatedAt(s[1..])
  {
    forall i, j | 0 <= i < j < |s| - 1 ensures NotAfter(s[1..][i], s[1..][j]) {
      assert s[1..][i] == s[i + 1] && s[1..][j] == s[j + 1];
    }
  }

  /** A sorted list stays sorted behind a head that comes before all of it. */
  lemma SortedCons(x: Demand, t: seq<Demand>)
    requires SortedByCreatedAt(t)
    requires forall k :: 0 <= k < |t| ==> NotAfter(x, t[k])
    ensures SortedByCreatedAt([x] + t)
  {
    var r := [x] + t;
    forall i, j | 0 <= i < j < |r| ensures NotAfter(r[i], r[j]) {
      assert r[j] == t[j - 1];
      if i > 0 {
        assert r[i] == t[i - 1];
      }
    }
  }

  /** Inserting into a sorted list keeps it sorted. */
  lemma {:induction false} InsertSorted(d: Demand, s: seq<Demand>)
    requires SortedByCreatedAt(s)
    ensures SortedByCreatedAt(Insert(d, s))
  {
    if s == [] {
    } else if NotAfter(d, s[0]) {
      forall k | 0 <= k < |s| ensures NotAfter(d, s[k]) {
        if k > 0 {
          assert NotAfter(s[0], s[k]);
        }
      }
      SortedCons(d, s);
    } else {
      SortedTail(s);
      InsertSorted(d, s[1..]);
      var t := Insert(d, s[1..]);
      forall k | 0 <= k < |t| ensures NotAfter(s[0], t[k]) {
        assert t[k] in multiset(t);
        if t[k] != d {
          assert t[k] in multiset(s[1..]);
          var m :| 0 <= m < |s[1..]| && s[1..][m] == t[k];
          assert s[m + 1] == t[k];
        }
      }
      SortedCons(s[0], t);
    }
  }

  /** `order by d.createdAt asc`, ties broken by id. */
  function SortByCreatedAt(s: seq<Demand>): (r: seq<Demand>)
    ensures multiset(r) == multiset(s)
    ensures SortedByCreatedAt(r)
  {
    if s == [] then []
    else
      assert s == [s[0]] + s[1..];
      var t := SortByCreatedAt(s[1..]);
      InsertSorted(s[0], t);
      Insert(s[0], t)
  }

  /** findByOfferIdOrderByCreatedAtAsc: every demand of the offer, each as often as the table
      holds it, oldest first. */
  function FindByOfferIdOrderByCreatedAtAsc(ds: seq<Demand>, offerId: int): (r: seq<Demand>)
    ensures SortedByCreatedAt(r)
    ensures forall d :: multiset(r)[d] == if d.offer == Some(offerId) then multiset(ds)[d] else 0
    ensures forall d :: d in r <==> d in ds && d.offer == Some(offerId)
  {
    ForOfferSelects(ds, offerId);
    SortByCreatedAt(ForOffer(ds, offerId))
  }

  /** findByOfferIdAndStatusOrderByCreatedAtAsc: the demands of the offer in that status, oldest first. */
  function FindByOfferIdAndStatusOrderByCreatedAtAsc(ds: seq<Demand>, offerId: int, status: DemandStatus): (r: seq<Demand>)
    ensures SortedByCreatedAt(r)
    ensures forall d :: multiset(r)[d] == if d.offer == Some(offerId) && d.status == status then multiset(ds)[d] else 0
    ensures forall d :: d in r <==> d in ds && d.offer == Some(offerId) && d.status == status
  {
    ForOfferSelects(ds, offerId);
    WithStatusSelects(ForOffer(ds, offerId), status);
    SortByCreatedAt(WithStatus(ForOffer(ds, offerId), status))
  }

  lemma TwoCopies(r: seq<Demand>, i: int, j: int)
    requires 0 <= i < j < |r| && r[i] == r[j]
    ensures multiset(r)[r[i]] >= 2
  {
    assert r == r[..j] + [r[j]] + r[j + 1..];
    assert r[..j][i] == r[i];
    assert multiset(r[..j])[r[i]] >= 1;
  }

  /** A list that holds every demand at most once has no repeated entry. */
  lemma NoRepeats(r: seq<Demand>, i: int, j: int)
    requires forall d :: multiset(r)[d] <= 1
    requires 0 <= i < j < |r|
    ensures r[i] != r[j]
  {
    if r[i] == r[j] {
      TwoCopies(r, i, j);
      assert false;
    }
  }

  /** The status query is the offer query filtered to that status, in the same order. */
  lemma {:induction false} StatusQueryFiltersOfferQuery(ds: seq<Demand>, offerId: int, status: DemandStatus)
    ensures FindByOfferIdAndStatusOrderByCreatedAtAsc(ds, offerId, status)
         == WithStatus(FindByOfferIdOrderByCreatedAtAsc(ds, offerId), status)
  {
    SortCommutesWithStatus(ForOffer(ds, offerId), status);
  }

  /** Sorting then filtering by status is filtering then sorting. */
  lemma {:induction false} SortCommutesWithStatus(s: seq<Demand>, status: DemandStatus)
    ensures WithStatus(SortByCreatedAt(s), status) == SortByCreatedAt(WithStatus(s, status))
  {
    if s != [] {
      SortCommutesWithStatus(s[1..], status);
      InsertCommutesWithStatus(s[0], SortByCreatedAt(s[1..]), status);
      var w := WithStatus(s, status);
      if s[0].status == status {
        assert w == [s[0]] + WithStatus(s[1..], status);
        assert w[0] == s[0] && w[1..] == WithStatus(s[1..], status);
      } else {
        assert w == WithStatus(s[1..], status);
      }
    }
  }

  lemma WithStatusCons(x: Demand, t: seq<Demand>, status: DemandStatus)
    ensures WithStatus([x] + t, status) == (if x.status == status then [x] else []) + WithStatus(t, status)
  {
    assert ([x] + t)[0] == x && ([x] + t)[1..] == t;
  }

  /** In a sorted list, the first one in a status comes no earlier than the head. */
  lemma FilterHeadFollows(s: seq<Demand>, status: DemandStatus)
    requires SortedByCreatedAt(s) && s != [] && WithStatus(s, status) != []
    ensures NotAfter(s[0], WithStatus(s, status)[0])
  {
    var w := WithStatus(s, status);
    WithStatusSelects(s, status);
    assert w[0] in multiset(w);
    assert w[0] in s;
    var k :| 0 <= k < |s| && s[k] == w[0];
    if k > 0 {
      assert NotAfter(s[0], s[k]);
    }
  }

  lemma {:induction false} InsertCommutesWithStatus(d: Demand, s: seq<Demand>, status: DemandStatus)
    requires SortedByCreatedAt(s)
    ensures WithStatus(Insert(d, s), status)
         == if d.status == status then Insert(d, WithStatus(s, status)) else WithStatus(s, status)
  {
    if s == [] {
    } else if NotAfter(d, s[0]) {
      InsertInFront(d, s, status);
    } else {
      SortedTail(s);
      InsertCommutesWithStatus(d, s[1..], status);
      InsertBehind(d, s, status);
    }
  }

  lemma InsertInFront(d: Demand, s: seq<Demand>, status: DemandStatus)
    requires SortedByCreatedAt(s) && s != [] && NotAfter(d, s[0])
    ensures WithStatus(Insert(d, s), status)
         == if d.status == status then Insert(d, WithStatus(s, status)) else WithStatus(s, status)
  {
    assert Insert(d, s) == [d] + s;
    WithStatusCons(d, s, status);
    var w := WithStatus(s, status);
    if d.status == status && w != [] {
      FilterHeadFollows(s, status);
      assert Insert(d, w) == [d] + w;
    }
  }

  /** A demand that comes after the head is inserted into the tail. */
  lemma InsertAfterHead(d: Demand, x: Demand, t: seq<Demand>)
    requires !NotAfter(d, x)
    ensures Insert(d, [x] + t) == [x] + Insert(d, t)
  {
    assert ([x] + t)[0] == x && ([x] + t)[1..] == t;
  }

  lemma InsertBehind(d: Demand, s: seq<Demand>, status: DemandStatus)
    requires s != [] && !NotAfter(d, s[0])
    requires WithStatus(Insert(d, s[1..]), status)
          == if d.status == status then Insert(d, WithStatus(s[1..], status)) else WithStatus(s[1..], status)
    ensures WithStatus(Insert(d, s), status)
         == if d.status == status then Insert(d, WithStatus(s, status)) else WithStatus(s, status)
  {
    var x, t := s[0], s[1..];
    assert s == [x] + t;
    var head := if x.status == status then [x] else [];
    calc {
      WithStatus(Insert(d, s), status);
      { InsertAfterHead(d, x, t); }
      WithStatus([x] + Insert(d, t), status);
      { WithStatusCons(x, Insert(d, t), status); }
      head + WithStatus(Insert(d, t), status);
    }
    WithStatusCons(x, t, status);
    assert WithStatus(s, status) == head + WithStatus(t, status);
    if x.status == status {
      if d.status == status {
        InsertAfterHead(d, x, WithStatus(t, status));
      }
    } else {
      assert head + WithStatus(t, status) == WithStatus(t, status);
      assert head + WithStatus(Insert(d, t), status) == WithStatus(Insert(d, t), status);
    }
  }

  /** Filtering a concatenation filters each part. */
  lemma {:induction false} WithStatusConcat(a: seq<Demand>, b: seq<Demand>, status: DemandStatus)
    ensures WithStatus(a + b, status) == WithStatus(a, status) + WithStatus(b, status)
  {
    if a != [] {
      WithStatusConcat(a[1..], b, status);
      assert (a + b)[0] == a[0] && (a + b)[1..] == a[1..] + b;
    } else {
      assert a + b == b;
    }
  }

  predicate IsPendingFor(d: Demand, offerId: int, demanderId: int) {
    d.offer == Some(offerId) && d.demander == Some(demanderId) && d.status == Pending
  }

  /** `count(d)` of the pending demands of one member on one offer. */
  function CountPendingFor(ds: seq<Demand>, offerId: int, demanderId: int): (r: nat)
    ensures r > 0 <==> exists i :: 0 <= i < |ds| && IsPendingFor(ds[i], offerId, demanderId)
    ensures r <= |ds|
  {
    if ds == [] then 0
    else
      var rest := CountPendingFor(ds[1..], offerId, demanderId);
      assert forall i :: 1 <= i < |ds| ==> ds[i] == ds[1..][i - 1];
      (if IsPendingFor(ds[0], offerId, demanderId) then 1 else 0) + rest
  }

  /** existsPendingByOfferIdAndDemanderId: `count(d) > 0`. */
  function ExistsPendingByOfferIdAndDemanderId(ds: seq<Demand>, offerId: int, demanderId: int): (r: bool)
    ensures r <==> exists i :: 0 <= i < |ds| && IsPendingFor(ds[i], offerId, demanderId)
  {
    CountPendingFor(ds, offerId, demanderId) > 0
  }
}
