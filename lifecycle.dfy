/** The demand lifecycle rules over the demand table: the pending queue of an offer, the demand
    validateOffer approves, how the others are settled, and the invariants the store keeps. */
module Lifecycle {
  import opened Outcomes
  import opened Entities
  import opened DemandQueries

  /** The queue getDemandRank walks: the offer's demands oldest first, filtered to PENDING. */
  function PendingQueue(ds: seq<Demand>, offerId: int): (r: seq<Demand>)
    ensures SortedByCreatedAt(r)
    ensures forall d :: d in r <==> d in ds && d.offer == Some(offerId) && d.status == Pending
  {
    WithStatusSelects(FindByOfferIdOrderByCreatedAtAsc(ds, offerId), Pending);
    SortCommutesWithStatus(ForOffer(ds, offerId), Pending);
    WithStatus(FindByOfferIdOrderByCreatedAtAsc(ds, offerId), Pending)
  }

  /** The queue getDemandRank builds is the repository's status query for PENDING. */
  lemma PendingQueueIsStatusQuery(ds: seq<Demand>, offerId: int)
    ensures PendingQueue(ds, offerId) == FindByOfferIdAndStatusOrderByCreatedAtAsc(ds, offerId, Pending)
  {
    StatusQueryFiltersOfferQuery(ds, offerId, Pending);
  }

  /** The first PENDING demand of a list, if any. */
  function FirstPending(s: seq<Demand>): Option<Demand>
  {
    var p := WithStatus(s, Pending);
    if p == [] then None else Some(p[0])
  }

  /** FirstPending is the PENDING entry that no earlier entry of the list is PENDING before, and it
      is missing exactly when no entry is PENDING. */
  lemma {:induction false} FirstPendingIsFirst(s: seq<Demand>)
    ensures FirstPending(s).None? <==> forall k :: 0 <= k < |s| ==> s[k].status != Pending
    ensures FirstPending(s).Some? ==>
      exists k :: 0 <= k < |s| && s[k] == FirstPending(s).value && s[k].status == Pending
        && forall m :: 0 <= m < k ==> s[m].status != Pending
  {
    if s != [] {
      FirstPendingIsFirst(s[1..]);
      assert forall k :: 1 <= k < |s| ==> s[k] == s[1..][k - 1];
      if s[0].status != Pending {
        assert FirstPending(s) == FirstPending(s[1..]);
        if FirstPending(s).Some? {
          var k :| 0 <= k < |s[1..]| && s[1..][k] == FirstPending(s).value && s[1..][k].status == Pending
            && forall m :: 0 <= m < k ==> s[1..][m].status != Pending;
          assert s[k + 1] == s[1..][k];
        }
      } else {
        assert FirstPending(s) == Some(s[0]);
      }
    }
  }

  /** The demand validateOffer approves: the first PENDING one in the offer's createdAt order. */
  function Winner(ds: seq<Demand>, offerId: int): Option<Demand>
  {
    FirstPending(FindByOfferIdOrderByCreatedAtAsc(ds, offerId))
  }

  function IdOf(d: Option<Demand>): Option<int>
  {
    if d.Some? then Some(d.value.id) else None
  }

  /** The winner heads the pending queue: it is a PENDING demand of the offer that no other
      PENDING demand of the offer precedes, and there is none exactly when nothing is PENDING. */
  lemma WinnerIsEarliestPending(ds: seq<Demand>, offerId: int)
    ensures Winner(ds, offerId).None? <==>
      forall d :: d in ds && d.offer == Some(offerId) ==> d.status != Pending
    ensures Winner(ds, offerId).Some? ==>
      var w := Winner(ds, offerId).value;
      && w in ds && w.offer == Some(offerId) && w.status == Pending
      && forall e :: e in ds && e.offer == Some(offerId) && e.status == Pending ==> NotAfter(w, e)
  {
    var q := PendingQueue(ds, offerId);
    assert Winner(ds, offerId) == if q == [] then None else Some(q[0]);
    if q != [] {
      assert q[0] in q;
      forall e | e in ds && e.offer == Some(offerId) && e.status == Pending
        ensures NotAfter(q[0], e)
      {
        var k :| 0 <= k < |q| && q[k] == e;
        if k > 0 {
          assert NotAfter(q[0], q[k]);
        }
      }
    } else {
      assert forall d :: d in ds && d.offer == Some(offerId) && d.status == Pending ==> d in q;
    }
  }

  /** What validateOffer does to one demand of the offer: a PENDING demand becomes APPROVED when
      it is the winner and REJECTED otherwise; any other status stays. */
  function Settle(d: Demand, winnerId: Option<int>): (r: Demand)
    ensures r.(status := d.status) == d
    ensures d.status != Pending ==> r == d
    ensures d.status == Pending ==> r.status == (if winnerId == Some(d.id) then Approved else Rejected)
  {
    if d.status != Pending then d
    else if winnerId == Some(d.id) then d.(status := Approved)
    else d.(status := Rejected)
  }

  /** The demand table after validateOffer settled every demand of the offer: only the status of
      PENDING demands of the offer changes, and none of the offer's demands is left PENDING. */
  function ResolveAll(ds: seq<Demand>, offerId: int, winnerId: Option<int>): (r: seq<Demand>)
    ensures |r| == |ds|
    ensures forall j :: 0 <= j < |ds| ==>
      && r[j].(status := ds[j].status) == ds[j]
      && (ds[j].offer != Some(offerId) || ds[j].status != Pending ==> r[j] == ds[j])
      && (ds[j].offer == Some(offerId) ==> r[j].status != Pending)
  {
    seq(|ds|, j requires 0 <= j < |ds| => if ds[j].offer == Some(offerId) then Settle(ds[j], winnerId) else ds[j])
  }

  /** With the winner's id, the winner becomes APPROVED and is the only demand of the offer that
      settling approves; every other PENDING demand of the offer becomes REJECTED. */
  lemma ResolveApprovesTheWinner(ds: seq<Demand>, offerId: int)
    requires DemandIds(ds)
    ensures var w := Winner(ds, offerId); var r := ResolveAll(ds, offerId, IdOf(w));
      forall j :: 0 <= j < |ds| && ds[j].offer == Some(offerId) && ds[j].status == Pending ==>
        && (r[j].status == Approved <==> w == Some(ds[j]))
        && (w != Some(ds[j]) ==> r[j].status == Rejected)
  {
    WinnerIsEarliestPending(ds, offerId);
    var w := Winner(ds, offerId);
    forall j | 0 <= j < |ds| && ds[j].offer == Some(offerId) && ds[j].status == Pending
      ensures IdOf(w) == Some(ds[j].id) <==> w == Some(ds[j])
    {
      if w.Some? && w.value.id == ds[j].id {
        DemandAtItsId(ds, w.value);
      }
    }
  }

  predicate IsApprovedFor(d: Demand, offerId: int) {
    d.offer == Some(offerId) && d.status == Approved
  }

  /** At most one APPROVED demand per offer. */
  ghost predicate OneApprovedPerOffer(ds: seq<Demand>) {
    forall i, j :: 0 <= i < j < |ds| && ds[i].status == Approved && ds[j].status == Approved ==>
      ds[i].offer != ds[j].offer
  }

  /** At most one PENDING demand per (offer, demander) pair. */
  ghost predicate OnePendingPerPair(ds: seq<Demand>) {
    forall i, j :: 0 <= i < j < |ds| && ds[i].status == Pending && ds[j].status == Pending ==>
      ds[i].offer != ds[j].offer || ds[i].demander != ds[j].demander
  }

  /** After settling, an APPROVED demand of the offer is the row the winner id names, and a
      demand of another offer is as it was. */
  lemma SettledRow(ds: seq<Demand>, offerId: int, winnerId: Option<int>, j: int)
    requires DemandIds(ds) && 0 <= j < |ds| && !IsApprovedFor(ds[j], offerId)
    ensures var r := ResolveAll(ds, offerId, winnerId)[j];
      && (IsApprovedFor(r, offerId) ==> winnerId == Some(j + 1))
      && (r.offer != Some(offerId) ==> r == ds[j])
  {
  }

  /** Validating an offer that has no APPROVED demand yet leaves at most one APPROVED demand per offer. */
  lemma ValidateKeepsOneApproved(ds: seq<Demand>, offerId: int, winnerId: Option<int>)
    requires DemandIds(ds) && OneApprovedPerOffer(ds)
    requires forall j :: 0 <= j < |ds| ==> !IsApprovedFor(ds[j], offerId)
    ensures OneApprovedPerOffer(ResolveAll(ds, offerId, winnerId))
  {
    var r := ResolveAll(ds, offerId, winnerId);
    forall i, j | 0 <= i < j < |r| && r[i].status == Approved && r[j].status == Approved
      ensures r[i].offer != r[j].offer
    {
      SettledRow(ds, offerId, winnerId, i);
      SettledRow(ds, offerId, winnerId, j);
    }
  }

  /** Settling leaves the PENDING demands at most one per pair: it only takes demands out of PENDING. */
  lemma ValidateKeepsOnePending(ds: seq<Demand>, offerId: int, winnerId: Option<int>)
    requires OnePendingPerPair(ds)
    ensures OnePendingPerPair(ResolveAll(ds, offerId, winnerId))
  {
    var r := ResolveAll(ds, offerId, winnerId);
    forall i, j | 0 <= i < j < |r| && r[i].status == Pending && r[j].status == Pending
      ensures r[i].offer != r[j].offer || r[i].demander != r[j].demander
    {
      assert r[i] == ds[i] && r[j] == ds[j];
    }
  }

  /** Two stored demands with the same id are the same demand. */
  lemma SameIdSameDemand(ds: seq<Demand>, a: Demand, b: Demand)
    requires DemandIds(ds) && a in ds && b in ds
    ensures a.id == b.id ==> a == b
  {
    DemandAtItsId(ds, a);
    DemandAtItsId(ds, b);
  }

  /** getDemandRank's answer for a stored demand of an offer: no rank exactly when the demand is
      not PENDING, and otherwise its 1-based position in the offer's pending queue. */
  ghost predicate RankIn(ds: seq<Demand>, d: Demand, rank: Option<nat>)
    requires d.offer.Some?
  {
    && (rank.None? <==> d.status != Pending)
    && (rank.Some? ==>
          var q := PendingQueue(ds, d.offer.value);
          1 <= rank.value <= |q| && q[rank.value - 1] == d)
  }

  /** An entry of a pending queue that carries a stored demand's id is that demand, and it is PENDING. */
  lemma QueueEntryById(ds: seq<Demand>, d: Demand, k: int)
    requires DemandIds(ds) && d in ds && d.offer.Some?
    requires 0 <= k < |PendingQueue(ds, d.offer.value)| && PendingQueue(ds, d.offer.value)[k].id == d.id
    ensures PendingQueue(ds, d.offer.value)[k] == d && d.status == Pending
    ensures RankIn(ds, d, Some(k + 1))
  {
    var q := PendingQueue(ds, d.offer.value);
    assert q[k] in q;
    SameIdSameDemand(ds, q[k], d);
  }

  /** A stored PENDING demand has an entry in its offer's pending queue. */
  lemma PendingIsQueued(ds: seq<Demand>, d: Demand)
    requires d in ds && d.offer.Some?
    ensures d.status == Pending ==>
      exists k :: 0 <= k < |PendingQueue(ds, d.offer.value)| && PendingQueue(ds, d.offer.value)[k] == d
  {
    if d.status == Pending {
      var q := PendingQueue(ds, d.offer.value);
      assert d in q;
    }
  }

  /** A stored demand whose id no pending-queue entry carries is not PENDING. */
  lemma AbsentFromQueue(ds: seq<Demand>, d: Demand)
    requires d in ds && d.offer.Some?
    requires forall k :: 0 <= k < |PendingQueue(ds, d.offer.value)| ==> PendingQueue(ds, d.offer.value)[k].id != d.id
    ensures d.status != Pending && RankIn(ds, d, None)
  {
    PendingIsQueued(ds, d);
  }

  /** A search of the pending queue by id, as getDemandRank's loop makes it, yields RankIn. */
  lemma RankFromSearch(ds: seq<Demand>, d: Demand, r: Option<nat>)
    requires DemandIds(ds) && d in ds && d.offer.Some?
    requires r.Some? ==>
      (1 <= r.value <= |PendingQueue(ds, d.offer.value)| && PendingQueue(ds, d.offer.value)[r.value - 1].id == d.id)
    requires r.None? ==> forall k :: 0 <= k < |PendingQueue(ds, d.offer.value)| ==> PendingQueue(ds, d.offer.value)[k].id != d.id
    ensures RankIn(ds, d, r)
  {
    if r.Some? {
      QueueEntryById(ds, d, r.value - 1);
      assert r == Some(r.value - 1 + 1);
    } else {
      AbsentFromQueue(ds, d);
    }
  }

  /** In a sorted list of stored demands that holds each at most once, the entries ahead of
      position k are exactly the other entries that come no later than entry k. */
  lemma SortedPrefix(q: seq<Demand>, ds: seq<Demand>, k: int)
    requires SortedByCreatedAt(q) && DemandIds(ds)
    requires forall x :: x in q ==> x in ds
    requires forall x :: multiset(q)[x] <= 1
    requires 0 <= k < |q|
    ensures forall e :: e in q[..k] <==> e in q && NotAfter(e, q[k]) && e != q[k]
  {
    forall e | e in q[..k] ensures e in q && NotAfter(e, q[k]) && e != q[k] {
      var m :| 0 <= m < k && q[..k][m] == e;
      assert q[m] == e;
      NoRepeats(q, m, k);
    }
    forall e | e in q && NotAfter(e, q[k]) && e != q[k] ensures e in q[..k] {
      var m :| 0 <= m < |q| && q[m] == e;
      assert q[k] in q;
      SameIdSameDemand(ds, e, q[k]);
      assert m != k;
      assert m < k;
      assert q[..k][m] == e;
    }
  }

  /** On a table with consistent ids the offer's list holds every demand at most once. */
  lemma OfferListOnce(ds: seq<Demand>, offerId: int)
    requires DemandIds(ds)
    ensures forall x :: multiset(FindByOfferIdOrderByCreatedAtAsc(ds, offerId))[x] <= 1
  {
    DemandTableHoldsEachOnce(ds);
  }

  /** The rank is a head count: the demands ahead of position k in the pending queue are exactly
      the other PENDING demands of the offer that come no later in createdAt order. */
  lemma RankCountsEarlier(ds: seq<Demand>, offerId: int, k: int)
    requires DemandIds(ds)
    requires 0 <= k < |PendingQueue(ds, offerId)|
    ensures var q := PendingQueue(ds, offerId);
      forall e :: e in q[..k] <==>
        e in ds && e.offer == Some(offerId) && e.status == Pending && NotAfter(e, q[k]) && e != q[k]
  {
    var q := PendingQueue(ds, offerId);
    PendingQueueIsStatusQuery(ds, offerId);
    DemandTableHoldsEachOnce(ds);
    assert forall x :: multiset(q)[x] <= 1;
    SortedPrefix(q, ds, k);
  }

  /** A list with no PENDING entry in its PENDING filter has no PENDING entry. */
  lemma NoneWithStatus(s: seq<Demand>, status: DemandStatus)
    requires WithStatus(s, status) == []
    ensures forall x :: x in s ==> x.status != status
  {
    WithStatusSelects(s, status);
    forall x | x in s ensures x.status != status {
      assert multiset(s)[x] > 0;
    }
  }

  /** The demand table while validateOffer walks `list`: the first i entries are settled against
      `winnerId`, the rest are as they were. */
  ghost function Partial(ds: seq<Demand>, list: seq<Demand>, i: int, winnerId: Option<int>): (r: seq<Demand>)
    requires 0 <= i <= |list|
    ensures |r| == |ds|
  {
    seq(|ds|, j requires 0 <= j < |ds| => if ds[j] in list[..i] then Settle(ds[j], winnerId) else ds[j])
  }

  /** The first PENDING entry of a list grows by at most the next entry; while there is none,
      no entry walked so far is PENDING. */
  lemma FirstPendingStep(list: seq<Demand>, i: int)
    requires 0 <= i < |list|
    ensures var before := FirstPending(list[..i]);
      && FirstPending(list[..i + 1])
           == (if before.Some? then before else if list[i].status == Pending then Some(list[i]) else None)
      && (before.Some? ==> before.value in list[..i])
      && (before.None? ==> forall x :: x in list[..i] ==> x.status != Pending)
      && (forall x :: x in list[..i] ==> Settle(x, IdOf(before)) == Settle(x, IdOf(FirstPending(list[..i + 1]))))
  {
    assert list[..i + 1] == list[..i] + [list[i]];
    WithStatusConcat(list[..i], [list[i]], Pending);
    var p := WithStatus(list[..i], Pending);
    if p != [] {
      WithStatusSelects(list[..i], Pending);
      assert p[0] in multiset(p);
    } else {
      NoneWithStatus(list[..i], Pending);
    }
  }

  /** Settling entry i of a list of stored demands, each held once, extends the settled prefix by
      the row entry i names, which is still as it was. */
  lemma PartialUpdate(ds: seq<Demand>, list: seq<Demand>, i: int, w0: Option<int>, w1: Option<int>)
    requires DemandIds(ds)
    requires forall x :: x in list ==> x in ds
    requires forall x :: multiset(list)[x] <= 1
    requires 0 <= i < |list|
    requires forall x :: x in list[..i] ==> Settle(x, w0) == Settle(x, w1)
    ensures 1 <= list[i].id <= |ds| && ds[list[i].id - 1] == list[i]
    ensures list[i] !in list[..i]
    ensures Partial(ds, list, i, w0)[list[i].id - 1] == list[i]
    ensures Partial(ds, list, i + 1, w1) == Partial(ds, list, i, w0)[list[i].id - 1 := Settle(list[i], w1)]
  {
    var e := list[i];
    assert e in list;
    DemandAtItsId(ds, e);
    forall m | 0 <= m < i ensures list[m] != e {
      NoRepeats(list, m, i);
    }
    assert list[..i + 1] == list[..i] + [e];
    var a := Partial(ds, list, i, w0);
    var b := Partial(ds, list, i + 1, w1);
    forall j | 0 <= j < |ds| ensures b[j] == a[e.id - 1 := Settle(e, w1)][j] {
      if j != e.id - 1 {
        assert ds[j] != e;
      }
    }
  }

  /** Once the whole list is walked, the table is the settled table. */
  lemma PartialComplete(ds: seq<Demand>, offerId: int, winnerId: Option<int>)
    ensures var list := FindByOfferIdOrderByCreatedAtAsc(ds, offerId);
      Partial(ds, list, |list|, winnerId) == ResolveAll(ds, offerId, winnerId)
  {
    var list := FindByOfferIdOrderByCreatedAtAsc(ds, offerId);
    assert list[..|list|] == list;
    var a, b := Partial(ds, list, |list|, winnerId), ResolveAll(ds, offerId, winnerId);
    forall j | 0 <= j < |ds| ensures a[j] == b[j] {
      assert ds[j] in ds;
      assert ds[j] in list <==> ds[j].offer == Some(offerId);
    }
  }

  /** One step of validateOffer's walk: the entry is read back from the table as it was, and
      saving it settled against the winner so far moves the walk on by one entry. */
  lemma WalkStep(ds: seq<Demand>, list: seq<Demand>, i: int)
    requires DemandIds(ds)
    requires forall x :: x in list ==> x in ds
    requires forall x :: multiset(list)[x] <= 1
    requires 0 <= i < |list|
    ensures var before := FirstPending(list[..i]);
      var after := FirstPending(list[..i + 1]);
      var e := list[i];
      && 1 <= e.id <= |ds|
      && Partial(ds, list, i, IdOf(before))[e.id - 1] == e
      && Partial(ds, list, i + 1, IdOf(after)) == Partial(ds, list, i, IdOf(before))[e.id - 1 := Settle(e, IdOf(after))]
      && after == (if e.status == Pending && before.None? then Some(e) else before)
      && Settle(e, IdOf(after)) ==
           (if e.status == Pending && before.None? then e.(status := Approved)
            else if e.status == Pending then e.(status := Rejected)
            else e)
  {
    var before := FirstPending(list[..i]);
    FirstPendingStep(list, i);
    var after := FirstPending(list[..i + 1]);
    PartialUpdate(ds, list, i, IdOf(before), IdOf(after));
    if before.Some? {
      assert list[i] in ds;
      SameIdSameDemand(ds, before.value, list[i]);
    }
  }

  /** Before the walk nothing is settled. */
  lemma PartialStart(ds: seq<Demand>, list: seq<Demand>, winnerId: Option<int>)
    ensures Partial(ds, list, 0, winnerId) == ds
  {
  }
}
