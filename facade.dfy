/** RessourcerieFacade: the store of associations, members, categories, offers and demands,
    and the operations of the offer/demand lifecycle over it. */
module Facade {
  import opened Outcomes
  import opened Entities
  import opened JavaLang
  import opened OfferEntity
  import opened DemandQueries
  import opened OfferQueries
  import opened OfferRequest
  import opened Lifecycle
  import opened Statistics

  /** The five tables of the store, as one value. */
  datatype Store = Store(
    associations: seq<Association>,
    members: seq<Member>,
    categories: seq<Category>,
    offers: seq<OfferRow>,
    demands: seq<Demand>)

  /** Identities match positions in all five tables. */
  ghost predicate IdsMatchPositions(t: Store) {
    AssociationIds(t.associations) && MemberIds(t.members) && CategoryIds(t.categories)
    && OfferIds(t.offers) && DemandIds(t.demands)
  }

  /** Every reference names a stored row. */
  ghost predicate ReferencesResolve(t: Store) {
    && (forall i :: 0 <= i < |t.members| ==> Resolves(t.associations, t.members[i].association))
    && (forall i :: 0 <= i < |t.offers| ==> Resolves(t.associations, t.offers[i].association))
    && (forall i :: 0 <= i < |t.demands| ==>
          Resolves(t.offers, t.demands[i].offer) && Resolves(t.members, t.demands[i].demander))
  }

  /** An offer has a closing time exactly when it is no longer OPEN. */
  ghost predicate ClosedAtMatchesStatus(offers: seq<OfferRow>) {
    forall i :: 0 <= i < |offers| ==> (offers[i].closedAt.Some? <==> offers[i].status != Open)
  }

  /** The offer a demand names is stored and has a status other than `s`. */
  predicate OfferIsNot(offers: seq<OfferRow>, d: Demand, s: OfferStatus) {
    d.offer.Some? && 1 <= d.offer.value <= |offers| && offers[d.offer.value - 1].status != s
  }

  /** An APPROVED demand is on an offer that is no longer OPEN. */
  ghost predicate ApprovedOnlyOnSettled(offers: seq<OfferRow>, ds: seq<Demand>) {
    forall i :: 0 <= i < |ds| && ds[i].status == Approved ==> OfferIsNot(offers, ds[i], Open)
  }

  /** A PENDING demand is never on a CLOSED offer. */
  ghost predicate NoPendingOnClosed(offers: seq<OfferRow>, ds: seq<Demand>) {
    forall i :: 0 <= i < |ds| && ds[i].status == Pending ==> OfferIsNot(offers, ds[i], Closed)
  }

  /** What the store keeps true between operations. */
  ghost predicate StoreInvariant(t: Store) {
    && IdsMatchPositions(t) && ReferencesResolve(t)
    && ClosedAtMatchesStatus(t.offers)
    && OnePendingPerPair(t.demands) && OneApprovedPerOffer(t.demands)
    && ApprovedOnlyOnSettled(t.offers, t.demands) && NoPendingOnClosed(t.offers, t.demands)
  }

  lemma AddAssociationKeepsInvariant(t: Store, a: Association)
    requires StoreInvariant(t) && a.id == |t.associations| + 1
    ensures StoreInvariant(t.(associations := t.associations + [a]))
  {
    var u := t.(associations := t.associations + [a]);
    assert AssociationIds(u.associations);
    assert ReferencesResolve(u);
  }

  lemma AddMemberKeepsInvariant(t: Store, m: Member)
    requires StoreInvariant(t) && m.id == |t.members| + 1 && Resolves(t.associations, m.association)
    ensures StoreInvariant(t.(members := t.members + [m]))
  {
    var u := t.(members := t.members + [m]);
    assert MemberIds(u.members);
    assert ReferencesResolve(u);
  }

  lemma AddCategoryKeepsInvariant(t: Store, c: Category)
    requires StoreInvariant(t) && c.id == |t.categories| + 1
    ensures StoreInvariant(t.(categories := t.categories + [c]))
  {
    var u := t.(categories := t.categories + [c]);
    assert CategoryIds(u.categories);
  }

  lemma AddOfferKeepsInvariant(t: Store, o: OfferRow)
    requires StoreInvariant(t) && o.id == |t.offers| + 1 && Resolves(t.associations, o.association)
    requires o.status == Open && o.closedAt.None?
    ensures StoreInvariant(t.(offers := t.offers + [o]))
  {
    var u := t.(offers := t.offers + [o]);
    assert OfferIds(u.offers);
    assert ReferencesResolve(u);
    assert ClosedAtMatchesStatus(u.offers);
    forall i | 0 <= i < |t.demands| ensures t.demands[i].offer.Some? ==> u.offers[t.demands[i].offer.value - 1] == t.offers[t.demands[i].offer.value - 1] {
    }
  }

  lemma AddDemandKeepsInvariant(t: Store, d: Demand)
    requires StoreInvariant(t) && d.id == |t.demands| + 1 && d.status == Pending
    requires Resolves(t.members, d.demander) && OfferIsNot(t.offers, d, Closed)
    requires d.offer.Some? && d.demander.Some?
    requires !exists i :: 0 <= i < |t.demands| && IsPendingFor(t.demands[i], d.offer.value, d.demander.value)
    ensures StoreInvariant(t.(demands := t.demands + [d]))
  {
    var u := t.(demands := t.demands + [d]);
    var ds := u.demands;
    assert DemandIds(ds);
    assert ReferencesResolve(u);
    forall i, j | 0 <= i < j < |ds| && ds[i].status == Pending && ds[j].status == Pending
      ensures ds[i].offer != ds[j].offer || ds[i].demander != ds[j].demander
    {
      if j == |t.demands| {
        assert !IsPendingFor(t.demands[i], d.offer.value, d.demander.value);
      } else {
        assert ds[i] == t.demands[i] && ds[j] == t.demands[j];
      }
    }
    assert OneApprovedPerOffer(ds);
    assert ApprovedOnlyOnSettled(u.offers, ds);
    assert NoPendingOnClosed(u.offers, ds);
  }

  lemma CancelKeepsInvariant(t: Store, j: int)
    requires StoreInvariant(t) && 0 <= j < |t.demands| && t.demands[j].status == Pending
    ensures StoreInvariant(t.(demands := t.demands[j := t.demands[j].(status := Cancelled)]))
  {
    var u := t.(demands := t.demands[j := t.demands[j].(status := Cancelled)]);
    assert DemandIds(u.demands);
    assert ReferencesResolve(u);
    assert OnePendingPerPair(u.demands);
    assert OneApprovedPerOffer(u.demands);
    assert ApprovedOnlyOnSettled(u.offers, u.demands);
    assert NoPendingOnClosed(u.offers, u.demands);
  }

  /** Closing an OPEN offer and settling its demands keeps the invariant. */
  lemma ValidateKeepsInvariant(t: Store, o: int, now: int)
    requires StoreInvariant(t) && 1 <= o <= |t.offers| && t.offers[o - 1].status == Open
    ensures StoreInvariant(t.(
      offers := t.offers[o - 1 := t.offers[o - 1].(status := Closed, closedAt := Some(now))],
      demands := ResolveAll(t.demands, o, IdOf(Winner(t.demands, o)))))
  {
    var w := IdOf(Winner(t.demands, o));
    ValidateKeepsShape(t, o, now, w);
    ValidateKeepsOnePending(t.demands, o, w);
    NoApprovedOnOpen(t, o);
    ValidateKeepsOneApproved(t.demands, o, w);
    ValidateKeepsOfferRules(t, o, now, w);
  }

  /** Settling changes only statuses, so ids, references and closing times stay consistent. */
  lemma ValidateKeepsShape(t: Store, o: int, now: int, w: Option<int>)
    requires StoreInvariant(t) && 1 <= o <= |t.offers|
    ensures var u := t.(
      offers := t.offers[o - 1 := t.offers[o - 1].(status := Closed, closedAt := Some(now))],
      demands := ResolveAll(t.demands, o, w));
      IdsMatchPositions(u) && ReferencesResolve(u) && ClosedAtMatchesStatus(u.offers)
  {
  }

  /** An OPEN offer has no APPROVED demand yet. */
  lemma NoApprovedOnOpen(t: Store, o: int)
    requires StoreInvariant(t) && 1 <= o <= |t.offers| && t.offers[o - 1].status == Open
    ensures forall j :: 0 <= j < |t.demands| ==> !IsApprovedFor(t.demands[j], o)
  {
  }

  /** After closing the offer, its newly APPROVED demand sits on a settled offer and no demand
      left PENDING names a CLOSED one. */
  lemma ValidateKeepsOfferRules(t: Store, o: int, now: int, w: Option<int>)
    requires StoreInvariant(t) && 1 <= o <= |t.offers|
    requires forall j :: 0 <= j < |t.demands| ==> !IsApprovedFor(t.demands[j], o)
    ensures var os := t.offers[o - 1 := t.offers[o - 1].(status := Closed, closedAt := Some(now))];
      var ds := ResolveAll(t.demands, o, w);
      ApprovedOnlyOnSettled(os, ds) && NoPendingOnClosed(os, ds)
  {
    var os := t.offers[o - 1 := t.offers[o - 1].(status := Closed, closedAt := Some(now))];
    var ds := ResolveAll(t.demands, o, w);
    forall j | 0 <= j < |ds| && ds[j].status == Approved ensures OfferIsNot(os, ds[j], Open) {
      SettledRow(t.demands, o, w, j);
    }
    forall j | 0 <= j < |ds| && ds[j].status == Pending ensures OfferIsNot(os, ds[j], Closed) {
      assert ds[j] == t.demands[j];
    }
  }

  /** Archiving an offer keeps the invariant. */
  lemma ArchiveKeepsInvariant(t: Store, o: int, now: int)
    requires StoreInvariant(t) && 1 <= o <= |t.offers|
    ensures StoreInvariant(t.(offers := t.offers[o - 1 := t.offers[o - 1].(status := Archived, closedAt := Some(now))]))
  {
    var os := t.offers[o - 1 := t.offers[o - 1].(status := Archived, closedAt := Some(now))];
    var u := t.(offers := os);
    assert OfferIds(os);
    assert ReferencesResolve(u);
    assert ClosedAtMatchesStatus(os);
    assert ApprovedOnlyOnSettled(os, t.demands);
    assert NoPendingOnClosed(os, t.demands);
  }

  /** The loop of getDemandRank: the 1-based position of the first entry carrying `id`. */
  method RankOf(queue: seq<Demand>, id: int) returns (r: Option<nat>)
    ensures r.Some? ==> 1 <= r.value <= |queue| && queue[r.value - 1].id == id
    ensures r.Some? ==> forall k :: 0 <= k < r.value - 1 ==> queue[k].id != id
    ensures r.None? ==> forall k :: 0 <= k < |queue| ==> queue[k].id != id
  {
    var i := 0;
    while i < |queue|
      invariant 0 <= i <= |queue|
      invariant forall k :: 0 <= k < i ==> queue[k].id != id
    {
      if queue[i].id == id {
        return Some(i + 1);
      }
      i := i + 1;
    }
    return None;
  }

  /** getDemandRank once the demand is found: its position in the PENDING demands of its offer,
      oldest first. */
  method QueueRank(ds: seq<Demand>, d: Demand) returns (r: Option<nat>)
    requires DemandIds(ds) && d in ds && d.offer.Some?
    ensures RankIn(ds, d, r)
  {
    // findByOfferIdOrderByCreatedAtAsc filtered to PENDING
    var queue := PendingQueue(ds, d.offer.value);
    r := RankOf(queue, d.id);
    RankFromSearch(ds, d, r);
  }

  /** One pass of validateOffer's loop keeps the walk's invariant: the approved demand is the
      first PENDING entry walked so far, and the table is settled up to the entry walked. */
  lemma SettleStep(ds: seq<Demand>, list: seq<Demand>, i: int, next: int, approved: Option<Demand>, saved: seq<Demand>,
                   approved': Option<Demand>, saved': seq<Demand>)
    requires DemandIds(ds)
    requires forall x :: x in list ==> x in ds
    requires forall x :: multiset(list)[x] <= 1
    requires 0 <= i < |list| && next == i + 1
    requires approved == Approve(FirstPending(list[..i]))
    requires saved == Partial(ds, list, i, IdOf(FirstPending(list[..i])))
    requires 0 <= list[i].id - 1 < |saved|
    requires var e, index := list[i], list[i].id - 1;
      if e.status == Pending && approved.None? then
        approved' == Some(e.(status := Approved)) && saved' == saved[index := e.(status := Approved)]
      else if e.status == Pending then
        approved' == approved && saved' == saved[index := e.(status := Rejected)]
      else
        approved' == approved && saved' == saved[index := e]
    ensures approved' == Approve(FirstPending(list[..next]))
    ensures saved' == Partial(ds, list, next, IdOf(FirstPending(list[..next])))
  {
    WalkStep(ds, list, i);
  }

  /** The walk of validateOffer over a list of stored demands, each listed once: the first
      PENDING entry is approved, the later PENDING ones rejected, and each entry is saved back
      into the table. */
  method SettleEach(table: seq<Demand>, list: seq<Demand>) returns (approved: Option<Demand>, saved: seq<Demand>)
    requires DemandIds(table)
    requires forall x :: x in list ==> x in table
    requires forall x :: multiset(list)[x] <= 1
    ensures approved == Approve(FirstPending(list))
    ensures saved == Partial(table, list, |list|, IdOf(FirstPending(list)))
  {
    approved := None;
    saved := table;
    var i := 0;
    PartialStart(table, list, None);
    while i < |list|
      invariant 0 <= i <= |list|
      invariant approved == Approve(FirstPending(list[..i]))
      invariant saved == Partial(table, list, i, IdOf(FirstPending(list[..i])))
    {
      assert list[i] in list;
      DemandAtItsId(table, list[i]);
      ghost var approved0, saved0 := approved, saved;
      var d := list[i];
      var index := d.id - 1;
      if d.status == Pending && approved.None? {
        d := d.(status := Approved);
        approved := Some(d);
      } else if d.status == Pending {
        d := d.(status := Rejected);
      }
      // save(d): the row with d's id is replaced
      saved := saved[index := d];
      i := i + 1;
      SettleStep(table, list, i - 1, i, approved0, saved0, approved, saved);
    }
    assert list[..i] == list;
  }

  /** The loop of getOfferWinsByAssociation over the approved demands: each demander with an
      association adds one to that association's count. */
  method CountWins(approvedDemands: seq<Demand>, members: seq<Member>) returns (r: map<int, nat>)
    ensures r == CountBy(KeysOf(approvedDemands, DemanderKeyOf(members)))
  {
    ghost var keys: seq<int> := [];
    r := map[];
    var i := 0;
    while i < |approvedDemands|
      invariant 0 <= i <= |approvedDemands|
      invariant keys == KeysOf(approvedDemands[..i], DemanderKeyOf(members))
      invariant r == CountBy(keys)
    {
      WinsStep(approvedDemands, members, i, keys, r);
      // the demander's association id, or none when the demander or its association is null
      var associationId := DemanderKey(approvedDemands[i], members);
      if associationId.Some? {
        r := Merge(r, associationId.value);
        keys := keys + [associationId.value];
      }
      i := i + 1;
    }
    assert approvedDemands[..i] == approvedDemands;
  }

  /** The association check of validateOffer: both sides have an association, with the same id. */
  predicate SameAssociation(o: OfferRow, contact: Member) {
    o.association.Some? && contact.association.Some? && o.association.value == contact.association.value
  }

  /** The approved demand validateOffer returns: the winner, with its new status. */
  function Approve(w: Option<Demand>): Option<Demand> {
    if w.Some? then Some(w.value.(status := Approved)) else None
  }

  class Ressourcerie {
    var associations: seq<Association>
    var members: seq<Member>
    var categories: seq<Category>
    var offers: seq<OfferRow>
    var demands: seq<Demand>

    ghost function State(): Store
      reads this
    {
      Store(associations, members, categories, offers, demands)
    }

    ghost predicate Valid()
      reads this
    {
      StoreInvariant(State())
    }

    constructor ()
      ensures Valid()
      ensures State() == Store([], [], [], [], [])
    {
      associations := [];
      members := [];
      categories := [];
      offers := [];
      demands := [];
    }

    /** memberRepo.save on a new member: it is appended under the next id. */
    method SaveMember(m: Member)
      requires Valid() && m.id == |members| + 1 && Resolves(associations, m.association)
      modifies this`members
      ensures Valid()
      ensures State() == old(State()).(members := old(members) + [m])
    {
      AddMemberKeepsInvariant(State(), m);
      members := members + [m];
    }

    /** createMember: a null or blank name is refused; otherwise a member with the trimmed name is
        stored under the next id. */
    method CreateMember(name: Option<string>, association: Option<int>) returns (r: Result<Member>)
      requires Valid() && Resolves(associations, association)
      modifies this`members
      ensures Valid()
      ensures NullOrBlank(name) ==> r == Err(IllegalArgument(BlankName("Member"))) && State() == old(State())
      ensures !NullOrBlank(name) ==>
        && r == Ok(Member(|old(members)| + 1, Trim(name.value), association))
        && State() == old(State()).(members := old(members) + [r.value])
    {
      if NullOrBlank(name) {
        return Err(IllegalArgument(BlankName("Member")));
      }
      var m := Member(|members| + 1, Trim(name.value), association);
      SaveMember(m);
      r := Ok(m);
    }

    /** createCategory: a null or blank name is refused; otherwise a category with the trimmed name
        is stored under the next id. */
    method CreateCategory(name: Option<string>) returns (r: Result<Category>)
      requires Valid()
      modifies this`categories
      ensures Valid()
      ensures NullOrBlank(name) ==> r == Err(IllegalArgument(BlankName("Category"))) && State() == old(State())
      ensures !NullOrBlank(name) ==>
        && r == Ok(Category(|old(categories)| + 1, Trim(name.value)))
        && State() == old(State()).(categories := old(categories) + [r.value])
    {
      if NullOrBlank(name) {
        return Err(IllegalArgument(BlankName("Category")));
      }
      var c := Category(|categories| + 1, Trim(name.value));
      AddCategoryKeepsInvariant(State(), c);
      categories := categories + [c];
      r := Ok(c);
    }

    /** createAssociation: a null or blank name is refused; otherwise an association with the
        trimmed name and no representer is stored under the next id. */
    method CreateAssociation(name: Option<string>) returns (r: Result<Association>)
      requires Valid()
      modifies this`associations
      ensures Valid()
      ensures NullOrBlank(name) ==> r == Err(IllegalArgument(BlankName("Association"))) && State() == old(State())
      ensures !NullOrBlank(name) ==>
        && r == Ok(Association(|old(associations)| + 1, Trim(name.value), None))
        && State() == old(State()).(associations := old(associations) + [r.value])
    {
      if NullOrBlank(name) {
        return Err(IllegalArgument(BlankName("Association")));
      }
      var a := Association(|associations| + 1, Trim(name.value), None);
      AddAssociationKeepsInvariant(State(), a);
      associations := associations + [a];
      r := Ok(a);
    }

    /** addMember: the id is checked, then the name, then the association is looked up; the new
        member belongs to it. */
    method AddMember(associationId: int, memberName: Option<string>) returns (r: Result<Member>)
      requires Valid()
      modifies this`members
      ensures Valid()
      ensures r.Err? ==> State() == old(State())
      ensures associationId <= 0 ==> r == Err(IllegalArgument(InvalidId("associationId")))
      ensures associationId > 0 && NullOrBlank(memberName) ==> r == Err(IllegalArgument(BlankName("Member")))
      ensures associationId > 0 && !NullOrBlank(memberName) && FindById(old(associations), associationId).None? ==>
        r == Err(IllegalState(AssociationNotFound(associationId)))
      ensures associationId > 0 && !NullOrBlank(memberName) && FindById(old(associations), associationId).Some? ==>
        && r == Ok(Member(|old(members)| + 1, Trim(memberName.value), Some(associationId)))
        && old(associations)[associationId - 1].id == associationId
        && State() == old(State()).(members := old(members) + [r.value])
    {
      if associationId <= 0 {
        return Err(IllegalArgument(InvalidId("associationId")));
      }
      if NullOrBlank(memberName) {
        return Err(IllegalArgument(BlankName("Member")));
      }
      var association := FindById(associations, associationId);
      if association.None? {
        return Err(IllegalState(AssociationNotFound(associationId)));
      }
      assert association.value.id == associationId by {
        assert AssociationIds(associations);
      }
      var m := Member(|members| + 1, Trim(memberName.value), Some(association.value.id));
      SaveMember(m);
      r := Ok(m);
    }

    /** createOffer: the argument guards, then the contact and its association, then the category
        lookup; the offer is saved, linked to each found category and saved again. */
    method CreateOffer(contactId: int, name: Option<string>, description: string, price: Option<real>,
                       categoryIds: Option<seq<Option<int>>>, now: int) returns (r: Result<OfferRow>)
      requires Valid()
      modifies this`offers
      ensures Valid()
      ensures r.Err? ==> State() == old(State())
      ensures OfferRequestError(contactId, name, price, categoryIds).Some? ==>
        r == Err(OfferRequestError(contactId, name, price, categoryIds).value)
      ensures OfferRequestError(contactId, name, price, categoryIds).None? ==>
        var contact := FindById(old(members), contactId);
        var ids := DistinctIds(categoryIds.value);
        && (contact.None? ==> r == Err(IllegalState(ContactNotFound(contactId))))
        && (contact.Some? && contact.value.association.None? ==> r == Err(IllegalState(ContactHasNoAssociation)))
        && (contact.Some? && contact.value.association.Some? && (exists x :: x in ids && !(1 <= x <= |old(categories)|)) ==>
              && r.Err? && r.error.IllegalState?
              && r.error.reason.CategoriesNotFound?
              && forall x :: x in r.error.reason.missing <==> x in ids && !(1 <= x <= |old(categories)|))
        && (contact.Some? && contact.value.association.Some? && (forall x :: x in ids ==> 1 <= x <= |old(categories)|) ==>
              && r.Ok?
              && State() == old(State()).(offers := old(offers) + [r.value])
              && r.value.id == |old(offers)| + 1
              && r.value.association == contact.value.association
              && r.value.name == Trim(name.value) && r.value.description == Trim(description)
              && r.value.price == price.value && r.value.status == Open
              && r.value.createdAt == now && r.value.closedAt == None
              && forall c :: c in CategoriesOf(r.value.links) <==> c in old(categories) && Some(c.id) in categoryIds.value)
    {
      var guard := OfferRequestError(contactId, name, price, categoryIds);
      if guard.Some? {
        return Err(guard.value);
      }
      var contact := FindById(members, contactId);
      if contact.None? {
        return Err(IllegalState(ContactNotFound(contactId)));
      }
      if contact.value.association.None? {
        return Err(IllegalState(ContactHasNoAssociation));
      }
      var ids := DistinctIds(categoryIds.value);
      var found := FindAllById(categories, ids);
      FoundOrUnfound(categories, ids);
      FoundAreRequested(categories, ids);
      if |found| != |ids| {
        assert Unfound(ids, found)[0] in Unfound(ids, found);
        return Err(IllegalState(CategoriesNotFound(Unfound(ids, found))));
      }
      assert Resolves(associations, contact.value.association);
      var row := SaveLinkedOffer(contact.value.association, Trim(name.value), Trim(description), price.value, now, found);
      r := Ok(row);
    }

    /** The tail of createOffer: the new OPEN offer is saved, linked to each category of `found` in
        turn, and saved again. */
    method SaveLinkedOffer(association: Option<int>, name: string, description: string, price: real,
                           now: int, found: seq<Category>) returns (row: OfferRow)
      requires Valid() && Resolves(associations, association)
      modifies this`offers
      ensures Valid()
      ensures State() == old(State()).(offers := old(offers) + [row])
      ensures row == OfferRow(|old(offers)| + 1, association, name, description, price, Open, now, None, row.links)
      ensures forall c :: c in CategoriesOf(row.links) <==> c in found
    {
      var offer: Offer := new Offer(association, name, description, price, now, Open);
      ghost var before := State();
      // the first save hands out the identity
      offer.id := Some(|offers| + 1);
      AddOfferKeepsInvariant(State(), offer.Row());
      offers := offers + [offer.Row()];
      var k := 0;
      while k < |found|
        invariant 0 <= k <= |found|
        invariant offer.links == LinksTo(offer.id, found[..k])
        modifies offer`links
      {
        var _ := offer.AddCategory(Some(found[k]));
        assert found[..k + 1] == found[..k] + [found[k]];
        k := k + 1;
      }
      assert found[..k] == found;
      CategoriesOfLinksTo(offer.id, found);
      AddOfferKeepsInvariant(before, offer.Row());
      assert offers[|offers| - 1 := offer.Row()] == before.offers + [offer.Row()];
      offers := offers[|offers| - 1 := offer.Row()];
      row := offer.Row();
    }

    /** listOffers: every stored offer, whatever its status. */
    method ListOffers() returns (r: seq<OfferRow>)
      ensures r == offers
    {
      r := offers;
    }

    /** listOffersByCategory over the offer table. */
    method ListOffersByCategory(categoryId: Option<int>) returns (r: Result<seq<OfferRow>>)
      ensures r == OfferQueries.ListOffersByCategory(offers, categoryId)
    {
      r := OfferQueries.ListOffersByCategory(offers, categoryId);
    }

    /** createDemand: ids are checked, the offer must exist and be OPEN, the member must exist and
        have no PENDING demand for the offer; the new PENDING demand is stored under the next id. */
    method CreateDemand(offerId: Option<int>, memberId: Option<int>, now: int) returns (r: Result<Demand>)
      requires Valid()
      modifies this`demands
      ensures Valid()
      ensures r.Err? ==> State() == old(State())
      ensures offerId.None? || offerId.value <= 0 ==> r == Err(IllegalArgument(InvalidId("offerId")))
      ensures offerId.Some? && offerId.value > 0 && (memberId.None? || memberId.value <= 0) ==>
        r == Err(IllegalArgument(InvalidId("demanderId")))
      ensures offerId.Some? && offerId.value > 0 && memberId.Some? && memberId.value > 0 ==>
        var offer := FindById(old(offers), offerId.value);
        var member := FindById(old(members), memberId.value);
        && (offer.None? ==> r == Err(IllegalState(OfferNotFound(offerId.value))))
        && (offer.Some? && offer.value.status != Open ==> r == Err(IllegalState(OfferNotOpen)))
        && (offer.Some? && offer.value.status == Open && member.None? ==>
              r == Err(IllegalState(MemberNotFound(memberId.value))))
        && (offer.Some? && offer.value.status == Open && member.Some? ==>
              if exists i :: 0 <= i < |old(demands)| && IsPendingFor(old(demands)[i], offerId.value, memberId.value)
              then r == Err(IllegalState(AlreadyPending))
              else r.Ok?)
      ensures r.Ok? ==>
        && r.value == Demand(|old(demands)| + 1, offerId, memberId, now, Pending)
        && State() == old(State()).(demands := old(demands) + [r.value])
    {
      if offerId.None? || offerId.value <= 0 {
        return Err(IllegalArgument(InvalidId("offerId")));
      }
      if memberId.None? || memberId.value <= 0 {
        return Err(IllegalArgument(InvalidId("demanderId")));
      }
      var offer := FindById(offers, offerId.value);
      if offer.None? {
        return Err(IllegalState(OfferNotFound(offerId.value)));
      }
      if offer.value.status != Open {
        return Err(IllegalState(OfferNotOpen));
      }
      var demander := FindById(members, memberId.value);
      if demander.None? {
        return Err(IllegalState(MemberNotFound(memberId.value)));
      }
      var alreadyPending := ExistsPendingByOfferIdAndDemanderId(demands, offerId.value, memberId.value);
      if alreadyPending {
        return Err(IllegalState(AlreadyPending));
      }
      var d := Demand(|demands| + 1, Some(offer.value.id), Some(demander.value.id), now, Pending);
      AddDemandKeepsInvariant(State(), d);
      demands := demands + [d];
      r := Ok(d);
    }

    /** cancelDemand: only a PENDING demand can be cancelled, and only its status changes. */
    method CancelDemand(demandId: Option<int>) returns (r: Result<()>)
      requires Valid()
      modifies this`demands
      ensures Valid()
      ensures r.Err? ==> State() == old(State())
      ensures demandId.None? || demandId.value <= 0 ==> r == Err(IllegalArgument(InvalidId("demandId")))
      ensures demandId.Some? && demandId.value > 0 ==>
        var d := FindById(old(demands), demandId.value);
        && (d.None? ==> r == Err(IllegalState(DemandNotFound(demandId.value))))
        && (d.Some? && d.value.status != Pending ==> r == Err(IllegalState(OnlyPendingCancellable)))
        && (d.Some? && d.value.status == Pending ==>
              && r == Ok(())
              && State() == old(State()).(demands := old(demands)[demandId.value - 1 := d.value.(status := Cancelled)]))
    {
      if demandId.None? || demandId.value <= 0 {
        return Err(IllegalArgument(InvalidId("demandId")));
      }
      var d := FindById(demands, demandId.value);
      if d.None? {
        return Err(IllegalState(DemandNotFound(demandId.value)));
      }
      if d.value.status != Pending {
        return Err(IllegalState(OnlyPendingCancellable));
      }
      CancelKeepsInvariant(State(), demandId.value - 1);
      demands := demands[demandId.value - 1 := d.value.(status := Cancelled)];
      r := Ok(());
    }
  
    /** getDemandRank: the 1-based position of the demand in its offer's pending queue, or None
        when it is not in the queue. */
    method GetDemandRank(demandId: Option<int>) returns (r: Result<Option<nat>>)
      requires DemandIds(demands)
      ensures demandId.None? || demandId.value <= 0 ==> r == Err(IllegalArgument(InvalidId("demandId")))
      ensures demandId.Some? && demandId.value > 0 ==>
        var d := FindById(demands, demandId.value);
        && (d.None? ==> r == Err(IllegalState(DemandNotFound(demandId.value))))
        && (d.Some? && d.value.offer.None? ==> r == Err(IllegalState(DemandHasNoOffer)))
        && (d.Some? && d.value.offer.Some? ==> r.Ok? && RankIn(demands, d.value, r.value))
    {
      if demandId.None? || demandId.value <= 0 {
        return Err(IllegalArgument(InvalidId("demandId")));
      }
      var d := FindById(demands, demandId.value);
      if d.None? {
        return Err(IllegalState(DemandNotFound(demandId.value)));
      }
      if d.value.offer.None? {
        return Err(IllegalState(DemandHasNoOffer));
      }
      DemandAtItsIdInverse(demands, demandId.value);
      var rank := QueueRank(demands, d.value);
      r := Ok(rank);
    }

    /** validateOffer: after the checks, the offer's demands are walked oldest first; the first
        PENDING one is approved, every later PENDING one rejected, and the offer is closed. */
    method ValidateOffer(contactMemberId: Option<int>, offerId: Option<int>, now: int) returns (r: Result<Option<Demand>>)
      requires Valid()
      modifies this`offers, this`demands
      ensures Valid()
      ensures r.Err? ==> State() == old(State())
      ensures contactMemberId.None? || contactMemberId.value <= 0 ==>
        r == Err(IllegalArgument(InvalidId("contactMemberId")))
      ensures contactMemberId.Some? && contactMemberId.value > 0 && (offerId.None? || offerId.value <= 0) ==>
        r == Err(IllegalArgument(InvalidId("offerId")))
      ensures contactMemberId.Some? && contactMemberId.value > 0 && offerId.Some? && offerId.value > 0 ==>
        var contact := FindById(old(members), contactMemberId.value);
        var offer := FindById(old(offers), offerId.value);
        && (contact.None? ==> r == Err(IllegalState(ContactNotFound(contactMemberId.value))))
        && (contact.Some? && offer.None? ==> r == Err(IllegalState(OfferNotFound(offerId.value))))
        && (contact.Some? && offer.Some? && offer.value.status != Open ==> r == Err(IllegalState(OfferNotOpen)))
        && (contact.Some? && offer.Some? && offer.value.status == Open && !SameAssociation(offer.value, contact.value) ==>
              r == Err(IllegalState(NotAllowedToValidate)))
        && (contact.Some? && offer.Some? && offer.value.status == Open && SameAssociation(offer.value, contact.value) ==>
              var w := Winner(old(demands), offerId.value);
              && r == Ok(Approve(w))
              && State() == old(State()).(
                   offers := old(offers)[offerId.value - 1 := offer.value.(status := Closed, closedAt := Some(now))],
                   demands := ResolveAll(old(demands), offerId.value, IdOf(w))))
    {
      if contactMemberId.None? || contactMemberId.value <= 0 {
        return Err(IllegalArgument(InvalidId("contactMemberId")));
      }
      if offerId.None? || offerId.value <= 0 {
        return Err(IllegalArgument(InvalidId("offerId")));
      }
      var contact := FindById(members, contactMemberId.value);
      if contact.None? {
        return Err(IllegalState(ContactNotFound(contactMemberId.value)));
      }
      var offer := FindById(offers, offerId.value);
      if offer.None? {
        return Err(IllegalState(OfferNotFound(offerId.value)));
      }
      if offer.value.status != Open {
        return Err(IllegalState(OfferNotOpen));
      }
      if !SameAssociation(offer.value, contact.value) {
        return Err(IllegalState(NotAllowedToValidate));
      }
      ValidateKeepsInvariant(State(), offerId.value, now);
      var approved := SettleDemands(offerId.value);
      offers := offers[offerId.value - 1 := offer.value.(status := Closed, closedAt := Some(now))];
      r := Ok(approved);
    }

    /** The loop of validateOffer over findByOfferIdOrderByCreatedAtAsc, saving every demand. */
    method SettleDemands(offerId: int) returns (approved: Option<Demand>)
      requires DemandIds(demands)
      modifies this`demands
      ensures approved == Approve(Winner(old(demands), offerId))
      ensures demands == ResolveAll(old(demands), offerId, IdOf(Winner(old(demands), offerId)))
    {
      ghost var ds := demands;
      var list := FindByOfferIdOrderByCreatedAtAsc(demands, offerId);
      OfferListOnce(ds, offerId);
      approved, demands := SettleEach(demands, list);
      PartialComplete(ds, offerId, IdOf(FirstPending(list)));
    }

    /** archiveOffer: any stored offer becomes ARCHIVED with its closing time set; nothing else changes. */
    method ArchiveOffer(offerId: Option<int>, now: int) returns (r: Result<()>)
      requires Valid()
      modifies this`offers
      ensures Valid()
      ensures r.Err? ==> State() == old(State())
      ensures offerId.None? || offerId.value <= 0 ==> r == Err(IllegalArgument(InvalidId("offerId")))
      ensures offerId.Some? && offerId.value > 0 ==>
        var offer := FindById(old(offers), offerId.value);
        && (offer.None? ==> r == Err(IllegalState(OfferNotFound(offerId.value))))
        && (offer.Some? ==>
              && r == Ok(())
              && State() == old(State()).(
                   offers := old(offers)[offerId.value - 1 := offer.value.(status := Archived, closedAt := Some(now))]))
    {
      if offerId.None? || offerId.value <= 0 {
        return Err(IllegalArgument(InvalidId("offerId")));
      }
      var offer := FindById(offers, offerId.value);
      if offer.None? {
        return Err(IllegalState(OfferNotFound(offerId.value)));
      }
      ghost var before := State();
      ArchiveKeepsInvariant(before, offerId.value, now);
      offers := offers[offerId.value - 1 := offer.value.(status := Archived, closedAt := Some(now))];
      assert State() == before.(offers := offers);
      r := Ok(());
    }

    /** getOfferCountByAssociation over the offer table. */
    method GetOfferCountByAssociation() returns (r: map<int, nat>)
      ensures r == OfferCountByAssociation(offers)
    {
      r := OfferCountByAssociation(offers);
    }

    /** getOfferWinsByAssociation: the approved demands are walked, and each one whose demander has
        an association adds one to that association's count. */
    method GetOfferWinsByAssociation() returns (r: map<int, nat>)
      ensures r == WinsByAssociation(demands, members)
    {
      var approvedDemands := ApprovedOf(demands);
      r := CountWins(approvedDemands, members);
    }
  }
}
