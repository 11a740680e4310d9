/** The persisted form of the five entities, and the id-indexed tables that hold them.
    References between entities are ids; a table's row i carries id i + 1, the order in which
    the store hands out identities. */
module Entities {
  import opened Outcomes

  datatype OfferStatus = Open | Closed | Archived

  datatype DemandStatus = Pending | Approved | Rejected | Cancelled

  /** `representer` is a member id; the facade never sets or reads it. */
  datatype Association = Association(id: int, name: string, representer: Option<int>)

  datatype Member = Member(id: int, name: string, association: Option<int>)

  datatype Category = Category(id: int, name: string)

  /** One join record between an offer and a category; `offerId` is the offer's id when it was added. */
  datatype OfferCategory = OfferCategory(offerId: Option<int>, category: Category)

  /** An offer as the offer table stores it. Timestamps are clock ticks, the price an exact decimal. */
  datatype OfferRow = OfferRow(
    id: int,
    association: Option<int>,
    name: string,
    description: string,
    price: real,
    status: OfferStatus,
    createdAt: int,
    closedAt: Option<int>,
    links: seq<OfferCategory>)

  datatype Demand = Demand(
    id: int,
    offer: Option<int>,
    demander: Option<int>,
    createdAt: int,
    status: DemandStatus)

  /** The categories an offer is linked to, whatever the number of links to each. */
  function CategoriesOf(links: seq<OfferCategory>): (r: set<Category>)
    ensures forall c :: c in r <==> exists i :: 0 <= i < |links| && links[i].category == c
  {
    set i | 0 <= i < |links| :: links[i].category
  }

  /** findById on a table whose row i carries id i + 1. */
  function FindById<T>(table: seq<T>, id: int): Option<T>
  {
    if 1 <= id <= |table| then Some(table[id - 1]) else None
  }

  predicate Resolves<T>(table: seq<T>, id: Option<int>) {
    id.Some? ==> 1 <= id.value <= |table|
  }

  ghost predicate AssociationIds(t: seq<Association>) {
    forall i :: 0 <= i < |t| ==> t[i].id == i + 1
  }

  ghost predicate MemberIds(t: seq<Member>) {
    forall i :: 0 <= i < |t| ==> t[i].id == i + 1
  }

  ghost predicate CategoryIds(t: seq<Category>) {
    forall i :: 0 <= i < |t| ==> t[i].id == i + 1
  }

  ghost predicate OfferIds(t: seq<OfferRow>) {
    forall i :: 0 <= i < |t| ==> t[i].id == i + 1
  }

  ghost predicate DemandIds(t: seq<Demand>) {
    forall i :: 0 <= i < |t| ==> t[i].id == i + 1
  }

  /** No two rows of a list of demands share an id. */
  ghost predicate UniqueIds(s: seq<Demand>) {
    forall i, j :: 0 <= i < j < |s| ==> s[i].id != s[j].id
  }

  /** In a table with consistent ids, a demand is the row its id names. */
  lemma DemandAtItsId(t: seq<Demand>, d: Demand)
    requires DemandIds(t) && d in t
    ensures 1 <= d.id <= |t| && t[d.id - 1] == d
  {
    var k :| 0 <= k < |t| && t[k] == d;
  }

  /** The row that findById returns is stored and carries the id asked for. */
  lemma DemandAtItsIdInverse(t: seq<Demand>, id: int)
    requires DemandIds(t) && 1 <= id <= |t|
    ensures t[id - 1] in t && t[id - 1].id == id
  {
  }

  /** A table whose row i carries id i + 1, for some id projection, holds every row at most once. */
  lemma {:induction false} TableHoldsEachOnce<T>(t: seq<T>, id: T -> int)
    requires forall i :: 0 <= i < |t| ==> id(t[i]) == i + 1
    ensures forall x :: multiset(t)[x] <= 1
  {
    if t != [] {
      var p := t[..|t| - 1];
      assert forall i :: 0 <= i < |p| ==> p[i] == t[i];
      TableHoldsEachOnce(p, id);
      assert t == p + [t[|t| - 1]];
      assert t[|t| - 1] !in p;
    }
  }

  function DemandId(d: Demand): int { d.id }

  function OfferId(o: OfferRow): int { o.id }

  lemma DemandTableHoldsEachOnce(t: seq<Demand>)
    requires DemandIds(t)
    ensures forall x :: multiset(t)[x] <= 1
  {
    TableHoldsEachOnce(t, DemandId);
  }

  lemma OfferTableHoldsEachOnce(t: seq<OfferRow>)
    requires OfferIds(t)
    ensures forall x :: multiset(t)[x] <= 1
  {
    TableHoldsEachOnce(t, OfferId);
  }
}
