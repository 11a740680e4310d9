/** The offer listings: all offers, and the offers linked to one category. */
module OfferQueries {
  import opened Outcomes
  import opened Entities

  /** The offer has a link to the category with id `categoryId`. */
  predicate HasCategory(o: OfferRow, categoryId: int) {
    exists i :: 0 <= i < |o.links| && o.links[i].category.id == categoryId
  }

  /** findDistinctByCategoriesId: the join of offers with their links, restricted to the category,
      with duplicate offers dropped; table order is kept. */
  function FindDistinctByCategoriesId(offers: seq<OfferRow>, categoryId: int): (r: seq<OfferRow>)
    ensures forall o :: multiset(r)[o] == if HasCategory(o, categoryId) then multiset(offers)[o] else 0
  {
    if offers == [] then []
    else
      assert offers == [offers[0]] + offers[1..];
      (if HasCategory(offers[0], categoryId) then [offers[0]] else [])
        + FindDistinctByCategoriesId(offers[1..], categoryId)
  }

  /** Over the offer table the listing holds every matching offer exactly once, however many
      links to the category it has. */
  lemma ListedOnce(offers: seq<OfferRow>, categoryId: int, o: OfferRow)
    requires OfferIds(offers)
    ensures multiset(FindDistinctByCategoriesId(offers, categoryId))[o]
         == if o in offers && HasCategory(o, categoryId) then 1 else 0
  {
    OfferTableHoldsEachOnce(offers);
    if o in offers {
      assert multiset(offers)[o] >= 1;
    }
  }

  /** listOffersByCategory: a null or non-positive id is refused, anything else is looked up. */
  function ListOffersByCategory(offers: seq<OfferRow>, categoryId: Option<int>): (r: Result<seq<OfferRow>>)
    ensures r.Err? <==> categoryId.None? || categoryId.value <= 0
    ensures r.Err? ==> r.error == IllegalArgument(InvalidId("categoryId"))
    ensures r.Ok? ==> forall o :: o in r.value <==> o in offers && HasCategory(o, categoryId.value)
  {
    if categoryId.None? || categoryId.value <= 0 then Err(IllegalArgument(InvalidId("categoryId")))
    else Ok(FindDistinctByCategoriesId(offers, categoryId.value))
  }
}
