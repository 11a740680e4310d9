/** The pure steps of createOffer: the argument guards, the category id clean-up and the
    category lookup. */
module OfferRequest {
  import opened Outcomes
  import opened Entities
  import opened JavaLang

  /** The first argument guard of createOffer that fails, in the order the code checks them. */
  function OfferRequestError(contactId: int, name: Option<string>, price: Option<real>,
                             categoryIds: Option<seq<Option<int>>>): (r: Option<Failure>)
    ensures r.None? <==>
      contactId > 0 && !NullOrBlank(name) && price.Some? && price.value >= 0.0
      && categoryIds.Some? && |categoryIds.value| > 0
    ensures r.Some? ==> r.value.IllegalArgument?
    ensures contactId <= 0 ==> r == Some(IllegalArgument(InvalidId("contactId")))
    ensures contactId > 0 && NullOrBlank(name) ==> r == Some(IllegalArgument(BlankName("Offer")))
  {
    if contactId <= 0 then Some(IllegalArgument(InvalidId("contactId")))
    else if NullOrBlank(name) then Some(IllegalArgument(BlankName("Offer")))
    else if price.None? then Some(IllegalArgument(PriceRequired))
    else if price.value < 0.0 then Some(IllegalArgument(NegativePrice))
    else if categoryIds.None? || |categoryIds.value| == 0 then Some(IllegalArgument(CategoryIdsRequired))
    else None
  }

  /** `filter(Objects::nonNull).distinct()`: the non-null ids, each once, in order of first occurrence. */
  function DistinctIds(ids: seq<Option<int>>): (r: seq<int>)
    ensures forall x :: x in r <==> Some(x) in ids
    ensures forall i, j :: 0 <= i < j < |r| ==> r[i] != r[j]
  {
    if ids == [] then []
    else
      var p := DistinctIds(ids[..|ids| - 1]);
      var last := ids[|ids| - 1];
      assert ids == ids[..|ids| - 1] + [last];
      if last.None? || last.value in p then p else p + [last.value]
  }

  /** findAllById: the stored categories among `ids`, in the order of `ids`. */
  function FindAllById(cats: seq<Category>, ids: seq<int>): (r: seq<Category>)
    ensures |r| <= |ids|
    ensures forall k :: 0 <= k < |r| ==> r[k] in cats
  {
    if ids == [] then []
    else
      var p := FindAllById(cats, ids[..|ids| - 1]);
      match FindById(cats, ids[|ids| - 1])
      case None => p
      case Some(c) => p + [c]
  }

  /** The ids of `ids` that no category of `found` carries. */
  function Unfound(ids: seq<int>, found: seq<Category>): (r: seq<int>)
    ensures forall x :: x in r <==> x in ids && forall k :: 0 <= k < |found| ==> found[k].id != x
  {
    if ids == [] then []
    else
      var p := Unfound(ids[..|ids| - 1], found);
      var x := ids[|ids| - 1];
      assert ids == ids[..|ids| - 1] + [x];
      if exists k :: 0 <= k < |found| && found[k].id == x then p else p + [x]
  }

  /** On the category table, findAllById returns exactly the stored categories whose id is asked for. */
  lemma {:induction false} FoundAreRequested(cats: seq<Category>, ids: seq<int>)
    requires CategoryIds(cats)
    ensures forall c :: c in FindAllById(cats, ids) <==> c in cats && c.id in ids
  {
    if ids != [] {
      var p := ids[..|ids| - 1];
      FoundAreRequested(cats, p);
      assert ids == p + [ids[|ids| - 1]];
      forall c | c in cats ensures c == cats[c.id - 1] {
        var k :| 0 <= k < |cats| && cats[k] == c;
      }
    }
  }

  /** Every id of `ids` is found or unfound, so the lookup falls short exactly when some id is unfound. */
  lemma {:induction false} FoundOrUnfound(cats: seq<Category>, ids: seq<int>)
    requires CategoryIds(cats)
    ensures |FindAllById(cats, ids)| + |Unfound(ids, FindAllById(cats, ids))| == |ids|
    ensures forall x :: x in Unfound(ids, FindAllById(cats, ids)) <==> x in ids && !(1 <= x <= |cats|)
  {
    var found := FindAllById(cats, ids);
    FoundAreRequested(cats, ids);
    forall x | x in ids ensures (exists k :: 0 <= k < |found| && found[k].id == x) <==> 1 <= x <= |cats| {
      if 1 <= x <= |cats| {
        assert cats[x - 1] in found;
        var k :| 0 <= k < |found| && found[k] == cats[x - 1];
        assert found[k].id == x;
      }
    }
    FoundCounts(cats, ids, found);
  }

  /** Against a fixed list `found` that holds exactly the stored categories of `ids`, each id is
      counted once on one side. */
  lemma {:induction false} FoundCounts(cats: seq<Category>, ids: seq<int>, found: seq<Category>)
    requires CategoryIds(cats)
    requires forall x :: x in ids ==> ((exists k :: 0 <= k < |found| && found[k].id == x) <==> 1 <= x <= |cats|)
    ensures |FindAllById(cats, ids)| + |Unfound(ids, found)| == |ids|
  {
    if ids != [] {
      var p := ids[..|ids| - 1];
      var x := ids[|ids| - 1];
      assert ids == p + [x];
      assert forall y :: y in p ==> y in ids;
      FoundCounts(cats, p, found);
      assert x in ids;
      if 1 <= x <= |cats| {
        assert |FindAllById(cats, ids)| == |FindAllById(cats, p)| + 1;
        assert Unfound(ids, found) == Unfound(p, found);
      } else {
        assert |FindAllById(cats, ids)| == |FindAllById(cats, p)|;
        assert Unfound(ids, found) == Unfound(p, found) + [x];
      }
    }
  }

  /** The links createOffer adds, one per category, all carrying the offer's id. */
  function LinksTo(offerId: Option<int>, cs: seq<Category>): (r: seq<OfferCategory>)
    ensures |r| == |cs|
    ensures forall k :: 0 <= k < |r| ==> r[k] == OfferCategory(offerId, cs[k])
  {
    seq(|cs|, k requires 0 <= k < |cs| => OfferCategory(offerId, cs[k]))
  }

  lemma CategoriesOfLinksTo(offerId: Option<int>, cs: seq<Category>)
    ensures forall c :: c in CategoriesOf(LinksTo(offerId, cs)) <==> c in cs
  {
    var l := LinksTo(offerId, cs);
    forall c | c in cs ensures c in CategoriesOf(l) {
      var k :| 0 <= k < |cs| && cs[k] == c;
      assert l[k].category == c;
    }
  }
}
