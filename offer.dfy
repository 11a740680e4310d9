/** The in-memory Offer entity and its in-place category links. */
module OfferEntity {
  import opened Outcomes
  import opened Entities

  /** The links left after removing every link to the category with id `categoryId`. */
  function WithoutCategory(links: seq<OfferCategory>, categoryId: int): (r: seq<OfferCategory>)
    ensures forall l :: multiset(r)[l] == if l.category.id == categoryId then 0 else multiset(links)[l]
  {
    if links == [] then []
    else
      assert links == [links[0]] + links[1..];
      (if links[0].category.id == categoryId then [] else [links[0]]) + WithoutCategory(links[1..], categoryId)
  }

  class Offer {
    var id: Option<int>
    var association: Option<int>
    var name: string
    var description: string
    var price: real
    var status: OfferStatus
    var createdAt: int
    var closedAt: Option<int>
    /** The HashSet of join records; each add creates a new record, so order means nothing and
        the same category may be linked twice. */
    var links: seq<OfferCategory>

    constructor (association: Option<int>, name: string, description: string, price: real,
                 createdAt: int, status: OfferStatus)
      ensures this.id == None && this.association == association
      ensures this.name == name && this.description == description && this.price == price
      ensures this.createdAt == createdAt && this.status == status
      ensures this.closedAt == None && this.links == []
    {
      this.id := None;
      this.association := association;
      this.name := name;
      this.description := description;
      this.price := price;
      this.createdAt := createdAt;
      this.status := status;
      this.closedAt := None;
      this.links := [];
    }

    /** getCategories: the category of every current link. */
    function Categories(): (r: set<Category>)
      reads this
      ensures forall c :: c in r <==> exists i :: 0 <= i < |links| && links[i].category == c
    {
      CategoriesOf(links)
    }

    /** addCategory: a null category is refused, anything else gets one more link. */
    method AddCategory(category: Option<Category>) returns (r: Result<()>)
      modifies this`links
      ensures category.None? ==> r == Err(IllegalArgument(NullCategory)) && links == old(links)
      ensures category.Some? ==> r == Ok(()) && links == old(links) + [OfferCategory(id, category.value)]
      ensures category.Some? ==> Categories() == old(Categories()) + {category.value}
    {
      if category.None? {
        return Err(IllegalArgument(NullCategory));
      }
      ghost var before := links;
      links := links + [OfferCategory(id, category.value)];
      r := Ok(());
      CategoriesOfAppend(before, OfferCategory(id, category.value));
    }

    /** removeCategory: a null category is a no-op; otherwise every link to a category with the
        same id goes and every other link stays. */
    method RemoveCategory(category: Option<Category>)
      modifies this`links
      ensures category.None? ==> links == old(links)
      ensures category.Some? ==> links == WithoutCategory(old(links), category.value.id)
      ensures category.Some? ==>
        forall c :: c in Categories() <==> c in old(Categories()) && c.id != category.value.id
    {
      if category.None? {
        return;
      }
      ghost var before := links;
      links := WithoutCategory(links, category.value.id);
      forall c ensures c in Categories() <==> c in CategoriesOf(before) && c.id != category.value.id {
        CategoriesOfWithout(before, category.value.id, c);
      }
    }

    /** clearCategories: no link is left. */
    method ClearCategories()
      modifies this`links
      ensures links == [] && Categories() == {}
    {
      links := [];
    }

    /** The row that saving this entity writes to the offer table. */
    function Row(): OfferRow
      requires id.Some?
      reads this
    {
      OfferRow(id.value, association, name, description, price, status, createdAt, closedAt, links)
    }
  }

  lemma CategoriesOfAppend(links: seq<OfferCategory>, l: OfferCategory)
    ensures CategoriesOf(links + [l]) == CategoriesOf(links) + {l.category}
  {
    var r := links + [l];
    forall c | c in CategoriesOf(links) ensures c in CategoriesOf(r) {
      var i :| 0 <= i < |links| && links[i].category == c;
      assert r[i] == links[i];
    }
    assert r[|links|] == l;
  }

  lemma CategoriesOfWithout(links: seq<OfferCategory>, categoryId: int, c: Category)
    ensures c in CategoriesOf(WithoutCategory(links, categoryId)) <==> c in CategoriesOf(links) && c.id != categoryId
  {
    var r := WithoutCategory(links, categoryId);
    if c in CategoriesOf(r) {
      var i :| 0 <= i < |r| && r[i].category == c;
      assert multiset(r)[r[i]] > 0;
      assert r[i] in links;
    }
    if c in CategoriesOf(links) && c.id != categoryId {
      var i :| 0 <= i < |links| && links[i].category == c;
      assert multiset(links)[links[i]] > 0;
      assert links[i] in r;
    }
  }
}
