/** The reference data a request carries (assets, credit cards, loans, installment plans,
    categories with their subcategories) and the flat set of ids an action may mention. */
module EntityCatalog {
  import opened Wrappers

  /** An asset (bank account, wallet, ...), a credit card, a loan or an installment plan.
      Only its `id` takes part in validation. */
  datatype Entity = Entity(id: string)

  datatype Subcategory = Subcategory(id: string)

  /** A category as the caller sends it. The valid-id set takes the category's
      `categoryId` field; its `id` field is not consulted. A category without a
      `categoryId` contributes `undefined`, which no checked id can equal, so here it
      contributes nothing. */
  datatype Category = Category(id: string, categoryId: Option<string>, subcategories: seq<Subcategory>)

  /** The request's reference lists; each one defaults to the empty list. */
  datatype Catalog = Catalog(
    assets: seq<Entity>,
    cards: seq<Entity>,
    loans: seq<Entity>,
    installments: seq<Entity>,
    categories: seq<Category>)

  /** `es.map(e => e.id)` */
  function EntityIds(es: seq<Entity>): seq<string> {
    if es == [] then [] else [es[0].id] + EntityIds(es[1..])
  }

  /** `categories.map(c => c.categoryId)`, the absent ones left out. */
  function CategoryIds(cs: seq<Category>): seq<string> {
    if cs == [] then []
    else (if cs[0].categoryId.Some? then [cs[0].categoryId.value] else []) + CategoryIds(cs[1..])
  }

  /** `subs.map(s => s.id)` */
  function SubcategoryIds(subs: seq<Subcategory>): seq<string> {
    if subs == [] then [] else [subs[0].id] + SubcategoryIds(subs[1..])
  }

  /** `categories.flatMap(c => c.subcategories.map(s => s.id))` */
  function AllSubcategoryIds(cs: seq<Category>): seq<string> {
    if cs == [] then [] else SubcategoryIds(cs[0].subcategories) + AllSubcategoryIds(cs[1..])
  }

  /** The list spread into the set, in the order the six sources are listed. */
  function IdList(c: Catalog): seq<string> {
    EntityIds(c.assets) + EntityIds(c.cards) + EntityIds(c.loans) + EntityIds(c.installments)
    + CategoryIds(c.categories) + AllSubcategoryIds(c.categories)
  }

  /** `validIds`: one untyped set; which list an id came from is forgotten. */
  function ValidIds(c: Catalog): set<string> {
    set x | x in IdList(c)
  }

  /** The reference definition of a known id, one disjunct per source. */
  ghost predicate IsKnownId(c: Catalog, x: string) {
    (exists e :: e in c.assets && e.id == x)
    || (exists e :: e in c.cards && e.id == x)
    || (exists e :: e in c.loans && e.id == x)
    || (exists e :: e in c.installments && e.id == x)
    || (exists cat :: cat in c.categories && cat.categoryId == Some(x))
    || (exists cat, sub :: cat in c.categories && sub in cat.subcategories && sub.id == x)
  }

  // ---------------------------------------------------------------------------

  lemma {:induction false} EntityIdsMembership(es: seq<Entity>, x: string)
    ensures x in EntityIds(es) <==> exists e :: e in es && e.id == x
  {
    if es != [] {
      EntityIdsMembership(es[1..], x);
      assert forall e :: e in es <==> e == es[0] || e in es[1..];
    }
  }

  lemma {:induction false} CategoryIdsMembership(cs: seq<Category>, x: string)
    ensures x in CategoryIds(cs) <==> exists cat :: cat in cs && cat.categoryId == Some(x)
  {
    if cs != [] {
      CategoryIdsMembership(cs[1..], x);
      assert forall cat :: cat in cs <==> cat == cs[0] || cat in cs[1..];
    }
  }

  lemma {:induction false} SubcategoryIdsMembership(subs: seq<Subcategory>, x: string)
    ensures x in SubcategoryIds(subs) <==> exists sub :: sub in subs && sub.id == x
  {
    if subs != [] {
      SubcategoryIdsMembership(subs[1..], x);
      assert forall sub :: sub in subs <==> sub == subs[0] || sub in subs[1..];
    }
  }

  lemma {:induction false} AllSubcategoryIdsMembership(cs: seq<Category>, x: string)
    ensures x in AllSubcategoryIds(cs)
        <==> exists cat, sub :: cat in cs && sub in cat.subcategories && sub.id == x
  {
    if cs != [] {
      AllSubcategoryIdsMembership(cs[1..], x);
      SubcategoryIdsMembership(cs[0].subcategories, x);
      assert forall cat :: cat in cs <==> cat == cs[0] || cat in cs[1..];
    }
  }

  /** The valid-id set is exactly the union of the asset, card, loan and installment ids,
      each category's `categoryId` and every subcategory's id; nothing else is a member. */
  lemma ValidIdsExactly(c: Catalog, x: string)
    ensures x in ValidIds(c) <==> IsKnownId(c, x)
  {
    EntityIdsMembership(c.assets, x);
    EntityIdsMembership(c.cards, x);
    EntityIdsMembership(c.loans, x);
    EntityIdsMembership(c.installments, x);
    CategoryIdsMembership(c.categories, x);
    AllSubcategoryIdsMembership(c.categories, x);
  }

  /** A category's own `id` is not accepted on its account: a catalog holding a single
      category without a `categoryId` and without subcategories rejects that category's id. */
  lemma CategoryOwnIdIgnored(catId: string)
    ensures catId !in ValidIds(Catalog([], [], [], [], [Category(catId, None, [])]))
  {
    ValidIdsExactly(Catalog([], [], [], [], [Category(catId, None, [])]), catId);
  }
}
