/**
 * The seed script of backend/src/seed.ts: the category loop that fills the
 * name-to-id record, and `seedProduct`, which inserts one product and then
 * its variants one statement at a time. Every statement runs on its own:
 * the first one the schema refuses stops the script (better-sqlite3 throws),
 * and the rows inserted before it stay.
 */
module Seed {
  import opened Results
  import opened Ordering
  import opened Schema
  import opened Store

  datatype CategoryEntry = CategoryEntry(name: string, description: string)

  /** The product literal of a `seedProduct` call; the random `daysAgo` becomes the caller's `createdAt`. */
  datatype ProductEntry = ProductEntry(
    name: string,
    description: string,
    category: string,
    status: Option<string>,
    deleted: bool)

  // ---------------------------------------------------------------------------
  // Categories
  // ---------------------------------------------------------------------------

  /** The first `n` category inserts succeed: none of their names is already stored, and none repeats. */
  ghost predicate NamesFreshBelow(db: Db, entries: seq<CategoryEntry>, n: nat) {
    && (forall k :: 0 <= k < n && k < |entries| ==> !CategoryNameTaken(db, entries[k].name))
    && (forall j, k :: 0 <= j < k < n && k < |entries| ==> entries[j].name != entries[k].name)
  }

  /** All the category inserts succeed. */
  ghost predicate CategoryNamesFresh(db: Db, entries: seq<CategoryEntry>) {
    NamesFreshBelow(db, entries, |entries|)
  }

  /** The tables once the first `i` category inserts have run after `db`. */
  function CategoriesAfter(db: Db, entries: seq<CategoryEntry>, i: nat, now: Timestamp): (r: Db)
    requires i <= |entries|
    ensures r.nextCategoryId == db.nextCategoryId + i
  {
    if i == 0 then db
    else WithCategory(CategoriesAfter(db, entries, i - 1, now), entries[i - 1].name, Some(entries[i - 1].description), now)
  }

  /**
   * The first `i` category inserts change only the categories and their
   * counter, and keep every category row that was there.
   */
  lemma {:induction false} CategoriesAfterFrame(db: Db, entries: seq<CategoryEntry>, i: nat, now: Timestamp)
    requires i <= |entries|
    ensures var r := CategoriesAfter(db, entries, i, now);
      && r.products == db.products && r.variants == db.variants
      && r.nextProductId == db.nextProductId && r.nextVariantId == db.nextVariantId
      && (forall id :: id in r.categories <==> id in db.categories || db.nextCategoryId <= id < db.nextCategoryId + i)
      && (forall id :: id in db.categories && id < db.nextCategoryId ==> r.categories[id] == db.categories[id])
  {
    if i > 0 {
      CategoriesAfterFrame(db, entries, i - 1, now);
    }
  }

  /** The `k`-th of the first `i` category inserts creates the entry's row under id `nextCategoryId + k`. */
  lemma {:induction false} CategoryRowAt(db: Db, entries: seq<CategoryEntry>, i: nat, now: Timestamp, k: nat)
    requires k < i <= |entries|
    ensures var r := CategoriesAfter(db, entries, i, now);
      && db.nextCategoryId + k in r.categories
      && r.categories[db.nextCategoryId + k] == Category(db.nextCategoryId + k, entries[k].name, Some(entries[k].description), now, now)
  {
    if k < i - 1 {
      CategoryRowAt(db, entries, i - 1, now, k);
    }
  }

  /**
   * After the first `i` category inserts, a name is taken exactly when it was
   * taken before or one of those entries carries it.
   */
  lemma CategoryTakenSoFar(db0: Db, entries: seq<CategoryEntry>, i: nat, now: Timestamp, name: string)
    requires i <= |entries|
    requires Keyed(db0)
    ensures CategoryNameTaken(CategoriesAfter(db0, entries, i, now), name) <==>
      CategoryNameTaken(db0, name) || exists j :: 0 <= j < i && entries[j].name == name
  {
    var db := CategoriesAfter(db0, entries, i, now);
    CategoriesAfterFrame(db0, entries, i, now);
    if CategoryNameTaken(db, name) {
      TakenAfterCategories(db0, entries, i, now, name);
    }
    if exists j :: 0 <= j < i && entries[j].name == name {
      var j :| 0 <= j < i && entries[j].name == name;
      CategoryRowAt(db0, entries, i, now, j);
      assert db.categories[db0.nextCategoryId + j].name == name;
    } else if CategoryNameTaken(db0, name) {
      var id :| id in db0.categories && db0.categories[id].name == name;
      assert db.categories[id].name == name;
    }
  }

  lemma TakenAfterCategories(db0: Db, entries: seq<CategoryEntry>, i: nat, now: Timestamp, name: string)
    requires i <= |entries|
    requires Keyed(db0)
    requires CategoryNameTaken(CategoriesAfter(db0, entries, i, now), name)
    ensures CategoryNameTaken(db0, name) || exists j :: 0 <= j < i && entries[j].name == name
  {
    var db := CategoriesAfter(db0, entries, i, now);
    var first := db0.nextCategoryId;
    CategoriesAfterFrame(db0, entries, i, now);
    var id :| id in db.categories && db.categories[id].name == name;
    if first <= id < first + i {
      CategoryRowAt(db0, entries, i, now, id - first);
      assert entries[id - first].name == name;
    } else {
      assert db0.categories[id].name == name;
    }
  }

  /**
   * One turn of the category loop: insert `i` goes through exactly when the
   * entries up to it have fresh names.
   */
  lemma CategoryStep(db0: Db, entries: seq<CategoryEntry>, i: nat, now: Timestamp)
    requires i < |entries|
    requires Keyed(db0) && NamesFreshBelow(db0, entries, i)
    ensures CategoryFault(CategoriesAfter(db0, entries, i, now), entries[i].name).None? ==> NamesFreshBelow(db0, entries, i + 1)
    ensures CategoryFault(CategoriesAfter(db0, entries, i, now), entries[i].name).Some? ==> !CategoryNamesFresh(db0, entries)
  {
    CategoryTakenSoFar(db0, entries, i, now, entries[i].name);
  }

  /** The `catIds` record after the first `i` inserts, the `k`-th of which received id `first + k`. */
  function IdsByName(entries: seq<CategoryEntry>, i: nat, first: nat): map<string, nat>
    requires i <= |entries|
  {
    if i == 0 then map[] else IdsByName(entries, i - 1, first)[entries[i - 1].name := first + i - 1]
  }

  /** With distinct names the record holds exactly the entries' names, each mapped to its own row's id. */
  lemma {:induction false} IdsByNameMeaning(entries: seq<CategoryEntry>, i: nat, first: nat)
    requires i <= |entries|
    requires forall j, k :: 0 <= j < k < i ==> entries[j].name != entries[k].name
    ensures forall name :: name in IdsByName(entries, i, first) <==> exists k :: 0 <= k < i && entries[k].name == name
    ensures forall k :: 0 <= k < i ==> entries[k].name in IdsByName(entries, i, first) && IdsByName(entries, i, first)[entries[k].name] == first + k
  {
    if i > 0 {
      IdsByNameMeaning(entries, i - 1, first);
    }
  }

  /**
   * The `for` loop over the category literals: each insert's new id is
   * recorded under its name. The loop runs to the end exactly when the names
   * are fresh; otherwise it stops at the first duplicate with the UNIQUE failure.
   */
  method SeedCategories(store: CatalogStore, entries: seq<CategoryEntry>, now: Timestamp) returns (r: Result<map<string, nat>>)
    requires store.Valid()
    modifies store
    ensures store.Valid()
    ensures r.Ok? <==> CategoryNamesFresh(old(store.Snapshot()), entries)
    ensures r.Err? ==> r.error == Failed(UniqueCategoryName)
    ensures r.Err? ==> exists i :: 0 <= i < |entries| && store.Snapshot() == CategoriesAfter(old(store.Snapshot()), entries, i, now)
    ensures r.Ok? ==> store.Snapshot() == CategoriesAfter(old(store.Snapshot()), entries, |entries|, now)
    ensures r.Ok? ==> forall name :: name in r.value <==> exists k :: 0 <= k < |entries| && entries[k].name == name
    ensures r.Ok? ==> forall k :: 0 <= k < |entries| ==> entries[k].name in r.value && r.value[entries[k].name] == old(store.nextCategoryId) + k
  {
    ghost var db0 := store.Snapshot();
    var first := store.nextCategoryId;
    var catIds: map<string, nat> := map[];
    var i := 0;
    while i < |entries|
      invariant 0 <= i <= |entries|
      invariant store.Valid()
      invariant NamesFreshBelow(db0, entries, i)
      invariant store.Snapshot() == CategoriesAfter(db0, entries, i, now)
      invariant catIds == IdsByName(entries, i, first)
    {
      var entry := entries[i];
      CategoryStep(db0, entries, i, now);
      var inserted := store.InsertCategory(entry.name, Some(entry.description), now);
      if inserted.Err? {
        return Err(inserted.error);
      }
      catIds := catIds[entry.name := inserted.value];
      i := i + 1;
    }
    IdsByNameMeaning(entries, i, first);
    r := Ok(catIds);
  }

  // ---------------------------------------------------------------------------
  // seedProduct
  // ---------------------------------------------------------------------------

  /** `p.status || "active"`: an absent or empty status falls back to the default. */
  function SeedStatus(status: Option<string>): string {
    if status.None? || status.value == "" then DefaultStatus else status.value
  }

  /** A seeded status passes the CHECK exactly when it is defaulted or is itself one of the three. */
  lemma SeedStatusMeaning(status: Option<string>)
    ensures IsStatus(SeedStatus(status)) <==> status.None? || status.value == "" || IsStatus(status.value)
    ensures status.None? ==> SeedStatus(status) == "active"
  {
  }

  /** The product row the script asks for; the id is overwritten by AUTOINCREMENT. */
  function SeedRow(p: ProductEntry, categoryId: nat, createdAt: Timestamp, now: Timestamp): (r: Product)
    ensures r.deletedAt.None? <==> !p.deleted
    ensures IsStatus(r.status) <==> p.status.None? || p.status.value == "" || IsStatus(p.status.value)
    ensures r.categoryId == Some(categoryId)
  {
    SeedStatusMeaning(p.status);
    Product(0, p.name, Some(p.description), Some(categoryId), SeedStatus(p.status),
            if p.deleted then Some(now) else None, createdAt, now)
  }

  /** The first `n` variant inserts succeed: the CHECKs hold, no SKU is stored already, and none repeats. */
  ghost predicate InsertableBelow(db: Db, vs: seq<VariantValues>, n: nat) {
    && (forall k :: 0 <= k < n && k < |vs| ==> vs[k].priceCents >= 0 && vs[k].inventoryCount >= 0 && !SkuTaken(db, vs[k].sku))
    && (forall j, k :: 0 <= j < k < n && k < |vs| ==> vs[j].sku != vs[k].sku)
  }

  /** Every variant insert succeeds. */
  ghost predicate VariantsInsertable(db: Db, vs: seq<VariantValues>) {
    InsertableBelow(db, vs, |vs|)
  }

  /** The tables once the first `i` variant rows for `productId` are inserted after `db`. */
  function AfterVariants(db: Db, productId: nat, vs: seq<VariantValues>, i: nat, now: Timestamp): Db
    requires i <= |vs|
  {
    db.(variants := AddVariants(db.variants, productId, vs[..i], db.nextVariantId, now), nextVariantId := db.nextVariantId + i)
  }

  /** Inserting row `i` after the first `i` rows gives the tables with the first `i + 1` rows. */
  lemma NextVariant(db1: Db, productId: nat, vs: seq<VariantValues>, i: nat, now: Timestamp)
    requires i < |vs|
    ensures WithVariant(AfterVariants(db1, productId, vs, i, now), productId, vs[i], now) == AfterVariants(db1, productId, vs, i + 1, now)
  {
    var cur := AfterVariants(db1, productId, vs, i, now);
    AddOneMore(db1.variants, productId, vs, i, db1.nextVariantId, now);
  }

  /**
   * One turn of the variant loop: insert `i` goes through exactly when the
   * entries up to it are insertable.
   */
  lemma VariantStep(db0: Db, db1: Db, productId: nat, vs: seq<VariantValues>, i: nat, now: Timestamp)
    requires Keyed(db1) && db1.variants == db0.variants && productId in db1.products
    requires i < |vs| && InsertableBelow(db0, vs, i)
    ensures VariantFault(AfterVariants(db1, productId, vs, i, now), productId, vs[i]).None? ==> InsertableBelow(db0, vs, i + 1)
    ensures VariantFault(AfterVariants(db1, productId, vs, i, now), productId, vs[i]).Some? ==> !VariantsInsertable(db0, vs)
  {
    var cur := AfterVariants(db1, productId, vs, i, now);
    SkuTakenAfterAdding(db1, productId, vs[..i], now, vs[i].sku);
    assert SkuTaken(db1, vs[i].sku) == SkuTaken(db0, vs[i].sku);
    if SkuTaken(cur, vs[i].sku) && !SkuTaken(db0, vs[i].sku) {
      var j :| 0 <= j < |vs[..i]| && vs[..i][j].sku == vs[i].sku;
      assert vs[j].sku == vs[i].sku;
    }
  }

  /**
   * `seedProduct`: the product insert, then one variant insert per entry,
   * each bound to the new product id. It completes exactly when every
   * statement passes the schema, and then the product's variants are exactly
   * the given ones, in order. When a statement fails, the rows inserted
   * before it stay: none after a refused product row, otherwise the product
   * and the variants before the failing one.
   */
  method SeedProduct(store: CatalogStore, p: ProductEntry, vs: seq<VariantValues>, catIds: map<string, nat>,
                     createdAt: Timestamp, now: Timestamp) returns (r: Result<nat>)
    requires store.Valid()
    requires p.category in catIds
    modifies store
    ensures store.Valid()
    ensures r.Ok? <==>
      && ProductFault(old(store.Snapshot()), Some(catIds[p.category]), SeedStatus(p.status)).None?
      && VariantsInsertable(old(store.Snapshot()), vs)
    ensures r.Err? ==> r.error.Failed?
    ensures store.categories == old(store.categories)
    ensures ProductFault(old(store.Snapshot()), Some(catIds[p.category]), SeedStatus(p.status)).Some? ==>
      store.Snapshot() == old(store.Snapshot())
    ensures ProductFault(old(store.Snapshot()), Some(catIds[p.category]), SeedStatus(p.status)).None? && r.Err? ==>
      exists i :: 0 <= i < |vs| && store.Snapshot() ==
        AfterVariants(WithProduct(old(store.Snapshot()), SeedRow(p, catIds[p.category], createdAt, now)), old(store.nextProductId), vs, i, now)
    ensures r.Ok? ==>
      && r.value == old(store.nextProductId)
      && store.products == old(store.products)[r.value := SeedRow(p, catIds[p.category], createdAt, now).(id := r.value)]
      && store.variants == AddVariants(old(store.variants), r.value, vs, old(store.nextVariantId), now)
      && VariantIdsOf(store.Snapshot(), r.value) == Range(old(store.nextVariantId), |vs|)
  {
    ghost var db0 := store.Snapshot();
    var inserted := store.InsertProduct(SeedRow(p, catIds[p.category], createdAt, now));
    if inserted.Err? {
      return Err(inserted.error);
    }
    var productId := inserted.value;
    ghost var db1 := store.Snapshot();
    assert forall id :: id in db1.variants ==> db1.variants[id].productId != productId;
    var i := 0;
    while i < |vs|
      invariant 0 <= i <= |vs|
      invariant store.Valid()
      invariant InsertableBelow(db0, vs, i)
      invariant store.Snapshot() == AfterVariants(db1, productId, vs, i, now)
    {
      VariantStep(db0, db1, productId, vs, i, now);
      NextVariant(db1, productId, vs, i, now);
      var added := store.InsertVariant(productId, vs[i], now);
      if added.Err? {
        assert store.Snapshot() == AfterVariants(db1, productId, vs, i, now);
        return Err(added.error);
      }
      i := i + 1;
    }
    assert vs[..i] == vs;
    AddedVariantsOf(db1, productId, vs, now);
    r := Ok(productId);
  }
}
