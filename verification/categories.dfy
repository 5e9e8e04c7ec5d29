/**
 * The category handlers of backend/src/routes/categories.ts: both are
 * read-only queries, modelled as functions of the table state.
 */
module Categories {
  import opened Results
  import opened Schema
  import opened Ordering

  /** A category with `COUNT(p.id) AS product_count`. */
  datatype CategoryRow = CategoryRow(category: Category, productCount: nat)

  /** The products of the category that are not soft-deleted: the rows the LEFT JOIN attaches. */
  function LiveProductsIn(db: Db, categoryId: nat): set<nat> {
    set pid | pid in db.products && db.products[pid].categoryId == Some(categoryId) && db.products[pid].deletedAt.None?
  }

  function ProductCount(db: Db, categoryId: nat): nat {
    |LiveProductsIn(db, categoryId)|
  }

  /** A category without live products is counted 0, and one with some is counted more. */
  lemma ProductCountZero(db: Db, categoryId: nat)
    ensures ProductCount(db, categoryId) == 0 <==>
      forall pid :: pid in db.products && db.products[pid].categoryId == Some(categoryId) ==> db.products[pid].deletedAt.Some?
  {
    if ProductCount(db, categoryId) != 0 {
      var pid :| pid in LiveProductsIn(db, categoryId);
    } else {
      assert forall pid :: pid in db.products ==>
        (db.products[pid].categoryId == Some(categoryId) && db.products[pid].deletedAt.None? ==> pid in LiveProductsIn(db, categoryId));
    }
  }

  /** The grouped row of one category. */
  function CategoryRowOf(db: Db, id: nat): (r: CategoryRow)
    requires Keyed(db) && id in db.categories
    ensures r.category == db.categories[id] && r.category.id == id
    ensures r.productCount == ProductCount(db, id)
  {
    CategoryRow(db.categories[id], ProductCount(db, id))
  }

  function NameOf(db: Db, id: nat): string {
    if id in db.categories then db.categories[id].name else ""
  }

  /** Comparing categories by name, in the BINARY collation, is a legal ORDER BY. */
  lemma ByNameIsPreorder(db: Db)
    ensures TotalPreorder((a: nat, b: nat) => LexLe(NameOf(db, a), NameOf(db, b)))
  {
    var byName := (a: nat, b: nat) => LexLe(NameOf(db, a), NameOf(db, b));
    forall a: nat, b: nat ensures byName(a, b) || byName(b, a) {
      LexLeTotal(NameOf(db, a), NameOf(db, b));
    }
    forall a: nat, b: nat, c: nat | byName(a, b) && byName(b, c) ensures byName(a, c) {
      LexLeTransitive(NameOf(db, a), NameOf(db, b), NameOf(db, c));
    }
  }

  /** The category ids `ORDER BY c.name ASC`. */
  function CategoryIdsByName(db: Db): (ids: seq<nat>)
    requires Keyed(db)
    ensures Distinct(ids)
    ensures forall id :: id in ids <==> id in db.categories
    ensures |ids| == |db.categories|
    ensures forall i, j :: 0 <= i < j < |ids| ==> LexLe(NameOf(db, ids[i]), NameOf(db, ids[j]))
  {
    var scan := IdsBelow(db.categories.Keys, db.nextCategoryId);
    IncreasingIsDistinct(scan);
    assert ToSet(scan) == db.categories.Keys;
    DistinctSize(scan);
    ByNameIsPreorder(db);
    SortIds(scan, (a: nat, b: nat) => LexLe(NameOf(db, a), NameOf(db, b)))
  }

  /** The rows of the given categories, in the given order. */
  function CategoryRows(db: Db, ids: seq<nat>): (r: seq<CategoryRow>)
    requires Keyed(db)
    requires forall id :: id in ids ==> id in db.categories
    ensures |r| == |ids|
    ensures forall i :: 0 <= i < |r| ==> r[i] == CategoryRowOf(db, ids[i])
  {
    seq(|ids|, i requires 0 <= i < |ids| => CategoryRowOf(db, ids[i]))
  }

  /** GET /api/categories: one row per category, by name, with its live product count. */
  function ListCategories(db: Db): (r: seq<CategoryRow>)
    requires Keyed(db)
    ensures |r| == |db.categories|
    ensures forall i :: 0 <= i < |r| ==> r[i].category.id in db.categories && r[i] == CategoryRowOf(db, r[i].category.id)
  {
    CategoryRows(db, CategoryIdsByName(db))
  }

  /** Every category is listed exactly once, and the list is in ascending name order. */
  lemma ListCategoriesOrdered(db: Db)
    requires Keyed(db)
    ensures var r := ListCategories(db);
      && (forall id :: id in db.categories ==> exists i :: 0 <= i < |r| && r[i].category.id == id)
      && (forall i, j :: 0 <= i < j < |r| ==> r[i].category.id != r[j].category.id)
      && (forall i, j :: 0 <= i < j < |r| ==> LexLe(r[i].category.name, r[j].category.name))
  {
    var ids := CategoryIdsByName(db);
    var r := ListCategories(db);
    assert r == CategoryRows(db, ids);
    forall id | id in db.categories ensures exists i :: 0 <= i < |r| && r[i].category.id == id {
      var i :| 0 <= i < |ids| && ids[i] == id;
      assert r[i].category.id == id;
    }
    forall i, j | 0 <= i < j < |r|
      ensures r[i].category.id != r[j].category.id && LexLe(r[i].category.name, r[j].category.name)
    {
      assert LexLe(NameOf(db, ids[i]), NameOf(db, ids[j]));
    }
  }

  /** With unique names the order is strict: no two rows carry the same name. */
  lemma ListCategoriesStrictlyOrdered(db: Db)
    requires Valid(db)
    ensures var r := ListCategories(db);
      forall i, j :: 0 <= i < j < |r| ==> r[i].category.name != r[j].category.name
  {
    ListCategoriesOrdered(db);
  }

  /** GET /api/categories/:id. */
  function GetCategory(db: Db, id: nat): (r: Result<Category>)
    ensures r.Err? <==> id !in db.categories
    ensures r.Err? ==> r.error == NotFound
    ensures r.Ok? ==> r.value == db.categories[id]
  {
    if id in db.categories then Ok(db.categories[id]) else Err(NotFound)
  }

  /**
   * Soft-deleting a product that is not yet deleted lowers its category's
   * count by one and leaves every other count as it was.
   */
  lemma {:induction false} SoftDeleteLowersCount(db: Db, id: nat, now: Timestamp, categoryId: nat)
    requires id in db.products && db.products[id].deletedAt.None?
    ensures ProductCount(SoftDeleted(db, id, now), categoryId) ==
      if db.products[id].categoryId == Some(categoryId) then ProductCount(db, categoryId) - 1
      else ProductCount(db, categoryId)
  {
    var db' := SoftDeleted(db, id, now);
    if db.products[id].categoryId == Some(categoryId) {
      assert LiveProductsIn(db', categoryId) == LiveProductsIn(db, categoryId) - {id};
    } else {
      assert LiveProductsIn(db', categoryId) == LiveProductsIn(db, categoryId);
    }
  }

  /** Soft-deleting an already deleted product changes no count. */
  lemma RedeleteKeepsCounts(db: Db, id: nat, now: Timestamp, categoryId: nat)
    requires id in db.products && db.products[id].deletedAt.Some?
    ensures ProductCount(SoftDeleted(db, id, now), categoryId) == ProductCount(db, categoryId)
  {
    assert LiveProductsIn(SoftDeleted(db, id, now), categoryId) == LiveProductsIn(db, categoryId);
  }
}
