/**
 * The product handlers of backend/src/routes/products.ts: the read side
 * (list and detail) as functions of the table state, and the rules the
 * write handlers apply (partial update, soft delete, the intended create),
 * which the store class carries out.
 */
module Products {
  import opened Results
  import opened Schema
  import opened Ordering

  // ---------------------------------------------------------------------------
  // GET /api/products: the WHERE clause
  // ---------------------------------------------------------------------------

  /** The query string: `search` ("" when absent) and `category_id` (when given). */
  datatype ListQuery = ListQuery(search: string, categoryId: Option<int>)

  /** The query string with neither parameter. */
  const NoQuery: ListQuery := ListQuery("", None)

  /** One condition of the WHERE clause the handler assembles. */
  datatype Condition =
    | NameOrDescriptionLike(term: string)
    | CategoryIs(categoryId: int)
    | NotDeleted

  function LowerAscii(c: char): char {
    if 'A' <= c <= 'Z' then (c as int + 32) as char else c
  }

  predicate SameIgnoringAsciiCase(a: string, b: string) {
    |a| == |b| && forall i :: 0 <= i < |a| ==> LowerAscii(a[i]) == LowerAscii(b[i])
  }

  /** `term` occurs in `text` at position `i`, ASCII letters compared without case. */
  predicate OccursAt(text: string, term: string, i: int) {
    0 <= i <= |text| - |term| && SameIgnoringAsciiCase(text[i..i + |term|], term)
  }

  /** `text LIKE '%term%'`: `term` occurs somewhere in `text`. */
  predicate Like(text: string, term: string) {
    exists i | 0 <= i <= |text| - |term| :: OccursAt(text, term, i)
  }

  /** A text that contains the term, in any ASCII case, matches the LIKE pattern. */
  lemma LikeWhenContained(before: string, middle: string, after: string, term: string)
    requires SameIgnoringAsciiCase(middle, term)
    ensures Like(before + middle + after, term)
  {
    var text := before + middle + after;
    var i := |before|;
    assert text[i..i + |term|] == middle;
    assert OccursAt(text, term, i);
  }

  /** `(p.name LIKE ? OR p.description LIKE ?)`: a NULL description never matches. */
  predicate SearchHits(term: string, p: Product) {
    Like(p.name, term) || (p.description.Some? && Like(p.description.value, term))
  }

  predicate Holds(c: Condition, p: Product) {
    match c
    case NameOrDescriptionLike(term) => SearchHits(term, p)
    case CategoryIs(id) => p.categoryId.Some? && p.categoryId.value == id
    case NotDeleted => p.deletedAt.None?
  }

  /** The conjunction `conditions.join(" AND ")`; no conditions means no WHERE clause. */
  predicate Where(conds: seq<Condition>, p: Product) {
    forall c | c in conds :: Holds(c, p)
  }

  /** The conditions the handler pushes, in its order: search first, then category. */
  function Conditions(q: ListQuery): (r: seq<Condition>)
    ensures |r| == (if q.search != "" then 1 else 0) + (if q.categoryId.Some? then 1 else 0)
    ensures q.search != "" ==> r[0] == NameOrDescriptionLike(q.search)
    ensures q.categoryId.Some? ==> r[|r| - 1] == CategoryIs(q.categoryId.value)
  {
    (if q.search != "" then [NameOrDescriptionLike(q.search)] else [])
    + (if q.categoryId.Some? then [CategoryIs(q.categoryId.value)] else [])
  }

  /** What the list promises about a product, stated without the condition list. */
  predicate MatchesQuery(q: ListQuery, p: Product) {
    && (q.search == "" || SearchHits(q.search, p))
    && (q.categoryId.None? || (p.categoryId.Some? && p.categoryId.value == q.categoryId.value))
  }

  /** The assembled WHERE clause keeps exactly the products both filters accept. */
  lemma ConditionsMeaning(q: ListQuery)
    ensures forall p :: Where(Conditions(q), p) <==> MatchesQuery(q, p)
  {
    forall p ensures Where(Conditions(q), p) <==> MatchesQuery(q, p) {
      if q.search != "" {
        assert NameOrDescriptionLike(q.search) in Conditions(q);
      }
      if q.categoryId.Some? {
        assert CategoryIs(q.categoryId.value) in Conditions(q);
      }
    }
  }

  /** With `deleted_at IS NULL` added in front, the clause also drops soft-deleted products. */
  lemma CorrectedConditionsMeaning(q: ListQuery)
    ensures forall p :: Where([NotDeleted] + Conditions(q), p) <==> p.deletedAt.None? && MatchesQuery(q, p)
  {
    ConditionsMeaning(q);
    forall p ensures Where([NotDeleted] + Conditions(q), p) <==> p.deletedAt.None? && Where(Conditions(q), p) {
      assert NotDeleted in [NotDeleted] + Conditions(q);
      forall c | c in Conditions(q) ensures c in [NotDeleted] + Conditions(q) {
      }
    }
  }

  // ---------------------------------------------------------------------------
  // GET /api/products: the aggregates of the LEFT JOIN on variants
  // ---------------------------------------------------------------------------

  /** MIN over the ids: NULL for no rows. */
  function MinOf(ids: seq<nat>, f: nat -> int): (r: Option<int>)
    ensures r.None? <==> ids == []
    ensures r.Some? ==> (exists id :: id in ids && f(id) == r.value) && forall id :: id in ids ==> r.value <= f(id)
  {
    if ids == [] then None
    else
      assert ids == [ids[0]] + ids[1..];
      var m := MinOf(ids[1..], f);
      if m.None? || f(ids[0]) <= m.value then Some(f(ids[0])) else m
  }

  /** MAX over the ids: NULL for no rows. */
  function MaxOf(ids: seq<nat>, f: nat -> int): (r: Option<int>)
    ensures r.None? <==> ids == []
    ensures r.Some? ==> (exists id :: id in ids && f(id) == r.value) && forall id :: id in ids ==> f(id) <= r.value
  {
    if ids == [] then None
    else
      assert ids == [ids[0]] + ids[1..];
      var m := MaxOf(ids[1..], f);
      if m.None? || f(ids[0]) >= m.value then Some(f(ids[0])) else m
  }

  /** `COALESCE(SUM(...), 0)` over the ids. */
  function SumOf(ids: seq<nat>, f: nat -> int): (r: int)
    ensures ids == [] ==> r == 0
    ensures (forall id :: id in ids ==> f(id) >= 0) ==> r >= 0 && forall id :: id in ids ==> f(id) <= r
    ensures (forall id :: id in ids ==> f(id) >= 0) ==> (r == 0 <==> forall id :: id in ids ==> f(id) == 0)
  {
    if ids == [] then 0
    else
      assert ids == [ids[0]] + ids[1..];
      f(ids[0]) + SumOf(ids[1..], f)
  }

  /** SUM adds up: over two runs of rows it is the sum of the two sums, and over one row it is that row's value. */
  lemma {:induction false} SumOfAppend(a: seq<nat>, b: seq<nat>, f: nat -> int)
    ensures SumOf(a + b, f) == SumOf(a, f) + SumOf(b, f)
    ensures forall x :: SumOf([x], f) == f(x)
  {
    forall x ensures SumOf([x], f) == f(x) {
      assert [x][1..] == [];
    }
    if a == [] {
      assert a + b == b;
    } else {
      assert (a + b)[1..] == a[1..] + b;
      SumOfAppend(a[1..], b, f);
    }
  }

  /** Rows on which two value functions agree have the same sum. */
  lemma {:induction false} SumOfSame(ids: seq<nat>, f: nat -> int, g: nat -> int)
    requires forall y :: y in ids ==> g(y) == f(y)
    ensures SumOf(ids, g) == SumOf(ids, f)
  {
    if ids != [] {
      assert forall y :: y in ids[1..] ==> y in ids;
      SumOfSame(ids[1..], f, g);
    }
  }

  /** Raising the value of one row by `d`, the others unchanged, raises the sum by exactly `d`. */
  lemma {:induction false} SumOfBump(ids: seq<nat>, f: nat -> int, g: nat -> int, x: nat, d: int)
    requires Distinct(ids) && x in ids
    requires g(x) == f(x) + d
    requires forall y :: y in ids && y != x ==> g(y) == f(y)
    ensures SumOf(ids, g) == SumOf(ids, f) + d
  {
    var rest := ids[1..];
    assert forall y :: y in rest ==> y in ids;
    if ids[0] == x {
      assert x !in rest by {
        forall j | 0 <= j < |rest| ensures rest[j] != x {
          assert rest[j] == ids[j + 1];
        }
      }
      SumOfSame(rest, f, g);
    } else {
      assert x in rest;
      assert Distinct(rest) by {
        forall i, j | 0 <= i < j < |rest| ensures rest[i] != rest[j] {
          assert rest[i] == ids[i + 1] && rest[j] == ids[j + 1];
        }
      }
      SumOfBump(rest, f, g, x, d);
    }
  }

  /** The ids below `n` of the product's variants, ascending: a scan of the variants table in rowid order. */
  function VariantsBelow(variants: map<nat, Variant>, productId: nat, n: nat): (r: seq<nat>)
    ensures Increasing(r)
    ensures forall id {:trigger id in r} :: id in r <==> id < n && id in variants && variants[id].productId == productId
  {
    if n == 0 then []
    else
      var r := VariantsBelow(variants, productId, n - 1);
      assert forall i :: 0 <= i < |r| ==> r[i] in r;
      r + (if n - 1 in variants && variants[n - 1].productId == productId then [n - 1] else [])
  }

  /** The ids of the product's variants in scan order: the rows its LEFT JOIN groups. */
  function VariantsOf(db: Db, productId: nat): (r: seq<nat>)
    ensures Increasing(r)
    ensures Keyed(db) ==> forall id {:trigger id in r} :: id in r <==> id in VariantIdsOf(db, productId)
  {
    VariantsBelow(db.variants, productId, db.nextVariantId)
  }

  /** A product has as many variants in scan order as it has variants. */
  lemma VariantsOfCount(db: Db, productId: nat)
    requires Keyed(db)
    ensures |VariantsOf(db, productId)| == VariantCount(db, productId)
  {
    var r := VariantsOf(db, productId);
    IncreasingIsDistinct(r);
    assert ToSet(r) == VariantIdsOf(db, productId);
    DistinctSize(r);
  }

  function PriceOf(db: Db): nat -> int {
    id => if id in db.variants then db.variants[id].priceCents else 0
  }

  function InventoryOf(db: Db): nat -> int {
    id => if id in db.variants then db.variants[id].inventoryCount else 0
  }

  /** `m` is the lowest price among the product's variants, and one of them has it. */
  ghost predicate IsMinPrice(db: Db, productId: nat, m: int) {
    && (exists id :: id in db.variants && db.variants[id].productId == productId && db.variants[id].priceCents == m)
    && (forall id :: id in db.variants && db.variants[id].productId == productId ==> m <= db.variants[id].priceCents)
  }

  /** `m` is the highest price among the product's variants, and one of them has it. */
  ghost predicate IsMaxPrice(db: Db, productId: nat, m: int) {
    && (exists id :: id in db.variants && db.variants[id].productId == productId && db.variants[id].priceCents == m)
    && (forall id :: id in db.variants && db.variants[id].productId == productId ==> db.variants[id].priceCents <= m)
  }

  /** One row of the product list. */
  datatype ProductRow = ProductRow(
    product: Product,
    categoryName: Option<string>,
    variantCount: nat,
    minPriceCents: Option<int>,
    maxPriceCents: Option<int>,
    totalInventory: int)

  /** The grouped row of one product. */
  function RowOf(db: Db, id: nat): (r: ProductRow)
    requires Keyed(db) && id in db.products
    ensures r.product == db.products[id] && r.product.id == id
  {
    var p := db.products[id];
    var vs := VariantsOf(db, id);
    ProductRow(p, CategoryName(db, p), |vs|, MinOf(vs, PriceOf(db)), MaxOf(vs, PriceOf(db)), SumOf(vs, InventoryOf(db)))
  }

  /** The row counts the product's variants, and its category name is the joined one. */
  lemma RowCounts(db: Db, id: nat)
    requires Keyed(db) && id in db.products
    ensures RowOf(db, id).categoryName == CategoryName(db, db.products[id])
    ensures RowOf(db, id).variantCount == VariantCount(db, id)
  {
    VariantsOfCount(db, id);
  }

  /** The lowest price of a product's row: NULL without variants, otherwise the least of their prices. */
  lemma RowMinPrice(db: Db, id: nat)
    requires Valid(db) && id in db.products
    ensures var m := RowOf(db, id).minPriceCents;
      && (m.None? <==> VariantCount(db, id) == 0)
      && (m.Some? ==> IsMinPrice(db, id, m.value) && m.value >= 0)
  {
    VariantsOfCount(db, id);
    var vs := VariantsOf(db, id);
    var m := MinOf(vs, PriceOf(db));
    if m.Some? {
      var w :| w in vs && PriceOf(db)(w) == m.value;
      assert db.variants[w].priceCents == m.value;
      forall v | v in db.variants && db.variants[v].productId == id ensures m.value <= db.variants[v].priceCents {
        assert v in vs && PriceOf(db)(v) == db.variants[v].priceCents;
      }
    }
  }

  /** The highest price of a product's row: NULL without variants, otherwise the greatest of their prices. */
  lemma RowMaxPrice(db: Db, id: nat)
    requires Keyed(db) && id in db.products
    ensures var m := RowOf(db, id).maxPriceCents;
      && (m.None? <==> VariantCount(db, id) == 0)
      && (m.Some? ==> IsMaxPrice(db, id, m.value))
  {
    VariantsOfCount(db, id);
    var vs := VariantsOf(db, id);
    var m := MaxOf(vs, PriceOf(db));
    if m.Some? {
      var w :| w in vs && PriceOf(db)(w) == m.value;
      assert db.variants[w].priceCents == m.value;
      forall v | v in db.variants && db.variants[v].productId == id ensures db.variants[v].priceCents <= m.value {
        assert v in vs && PriceOf(db)(v) == db.variants[v].priceCents;
      }
    }
  }

  /** The inventory aggregate: 0 without variants, never negative, and at least each variant's count. */
  lemma RowInventory(db: Db, id: nat)
    requires Valid(db) && id in db.products
    ensures var r := RowOf(db, id);
      && (VariantCount(db, id) == 0 ==> r.totalInventory == 0)
      && r.totalInventory >= 0
      && (forall v :: v in VariantIdsOf(db, id) ==> db.variants[v].inventoryCount <= r.totalInventory)
  {
    VariantsOfCount(db, id);
    var vs := VariantsOf(db, id);
    assert forall v :: v in vs ==> v in db.variants && InventoryOf(db)(v) == db.variants[v].inventoryCount;
  }

  /** Scans of two variant tables with the same ids and the same owners yield the same ids. */
  lemma {:induction false} VariantsBelowSame(a: map<nat, Variant>, b: map<nat, Variant>, productId: nat, n: nat)
    requires a.Keys == b.Keys
    requires forall id :: id in a ==> a[id].productId == b[id].productId
    ensures VariantsBelow(a, productId, n) == VariantsBelow(b, productId, n)
  {
    if n > 0 {
      VariantsBelowSame(a, b, productId, n - 1);
    }
  }

  /**
   * The inventory aggregate is the SUM of the variants' counts: raising one
   * variant's `inventory_count` by `d` raises its product's `total_inventory`
   * by exactly `d`.
   */
  lemma RowInventoryBump(db: Db, id: nat, v: nat, d: int)
    requires Keyed(db) && id in db.products && v in VariantIdsOf(db, id)
    ensures var db' := db.(variants := db.variants[v := db.variants[v].(inventoryCount := db.variants[v].inventoryCount + d)]);
      && Keyed(db') && id in db'.products
      && RowOf(db', id).totalInventory == RowOf(db, id).totalInventory + d
  {
    var db' := db.(variants := db.variants[v := db.variants[v].(inventoryCount := db.variants[v].inventoryCount + d)]);
    VariantsBelowSame(db.variants, db'.variants, id, db.nextVariantId);
    var vs := VariantsOf(db, id);
    assert VariantsOf(db', id) == vs;
    IncreasingIsDistinct(vs);
    assert v in vs;
    SumOfBump(vs, InventoryOf(db), InventoryOf(db'), v, d);
  }

  /** The inventory aggregate is 0 exactly when every variant of the product has none. */
  lemma RowInventoryZero(db: Db, id: nat)
    requires Valid(db) && id in db.products
    ensures RowOf(db, id).totalInventory == 0 <==> forall v :: v in VariantIdsOf(db, id) ==> db.variants[v].inventoryCount == 0
  {
    var vs := VariantsOf(db, id);
    assert RowOf(db, id).totalInventory == SumOf(vs, InventoryOf(db));
    assert forall v :: v in vs <==> v in VariantIdsOf(db, id);
    assert forall v :: v in vs ==> v in db.variants && InventoryOf(db)(v) == db.variants[v].inventoryCount;
  }

  // ---------------------------------------------------------------------------
  // GET /api/products: the rows, one per product, newest first
  // ---------------------------------------------------------------------------

  /** The products the WHERE clause keeps. */
  function Matching(db: Db, conds: seq<Condition>): set<nat> {
    set id | id in db.products && Where(conds, db.products[id])
  }

  function CreatedAt(db: Db, id: nat): int {
    if id in db.products then db.products[id].createdAt else 0
  }

  /** The ids the grouped query keeps, `ORDER BY p.created_at DESC`. */
  function ListedIds(db: Db, conds: seq<Condition>): (ids: seq<nat>)
    requires Keyed(db)
    ensures Distinct(ids)
    ensures forall id :: id in ids <==> id in Matching(db, conds)
    ensures |ids| == |Matching(db, conds)|
    ensures forall i, j :: 0 <= i < j < |ids| ==> CreatedAt(db, ids[i]) >= CreatedAt(db, ids[j])
  {
    var scan := IdsBelow(db.products.Keys, db.nextProductId);
    IncreasingIsDistinct(scan);
    var hits := Select(scan, id => id in db.products && Where(conds, db.products[id]));
    assert ToSet(hits) == Matching(db, conds);
    DistinctSize(hits);
    var newestFirst := (a: nat, b: nat) => CreatedAt(db, a) >= CreatedAt(db, b);
    assert TotalPreorder(newestFirst);
    SortIds(hits, newestFirst)
  }

  /** The rows of the given products, in the given order. */
  function Rows(db: Db, ids: seq<nat>): (r: seq<ProductRow>)
    requires Keyed(db)
    requires forall id :: id in ids ==> id in db.products
    ensures |r| == |ids|
    ensures forall i :: 0 <= i < |r| ==> r[i] == RowOf(db, ids[i])
  {
    seq(|ids|, i requires 0 <= i < |ids| => RowOf(db, ids[i]))
  }

  lemma RowsOfIds(db: Db, ids: seq<nat>)
    requires Keyed(db)
    requires forall id :: id in ids ==> id in db.products
    ensures var r := Rows(db, ids);
      && (forall i :: 0 <= i < |r| ==> r[i].product.id == ids[i] && r[i].product == db.products[ids[i]])
      && (forall id :: id in ids ==> exists i :: 0 <= i < |r| && r[i].product.id == id)
  {
    var r := Rows(db, ids);
    forall id | id in ids ensures exists i :: 0 <= i < |r| && r[i].product.id == id {
      var i :| 0 <= i < |ids| && ids[i] == id;
      assert r[i].product.id == id;
    }
  }

  /** Rows listed in the order of `ids` inherit its lack of repetitions and its creation-time order. */
  lemma RowsFollowIds(db: Db, ids: seq<nat>)
    requires Keyed(db)
    requires forall id :: id in ids ==> id in db.products
    requires Distinct(ids)
    requires forall i, j :: 0 <= i < j < |ids| ==> CreatedAt(db, ids[i]) >= CreatedAt(db, ids[j])
    ensures var r := Rows(db, ids);
      && (forall i, j :: 0 <= i < j < |r| ==> r[i].product.id != r[j].product.id)
      && (forall i, j :: 0 <= i < j < |r| ==> r[i].product.createdAt >= r[j].product.createdAt)
  {
    RowsOfIds(db, ids);
  }

  /** The grouped query `... WHERE conds GROUP BY p.id ORDER BY p.created_at DESC`. */
  function ListRows(db: Db, conds: seq<Condition>): (r: seq<ProductRow>)
    requires Keyed(db)
    ensures |r| == |Matching(db, conds)|
    ensures forall i :: 0 <= i < |r| ==> r[i].product.id in Matching(db, conds) && r[i] == RowOf(db, r[i].product.id)
  {
    var ids := ListedIds(db, conds);
    RowsOfIds(db, ids);
    Rows(db, ids)
  }

  /** Every product the WHERE clause keeps has a row. */
  lemma ListRowsComplete(db: Db, conds: seq<Condition>, id: nat)
    requires Keyed(db)
    requires id in db.products && Where(conds, db.products[id])
    ensures exists i :: 0 <= i < |ListRows(db, conds)| && ListRows(db, conds)[i].product.id == id
  {
    var ids := ListedIds(db, conds);
    RowsOfIds(db, ids);
    assert id in Matching(db, conds);
    assert ListRows(db, conds) == Rows(db, ids);
  }

  /** The rows are newest first, one per product. */
  lemma ListRowsOrdered(db: Db, conds: seq<Condition>)
    requires Keyed(db)
    ensures var r := ListRows(db, conds);
      && (forall i, j :: 0 <= i < j < |r| ==> r[i].product.id != r[j].product.id)
      && (forall i, j :: 0 <= i < j < |r| ==> r[i].product.createdAt >= r[j].product.createdAt)
  {
    var ids := ListedIds(db, conds);
    RowsFollowIds(db, ids);
    assert ListRows(db, conds) == Rows(db, ids);
  }

  /** GET /api/products exactly as the query is written: it has no `deleted_at IS NULL`. */
  function ListProductsAsWritten(db: Db, q: ListQuery): (r: seq<ProductRow>)
    requires Keyed(db)
    ensures forall i :: 0 <= i < |r| ==>
      && r[i].product.id in db.products
      && MatchesQuery(q, r[i].product)
      && r[i] == RowOf(db, r[i].product.id)
  {
    ConditionsMeaning(q);
    ListRows(db, Conditions(q))
  }

  /** A soft-deleted product is listed by the query as written. */
  lemma AsWrittenListsDeleted(db: Db, id: nat)
    requires Keyed(db)
    requires id in db.products && db.products[id].deletedAt.Some?
    ensures exists row :: row in ListProductsAsWritten(db, NoQuery) && row.product == db.products[id]
  {
    var r := ListProductsAsWritten(db, NoQuery);
    ConditionsMeaning(NoQuery);
    ListRowsComplete(db, Conditions(NoQuery), id);
    assert r == ListRows(db, Conditions(NoQuery));
    var i :| 0 <= i < |r| && r[i].product.id == id;
    assert r[i] in r;
  }

  /**
   * GET /api/products as the tests require it: the WHERE clause also holds
   * `p.deleted_at IS NULL`, so soft-deleted products are never listed.
   */
  function ListProducts(db: Db, q: ListQuery): (r: seq<ProductRow>)
    requires Keyed(db)
    ensures forall i :: 0 <= i < |r| ==>
      && r[i].product.id in db.products
      && r[i].product.deletedAt.None?
      && MatchesQuery(q, r[i].product)
      && r[i] == RowOf(db, r[i].product.id)
  {
    CorrectedConditionsMeaning(q);
    ListRows(db, [NotDeleted] + Conditions(q))
  }

  /** Every product that is not deleted and passes the filters is listed. */
  lemma ListProductsComplete(db: Db, q: ListQuery, id: nat)
    requires Keyed(db)
    requires id in db.products && db.products[id].deletedAt.None? && MatchesQuery(q, db.products[id])
    ensures exists i :: 0 <= i < |ListProducts(db, q)| && ListProducts(db, q)[i].product.id == id
  {
    CorrectedConditionsMeaning(q);
    ListRowsComplete(db, [NotDeleted] + Conditions(q), id);
    assert ListProducts(db, q) == ListRows(db, [NotDeleted] + Conditions(q));
  }

  /** The list is newest first and names each product once. */
  lemma ListProductsOrdered(db: Db, q: ListQuery)
    requires Keyed(db)
    ensures var r := ListProducts(db, q);
      && (forall i, j :: 0 <= i < j < |r| ==> r[i].product.id != r[j].product.id)
      && (forall i, j :: 0 <= i < j < |r| ==> r[i].product.createdAt >= r[j].product.createdAt)
  {
    ListRowsOrdered(db, [NotDeleted] + Conditions(q));
    assert ListProducts(db, q) == ListRows(db, [NotDeleted] + Conditions(q));
  }

  /** The soft-deleted products. */
  function DeletedIds(db: Db): set<nat> {
    set id | id in db.products && db.products[id].deletedAt.Some?
  }

  /** Unfiltered, the list has one row per product that is not soft-deleted. */
  lemma ListCountsUndeleted(db: Db)
    requires Keyed(db)
    ensures |ListProducts(db, NoQuery)| == |db.products| - |DeletedIds(db)|
  {
    var conds := [NotDeleted] + Conditions(NoQuery);
    CorrectedConditionsMeaning(NoQuery);
    var live := Matching(db, conds);
    assert live == db.products.Keys - DeletedIds(db);
    assert db.products.Keys == live + DeletedIds(db);
    assert |db.products.Keys| == |db.products|;
  }

  // ---------------------------------------------------------------------------
  // GET /api/products/:id
  // ---------------------------------------------------------------------------

  /** The product with its category name and its variants. */
  datatype ProductDetail = ProductDetail(product: Product, categoryName: Option<string>, variants: seq<Variant>)

  function VariantCreatedAt(variants: map<nat, Variant>, id: nat): int {
    if id in variants then variants[id].createdAt else 0
  }

  /** The product's variant ids `ORDER BY created_at ASC`. */
  function DetailIds(db: Db, productId: nat): (ids: seq<nat>)
    requires Keyed(db)
    ensures Distinct(ids)
    ensures forall v :: v in ids <==> v in VariantIdsOf(db, productId)
    ensures |ids| == VariantCount(db, productId)
    ensures forall i, j :: 0 <= i < j < |ids| ==> VariantCreatedAt(db.variants, ids[i]) <= VariantCreatedAt(db.variants, ids[j])
  {
    var scan := VariantsOf(db, productId);
    VariantsOfCount(db, productId);
    IncreasingIsDistinct(scan);
    var oldestFirst := (a: nat, b: nat) => VariantCreatedAt(db.variants, a) <= VariantCreatedAt(db.variants, b);
    assert TotalPreorder(oldestFirst);
    SortIds(scan, oldestFirst)
  }

  /** The variant rows of the given ids, in their order. */
  function VariantRows(variants: map<nat, Variant>, ids: seq<nat>): (r: seq<Variant>)
    requires forall id :: id in ids ==> id in variants
    ensures |r| == |ids|
    ensures forall i :: 0 <= i < |r| ==> r[i] == variants[ids[i]]
  {
    seq(|ids|, i requires 0 <= i < |ids| => variants[ids[i]])
  }

  /**
   * The product with its variants, oldest first. Soft-deleted products are
   * returned like any other.
   */
  function GetProduct(db: Db, id: nat): (r: Result<ProductDetail>)
    requires Keyed(db)
    ensures r.Err? <==> id !in db.products
    ensures r.Err? ==> r.error == NotFound
    ensures r.Ok? ==>
      && r.value.product == db.products[id]
      && r.value.categoryName == CategoryName(db, db.products[id])
      && |r.value.variants| == VariantCount(db, id)
  {
    if id !in db.products then Err(NotFound)
    else
      var p := db.products[id];
      Ok(ProductDetail(p, CategoryName(db, p), VariantRows(db.variants, DetailIds(db, id))))
  }

  /** Rows fetched for a repetition-free, oldest-first list of ids keep those properties. */
  lemma VariantRowsFollowIds(variants: map<nat, Variant>, ids: seq<nat>)
    requires forall id :: id in ids ==> id in variants && variants[id].id == id
    requires Distinct(ids)
    requires forall i, j :: 0 <= i < j < |ids| ==> VariantCreatedAt(variants, ids[i]) <= VariantCreatedAt(variants, ids[j])
    ensures var vs := VariantRows(variants, ids);
      && (forall i :: 0 <= i < |vs| ==> vs[i].id == ids[i])
      && (forall v :: v in ids ==> exists i :: 0 <= i < |vs| && vs[i].id == v)
      && (forall i, j :: 0 <= i < j < |vs| ==> vs[i].id != vs[j].id && vs[i].createdAt <= vs[j].createdAt)
  {
    var vs := VariantRows(variants, ids);
    forall v | v in ids ensures exists i :: 0 <= i < |vs| && vs[i].id == v {
      var i :| 0 <= i < |ids| && ids[i] == v;
      assert vs[i].id == v;
    }
  }

  /** The detail lists every variant of the product once, oldest first. */
  lemma GetProductVariants(db: Db, id: nat)
    requires Keyed(db) && id in db.products
    ensures var vs := GetProduct(db, id).value.variants;
      && (forall i :: 0 <= i < |vs| ==> vs[i].id in VariantIdsOf(db, id) && vs[i] == db.variants[vs[i].id])
      && (forall v :: v in VariantIdsOf(db, id) ==> exists i :: 0 <= i < |vs| && vs[i].id == v)
      && (forall i, j :: 0 <= i < j < |vs| ==> vs[i].id != vs[j].id && vs[i].createdAt <= vs[j].createdAt)
  {
    var ids := DetailIds(db, id);
    VariantRowsFollowIds(db.variants, ids);
    assert GetProduct(db, id).value.variants == VariantRows(db.variants, ids);
  }

  // ---------------------------------------------------------------------------
  // PUT /api/products/:id
  // ---------------------------------------------------------------------------

  /** `SELECT p.*, c.name AS category_name`: what the update answers with. */
  datatype ProductView = ProductView(product: Product, categoryName: Option<string>)

  /** The body fields the handler reads; `None` stands for absent or null. */
  datatype ProductPatch = ProductPatch(
    name: Option<string>,
    description: Option<string>,
    categoryId: Option<nat>,
    status: Option<string>)

  /** `SET name = COALESCE(?, name), ..., updated_at = datetime('now')`. */
  function Coalesce(p: Product, patch: ProductPatch, now: Timestamp): (r: Product)
    ensures patch.name.Some? ==> r.name == patch.name.value
    ensures patch.name.None? ==> r.name == p.name
    ensures patch.description.Some? ==> r.description == patch.description
    ensures patch.description.None? ==> r.description == p.description
    ensures patch.categoryId.Some? ==> r.categoryId == patch.categoryId
    ensures patch.categoryId.None? ==> r.categoryId == p.categoryId
    ensures patch.status.Some? ==> r.status == patch.status.value
    ensures patch.status.None? ==> r.status == p.status
    ensures r.id == p.id && r.deletedAt == p.deletedAt && r.createdAt == p.createdAt && r.updatedAt == now
  {
    p.(name := patch.name.GetOr(p.name),
       description := if patch.description.Some? then patch.description else p.description,
       categoryId := if patch.categoryId.Some? then patch.categoryId else p.categoryId,
       status := patch.status.GetOr(p.status),
       updatedAt := now)
  }

  /** The constraint the UPDATE statement violates, if any: the status CHECK, then the category foreign key. */
  function PatchFault(db: Db, patch: ProductPatch): Option<Fault> {
    if patch.status.Some? && !IsStatus(patch.status.value) then Some(StatusCheck)
    else if patch.categoryId.Some? && patch.categoryId.value !in db.categories then Some(ForeignKey)
    else None
  }

  function Patched(db: Db, id: nat, patch: ProductPatch, now: Timestamp): Db
    requires id in db.products
  {
    db.(products := db.products[id := Coalesce(db.products[id], patch, now)])
  }

  /** The store accepts the UPDATE exactly when the patched tables still satisfy the schema. */
  lemma PatchKeepsSchema(db: Db, id: nat, patch: ProductPatch, now: Timestamp)
    requires Valid(db) && id in db.products
    ensures PatchFault(db, patch).None? <==> Valid(Patched(db, id, patch, now))
  {
    var db' := Patched(db, id, patch, now);
    if PatchFault(db, patch).Some? {
      assert !ProductRowsValid(db') by {
        assert id in db'.products;
      }
    }
  }

  /** An empty patch only refreshes `updated_at`. */
  lemma EmptyPatchTouchesOnlyUpdatedAt(p: Product, now: Timestamp)
    ensures Coalesce(p, ProductPatch(None, None, None, None), now) == p.(updatedAt := now)
  {
  }

  // ---------------------------------------------------------------------------
  // DELETE /api/products/:id
  // ---------------------------------------------------------------------------

  /** A soft-deleted product leaves every listing, whatever the query. */
  lemma SoftDeleteHides(db: Db, id: nat, now: Timestamp, q: ListQuery)
    requires Keyed(db) && id in db.products
    ensures forall i :: 0 <= i < |ListProducts(SoftDeleted(db, id, now), q)| ==>
      ListProducts(SoftDeleted(db, id, now), q)[i].product.id != id
  {
  }

  /** Soft delete keeps the row and its variants: the detail is still found, with the same variants. */
  lemma SoftDeleteKeepsDetail(db: Db, id: nat, now: Timestamp)
    requires Keyed(db) && id in db.products
    ensures GetProduct(SoftDeleted(db, id, now), id).Ok?
    ensures GetProduct(SoftDeleted(db, id, now), id).value.variants == GetProduct(db, id).value.variants
    ensures GetProduct(SoftDeleted(db, id, now), id).value.product.deletedAt == Some(now)
  {
    var db' := SoftDeleted(db, id, now);
    assert db'.variants == db.variants && db'.nextVariantId == db.nextVariantId;
    assert DetailIds(db', id) == DetailIds(db, id);
  }

  // ---------------------------------------------------------------------------
  // POST /api/products (a stub answering 501; its intended contract)
  // ---------------------------------------------------------------------------

  /** One entry of the `variants` array; `None` for a field that is absent. */
  datatype VariantInput = VariantInput(sku: Option<string>, name: Option<string>, priceCents: int, inventoryCount: int)

  /** The request body; an absent `variants` array is the empty one. */
  datatype ProductInput = ProductInput(
    name: Option<string>,
    description: Option<string>,
    categoryId: Option<nat>,
    status: Option<string>,
    variants: seq<VariantInput>)

  predicate IsSpace(c: char) {
    c == ' ' || c == '\t' || c == '\n' || c == '\r'
  }

  /** Given, and not empty after trimming. */
  predicate Present(s: Option<string>) {
    s.Some? && exists i | 0 <= i < |s.value| :: !IsSpace(s.value[i])
  }

  /** Whether an entry before position `k` already carries `sku`. */
  predicate SkuBefore(vs: seq<VariantInput>, k: nat, sku: string)
    requires k <= |vs|
  {
    exists j | 0 <= j < k :: vs[j].sku == Some(sku)
  }

  /** The first thing wrong with entry `k`, in the order the handler is to check it. */
  function EntryProblem(db: Db, vs: seq<VariantInput>, k: nat): Option<VariantProblem>
    requires k < |vs|
  {
    var v := vs[k];
    if !Present(v.sku) then Some(SkuRequired)
    else if SkuTaken(db, v.sku.value) || SkuBefore(vs, k, v.sku.value) then Some(DuplicateSku)
    else if !Present(v.name) then Some(VariantNameRequired)
    else if v.priceCents < 0 then Some(NegativePrice)
    else if v.inventoryCount < 0 then Some(NegativeInventory)
    else None
  }

  /** Fail-fast validation of the entries from `k` on: the first problem found, if any. */
  function VariantsProblem(db: Db, vs: seq<VariantInput>, k: nat): (r: Option<Reason>)
    requires k <= |vs|
    decreases |vs| - k
    ensures r.None? <==> forall i :: k <= i < |vs| ==> EntryProblem(db, vs, i).None?
    ensures r.Some? ==>
      && r.value.BadVariant? && k <= r.value.index < |vs|
      && EntryProblem(db, vs, r.value.index) == Some(r.value.problem)
      && (forall i :: k <= i < r.value.index ==> EntryProblem(db, vs, i).None?)
  {
    if k == |vs| then None
    else
      var e := EntryProblem(db, vs, k);
      if e.Some? then Some(BadVariant(k, e.value)) else VariantsProblem(db, vs, k + 1)
  }

  /** Fail-fast validation of a create request: the first problem found, if any. */
  function CreateProblem(db: Db, input: ProductInput): Option<Reason> {
    if !Present(input.name) then Some(ProductNameRequired)
    else if input.status.Some? && !IsStatus(input.status.value) then Some(InvalidStatus)
    else if input.categoryId.Some? && input.categoryId.value !in db.categories then Some(UnknownCategory)
    else if |input.variants| == 0 then Some(VariantsRequired)
    else VariantsProblem(db, input.variants, 0)
  }

  /** What an accepted create request satisfies, stated without the order of the checks. */
  ghost predicate CreateAcceptable(db: Db, input: ProductInput) {
    var vs := input.variants;
    && Present(input.name)
    && (input.status.Some? ==> IsStatus(input.status.value))
    && (input.categoryId.Some? ==> input.categoryId.value in db.categories)
    && |vs| > 0
    && (forall k :: 0 <= k < |vs| ==>
          && Present(vs[k].sku) && Present(vs[k].name)
          && vs[k].priceCents >= 0 && vs[k].inventoryCount >= 0
          && !SkuTaken(db, vs[k].sku.value))
    && (forall j, k :: 0 <= j < k < |vs| ==> vs[j].sku != vs[k].sku)
  }

  /** The validation rejects a request exactly when it breaks one of the stated rules. */
  lemma CreateProblemExact(db: Db, input: ProductInput)
    ensures CreateProblem(db, input).None? <==> CreateAcceptable(db, input)
  {
    var vs := input.variants;
    if CreateProblem(db, input).None? {
      forall k | 0 <= k < |vs|
        ensures Present(vs[k].sku) && Present(vs[k].name)
        ensures vs[k].priceCents >= 0 && vs[k].inventoryCount >= 0 && !SkuTaken(db, vs[k].sku.value)
      {
        assert EntryProblem(db, vs, k).None?;
      }
      forall j, k | 0 <= j < k < |vs| ensures vs[j].sku != vs[k].sku {
        assert EntryProblem(db, vs, k).None?;
        if vs[j].sku == vs[k].sku {
          assert SkuBefore(vs, k, vs[k].sku.value);
        }
      }
    }
    if CreateAcceptable(db, input) {
      forall k | 0 <= k < |vs| ensures EntryProblem(db, vs, k).None? {
      }
      assert VariantsProblem(db, vs, 0).None?;
    }
  }

  /** The product row the intended handler inserts; the status defaults to active. */
  function NewProduct(id: nat, input: ProductInput, now: Timestamp): Product
    requires input.name.Some?
  {
    Product(id, input.name.value, input.description, input.categoryId,
            input.status.GetOr(DefaultStatus), None, now, now)
  }

  /** The values of the variant rows an accepted request inserts, in request order. */
  function Entries(vs: seq<VariantInput>): (r: seq<VariantValues>)
    requires forall k :: 0 <= k < |vs| ==> vs[k].sku.Some? && vs[k].name.Some?
    ensures |r| == |vs|
    ensures forall k :: 0 <= k < |r| ==>
      r[k] == VariantValues(vs[k].sku.value, vs[k].name.value, vs[k].priceCents, vs[k].inventoryCount)
  {
    seq(|vs|, k requires 0 <= k < |vs| => VariantValues(vs[k].sku.value, vs[k].name.value, vs[k].priceCents, vs[k].inventoryCount))
  }

  /**
   * The tables after the intended create: the product row, then one variant
   * row per entry, all in one transaction.
   */
  function Created(db: Db, input: ProductInput, now: Timestamp): Db
    requires CreateProblem(db, input).None?
  {
    CreateProblemExact(db, input);
    var pid := db.nextProductId;
    db.(products := db.products[pid := NewProduct(pid, input, now)],
        variants := AddVariants(db.variants, pid, Entries(input.variants), db.nextVariantId, now),
        nextProductId := pid + 1,
        nextVariantId := db.nextVariantId + |input.variants|)
  }

  /** The response to an accepted create: the new product, its category's name and the new variant rows in request order. */
  function CreatedDetail(db: Db, input: ProductInput, now: Timestamp): ProductDetail
    requires CreateProblem(db, input).None?
  {
    CreateProblemExact(db, input);
    var product := NewProduct(db.nextProductId, input, now);
    ProductDetail(product, CategoryName(db, product), InsertedRows(db.nextProductId, Entries(input.variants), db.nextVariantId, now))
  }

  /**
   * The response shows the tables after the create: the stored product, the
   * name of its stored category, and one variant per entry in the request.
   */
  lemma CreatedDetailMatches(db: Db, input: ProductInput, now: Timestamp)
    requires CreateProblem(db, input).None?
    ensures CreatedDetail(db, input, now).product == Created(db, input, now).products[db.nextProductId]
    ensures CreatedDetail(db, input, now).categoryName == CategoryName(Created(db, input, now), CreatedDetail(db, input, now).product)
    ensures |CreatedDetail(db, input, now).variants| == |input.variants|
  {
    CreateProblemExact(db, input);
  }

  /** The k-th variant of the create's answer is the row stored under the k-th new variant id. */
  lemma CreatedVariantAt(db: Db, input: ProductInput, now: Timestamp, k: nat)
    requires CreateProblem(db, input).None? && k < |input.variants|
    ensures db.nextVariantId + k in Created(db, input, now).variants
    ensures CreatedDetail(db, input, now).variants[k] == Created(db, input, now).variants[db.nextVariantId + k]
  {
    CreateProblemExact(db, input);
    InsertedRowAt(db.variants, db.nextProductId, Entries(input.variants), db.nextVariantId, now, k);
  }

  /** An accepted create leaves the tables satisfying the schema, so the transaction commits. */
  lemma CreatedKeepsSchema(db: Db, input: ProductInput, now: Timestamp)
    requires Valid(db) && CreateProblem(db, input).None?
    ensures Valid(Created(db, input, now))
  {
    CreateProblemExact(db, input);
    var pid := db.nextProductId;
    var vs := input.variants;
    var rows := Entries(vs);
    var db1 := db.(products := db.products[pid := NewProduct(pid, input, now)], nextProductId := pid + 1);
    assert Valid(db1);
    assert FreshSkus(db1, rows) by {
      forall j, k | 0 <= j < k < |rows| ensures rows[j].sku != rows[k].sku {
        assert vs[j].sku != vs[k].sku;
      }
    }
    AddedVariantsKeepSchema(db1, pid, rows, now);
  }

  /** The create adds exactly one product, with the request's fields and not deleted, and keeps every other. */
  lemma CreatedProduct(db: Db, input: ProductInput, now: Timestamp)
    requires Keyed(db) && CreateProblem(db, input).None?
    ensures var db' := Created(db, input, now); var pid := db.nextProductId;
      && pid !in db.products
      && db'.products.Keys == db.products.Keys + {pid}
      && (forall id :: id in db.products ==> db'.products[id] == db.products[id])
      && Some(db'.products[pid].name) == input.name
      && db'.products[pid].status == input.status.GetOr(DefaultStatus)
      && db'.products[pid].categoryId == input.categoryId
      && db'.products[pid].description == input.description
      && db'.products[pid].deletedAt.None?
  {
  }

  /** The product the create adds has exactly one variant per entry. */
  lemma CreatedVariantIds(db: Db, input: ProductInput, now: Timestamp)
    requires Valid(db) && CreateProblem(db, input).None?
    ensures var db' := Created(db, input, now);
      && VariantIdsOf(db', db.nextProductId) == Range(db.nextVariantId, |input.variants|)
      && VariantCount(db', db.nextProductId) == |input.variants|
  {
    var db' := Created(db, input, now);
    CreateProblemExact(db, input);
    AddedVariantsOf(db, db.nextProductId, Entries(input.variants), now);
    assert db' == db.(variants := db'.variants).(products := db'.products, nextProductId := db'.nextProductId, nextVariantId := db'.nextVariantId);
    assert VariantIdsOf(db', db.nextProductId) == VariantIdsOf(db.(variants := db'.variants), db.nextProductId);
  }

  /** The new variants carry their entries' fields, in request order, and every existing variant is kept. */
  lemma CreatedVariantValues(db: Db, input: ProductInput, now: Timestamp)
    requires Keyed(db) && CreateProblem(db, input).None?
    ensures var db' := Created(db, input, now);
      && (forall k :: 0 <= k < |input.variants| ==>
            && db.nextVariantId + k in db'.variants
            && Some(db'.variants[db.nextVariantId + k].sku) == input.variants[k].sku
            && db'.variants[db.nextVariantId + k].priceCents == input.variants[k].priceCents
            && db'.variants[db.nextVariantId + k].inventoryCount == input.variants[k].inventoryCount)
      && (forall id :: id in db.variants ==> id in db'.variants && db'.variants[id] == db.variants[id])
  {
    CreateProblemExact(db, input);
    var rows := Entries(input.variants);
    var db' := Created(db, input, now);
    AddVariantsRows(db.variants, db.nextProductId, rows, db.nextVariantId, now);
    forall k | 0 <= k < |input.variants|
      ensures db.nextVariantId + k in db'.variants
      ensures db'.variants[db.nextVariantId + k] == VariantRow(db.nextVariantId + k, db.nextProductId, rows[k], now)
    {
      AddedRowAt(db.variants, db.nextProductId, rows, db.nextVariantId, now, k);
    }
  }
}
