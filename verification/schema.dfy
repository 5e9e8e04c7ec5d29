/**
 * The three tables of the catalog and the constraints their CREATE TABLE
 * statements declare (backend/src/seed.ts, lines 24-52), stated as one
 * invariant over the table state.
 */
module Schema {
  import opened Results
  import opened Ordering

  /** A `datetime('now')` value; treated as an opaque, ordered, caller-supplied clock reading. */
  type Timestamp = nat

  datatype Category = Category(
    id: nat,
    name: string,
    description: Option<string>,
    createdAt: Timestamp,
    updatedAt: Timestamp)

  datatype Product = Product(
    id: nat,
    name: string,
    description: Option<string>,
    categoryId: Option<nat>,
    status: string,
    deletedAt: Option<Timestamp>,
    createdAt: Timestamp,
    updatedAt: Timestamp)

  datatype Variant = Variant(
    id: nat,
    productId: nat,
    sku: string,
    name: string,
    priceCents: int,
    inventoryCount: int,
    createdAt: Timestamp,
    updatedAt: Timestamp)

  /**
   * The table state: rows keyed by their INTEGER PRIMARY KEY, and for each
   * table the next AUTOINCREMENT id.
   */
  datatype Db = Db(
    categories: map<nat, Category>,
    products: map<nat, Product>,
    variants: map<nat, Variant>,
    nextCategoryId: nat,
    nextProductId: nat,
    nextVariantId: nat)

  /** Freshly created tables: empty, and AUTOINCREMENT hands out 1 first. */
  function Empty(): (db: Db)
    ensures Valid(db)
  {
    Db(map[], map[], map[], 1, 1, 1)
  }

  const DefaultStatus: string := "active"

  /** CHECK(status IN ('active','draft','archived')). */
  predicate IsStatus(s: string) {
    s == "active" || s == "draft" || s == "archived"
  }

  // ---------------------------------------------------------------------------
  // Constraints
  // ---------------------------------------------------------------------------

  /** Each row sits under its own id, and every id is below its table's AUTOINCREMENT counter. */
  ghost predicate Keyed(db: Db) {
    && (forall id :: id in db.categories ==> db.categories[id].id == id && id < db.nextCategoryId)
    && (forall id :: id in db.products ==> db.products[id].id == id && id < db.nextProductId)
    && (forall id :: id in db.variants ==> db.variants[id].id == id && id < db.nextVariantId)
  }

  /** categories.name is UNIQUE. */
  ghost predicate CategoryNamesUnique(db: Db) {
    forall a, b :: a in db.categories && b in db.categories && a != b ==>
      db.categories[a].name != db.categories[b].name
  }

  /** products.status passes its CHECK; products.category_id, when set, REFERENCES categories(id). */
  ghost predicate ProductRowsValid(db: Db) {
    forall id :: id in db.products ==>
      && IsStatus(db.products[id].status)
      && (db.products[id].categoryId.Some? ==> db.products[id].categoryId.value in db.categories)
  }

  /** variants.product_id REFERENCES products(id); price_cents and inventory_count pass CHECK(... >= 0). */
  ghost predicate VariantRowsValid(db: Db) {
    forall id :: id in db.variants ==>
      && db.variants[id].productId in db.products
      && db.variants[id].priceCents >= 0
      && db.variants[id].inventoryCount >= 0
  }

  /** variants.sku is UNIQUE (exact comparison, the default BINARY collation). */
  ghost predicate SkusUnique(db: Db) {
    forall a, b :: a in db.variants && b in db.variants && a != b ==>
      db.variants[a].sku != db.variants[b].sku
  }

  ghost predicate Valid(db: Db) {
    && Keyed(db)
    && CategoryNamesUnique(db)
    && ProductRowsValid(db)
    && VariantRowsValid(db)
    && SkusUnique(db)
  }

  // ---------------------------------------------------------------------------
  // Derived facts used by several handlers
  // ---------------------------------------------------------------------------

  /** Whether some variant already carries `sku`. */
  predicate SkuTaken(db: Db, sku: string) {
    exists id | id in db.variants :: db.variants[id].sku == sku
  }

  /** Whether some category already carries `name`. */
  predicate CategoryNameTaken(db: Db, name: string) {
    exists id | id in db.categories :: db.categories[id].name == name
  }

  /** The ids of the variants whose product_id is `productId`. */
  function VariantIdsOf(db: Db, productId: nat): set<nat> {
    set id | id in db.variants && db.variants[id].productId == productId
  }

  function VariantCount(db: Db, productId: nat): nat {
    |VariantIdsOf(db, productId)|
  }

  /** `c.name` of `LEFT JOIN categories c ON p.category_id = c.id`: null when there is no match. */
  function CategoryName(db: Db, p: Product): Option<string> {
    if p.categoryId.Some? && p.categoryId.value in db.categories then
      Some(db.categories[p.categoryId.value].name)
    else None
  }

  /** The tables after `UPDATE products SET deleted_at = now, updated_at = now WHERE id = ?`. */
  function SoftDeleted(db: Db, id: nat, now: Timestamp): (db': Db)
    requires id in db.products
    ensures Keyed(db) ==> Keyed(db')
    ensures Valid(db) ==> Valid(db')
  {
    db.(products := db.products[id := db.products[id].(deletedAt := Some(now), updatedAt := now)])
  }

  /** The tables after `DELETE FROM variants WHERE id = ?`. */
  function WithoutVariant(db: Db, id: nat): (db': Db)
    ensures Keyed(db) ==> Keyed(db')
    ensures Valid(db) ==> Valid(db')
  {
    db.(variants := db.variants - {id})
  }

  // ---------------------------------------------------------------------------
  // Inserting variant rows
  // ---------------------------------------------------------------------------

  /** The values one `INSERT INTO variants (product_id, sku, name, price_cents, inventory_count)` supplies. */
  datatype VariantValues = VariantValues(sku: string, name: string, priceCents: int, inventoryCount: int)

  /** The row such an insert creates; both timestamps default to the insert time. */
  function VariantRow(id: nat, productId: nat, v: VariantValues, now: Timestamp): Variant {
    Variant(id, productId, v.sku, v.name, v.priceCents, v.inventoryCount, now, now)
  }

  /** The variants table after inserting `rows` for `productId` one by one, the first receiving id `next`. */
  function AddVariants(variants: map<nat, Variant>, productId: nat, rows: seq<VariantValues>, next: nat, now: Timestamp): map<nat, Variant> {
    if rows == [] then variants
    else
      var last := next + |rows| - 1;
      AddVariants(variants, productId, rows[..|rows| - 1], next, now)[last := VariantRow(last, productId, rows[|rows| - 1], now)]
  }

  /**
   * The inserts add exactly the ids `next` to `next + |rows| - 1` and leave
   * every other row alone.
   */
  lemma {:induction false} AddVariantsRows(variants: map<nat, Variant>, productId: nat, rows: seq<VariantValues>, next: nat, now: Timestamp)
    ensures var r := AddVariants(variants, productId, rows, next, now);
      && (forall id :: id in r <==> id in variants || next <= id < next + |rows|)
      && (forall id :: id in variants && !(next <= id < next + |rows|) ==> r[id] == variants[id])
  {
    if rows != [] {
      AddVariantsRows(variants, productId, rows[..|rows| - 1], next, now);
    }
  }

  /** The `k`-th inserted row sits under id `next + k`. */
  lemma {:induction false} AddedRowAt(variants: map<nat, Variant>, productId: nat, rows: seq<VariantValues>, next: nat, now: Timestamp, k: nat)
    requires k < |rows|
    ensures var r := AddVariants(variants, productId, rows, next, now);
      next + k in r && r[next + k] == VariantRow(next + k, productId, rows[k], now)
  {
    if k < |rows| - 1 {
      AddedRowAt(variants, productId, rows[..|rows| - 1], next, now, k);
    }
  }

  /** The rows those inserts create, in insert order. */
  function InsertedRows(productId: nat, rows: seq<VariantValues>, next: nat, now: Timestamp): (r: seq<Variant>)
    ensures |r| == |rows|
  {
    if rows == [] then []
    else InsertedRows(productId, rows[..|rows| - 1], next, now) + [VariantRow(next + |rows| - 1, productId, rows[|rows| - 1], now)]
  }

  /** The `k`-th created row is the one stored under id `next + k`. */
  lemma {:induction false} InsertedRowAt(variants: map<nat, Variant>, productId: nat, rows: seq<VariantValues>, next: nat, now: Timestamp, k: nat)
    requires k < |rows|
    ensures var added := AddVariants(variants, productId, rows, next, now);
      && InsertedRows(productId, rows, next, now)[k] == VariantRow(next + k, productId, rows[k], now)
      && next + k in added && InsertedRows(productId, rows, next, now)[k] == added[next + k]
  {
    AddedRowAt(variants, productId, rows, next, now, k);
    if k < |rows| - 1 {
      InsertedRowAt(variants, productId, rows[..|rows| - 1], next, now, k);
    }
  }

  /** Inserting one more row extends the table, and the created rows, by exactly that row. */
  lemma AddOneMore(variants: map<nat, Variant>, productId: nat, rows: seq<VariantValues>, i: nat, next: nat, now: Timestamp)
    requires i < |rows|
    ensures AddVariants(variants, productId, rows[..i + 1], next, now)
         == AddVariants(variants, productId, rows[..i], next, now)[next + i := VariantRow(next + i, productId, rows[i], now)]
    ensures InsertedRows(productId, rows[..i + 1], next, now)
         == InsertedRows(productId, rows[..i], next, now) + [VariantRow(next + i, productId, rows[i], now)]
  {
    assert rows[..i + 1][..i] == rows[..i];
  }

  /**
   * After inserting rows for a product that had no variants, the product's
   * variants are exactly the new rows.
   */
  lemma AddedVariantsOf(db: Db, productId: nat, rows: seq<VariantValues>, now: Timestamp)
    requires Keyed(db)
    requires forall id :: id in db.variants ==> db.variants[id].productId != productId
    ensures var db' := db.(variants := AddVariants(db.variants, productId, rows, db.nextVariantId, now));
      VariantIdsOf(db', productId) == Range(db.nextVariantId, |rows|)
  {
    AddVariantsRows(db.variants, productId, rows, db.nextVariantId, now);
    var db' := db.(variants := AddVariants(db.variants, productId, rows, db.nextVariantId, now));
    forall id | id in Range(db.nextVariantId, |rows|) ensures id in VariantIdsOf(db', productId) {
      AddedRowAt(db.variants, productId, rows, db.nextVariantId, now, id - db.nextVariantId);
    }
  }

  /** Rows whose SKUs are new to the table and differ from one another. */
  ghost predicate FreshSkus(db: Db, rows: seq<VariantValues>) {
    && (forall k :: 0 <= k < |rows| ==> !SkuTaken(db, rows[k].sku))
    && (forall j, k :: 0 <= j < k < |rows| ==> rows[j].sku != rows[k].sku)
  }

  /** Two distinct rows of the extended table carry different SKUs. */
  lemma AddedSkuDiffers(db: Db, productId: nat, rows: seq<VariantValues>, now: Timestamp, a: nat, b: nat)
    requires Keyed(db) && SkusUnique(db) && FreshSkus(db, rows)
    requires var added := AddVariants(db.variants, productId, rows, db.nextVariantId, now);
      a in added && b in added && a != b
    ensures var added := AddVariants(db.variants, productId, rows, db.nextVariantId, now);
      added[a].sku != added[b].sku
  {
    AddVariantsRows(db.variants, productId, rows, db.nextVariantId, now);
    var next := db.nextVariantId;
    var added := AddVariants(db.variants, productId, rows, next, now);
    var isNewA := next <= a < next + |rows|;
    var isNewB := next <= b < next + |rows|;
    if isNewA {
      AddedRowAt(db.variants, productId, rows, next, now, a - next);
    }
    if isNewB {
      AddedRowAt(db.variants, productId, rows, next, now, b - next);
    }
    if isNewA && isNewB {
      var j, k := a - next, b - next;
      if j < k {
        assert rows[j].sku != rows[k].sku;
      } else {
        assert rows[k].sku != rows[j].sku;
      }
    }
  }

  /** Inserting rows with fresh, pairwise different SKUs keeps SKUs unique. */
  lemma AddedSkusUnique(db: Db, productId: nat, rows: seq<VariantValues>, now: Timestamp)
    requires Keyed(db) && SkusUnique(db) && FreshSkus(db, rows)
    ensures SkusUnique(db.(variants := AddVariants(db.variants, productId, rows, db.nextVariantId, now)))
  {
    var added := AddVariants(db.variants, productId, rows, db.nextVariantId, now);
    forall a, b | a in added && b in added && a != b ensures added[a].sku != added[b].sku {
      AddedSkuDiffers(db, productId, rows, now, a, b);
    }
  }

  /** Rows that pass the two CHECKs on price and inventory. */
  ghost predicate ChecksPass(rows: seq<VariantValues>) {
    forall k :: 0 <= k < |rows| ==> rows[k].priceCents >= 0 && rows[k].inventoryCount >= 0
  }

  /** Inserting rows for an existing product that pass the CHECKs and carry fresh SKUs keeps the schema. */
  lemma AddedVariantsKeepSchema(db: Db, productId: nat, rows: seq<VariantValues>, now: Timestamp)
    requires Valid(db) && productId in db.products && ChecksPass(rows) && FreshSkus(db, rows)
    ensures Valid(db.(variants := AddVariants(db.variants, productId, rows, db.nextVariantId, now),
                      nextVariantId := db.nextVariantId + |rows|))
  {
    AddVariantsRows(db.variants, productId, rows, db.nextVariantId, now);
    var next := db.nextVariantId;
    var db' := db.(variants := AddVariants(db.variants, productId, rows, next, now), nextVariantId := next + |rows|);
    forall id | id in db'.variants
      ensures db'.variants[id].id == id && id < db'.nextVariantId
      ensures db'.variants[id].productId in db'.products
      ensures db'.variants[id].priceCents >= 0 && db'.variants[id].inventoryCount >= 0
    {
      if next <= id < next + |rows| {
        AddedRowAt(db.variants, productId, rows, next, now, id - next);
      }
    }
    AddedSkusUnique(db, productId, rows, now);
  }

  /** After inserting `rows`, a SKU is taken exactly when it was taken before or one of the rows carries it. */
  lemma SkuTakenAfterAdding(db: Db, productId: nat, rows: seq<VariantValues>, now: Timestamp, sku: string)
    requires Keyed(db)
    ensures SkuTaken(db.(variants := AddVariants(db.variants, productId, rows, db.nextVariantId, now)), sku) <==>
      SkuTaken(db, sku) || exists j :: 0 <= j < |rows| && rows[j].sku == sku
  {
    if SkuTaken(db.(variants := AddVariants(db.variants, productId, rows, db.nextVariantId, now)), sku) {
      TakenAfterAddingWasTaken(db, productId, rows, now, sku);
    }
    if SkuTaken(db, sku) || exists j :: 0 <= j < |rows| && rows[j].sku == sku {
      TakenStaysTaken(db, productId, rows, now, sku);
    }
  }

  lemma TakenAfterAddingWasTaken(db: Db, productId: nat, rows: seq<VariantValues>, now: Timestamp, sku: string)
    requires SkuTaken(db.(variants := AddVariants(db.variants, productId, rows, db.nextVariantId, now)), sku)
    ensures SkuTaken(db, sku) || exists j :: 0 <= j < |rows| && rows[j].sku == sku
  {
    AddVariantsRows(db.variants, productId, rows, db.nextVariantId, now);
    var next := db.nextVariantId;
    var added := AddVariants(db.variants, productId, rows, next, now);
    var id :| id in added && added[id].sku == sku;
    if next <= id < next + |rows| {
      AddedRowAt(db.variants, productId, rows, next, now, id - next);
      assert rows[id - next].sku == sku;
    } else {
      assert db.variants[id].sku == sku;
    }
  }

  lemma TakenStaysTaken(db: Db, productId: nat, rows: seq<VariantValues>, now: Timestamp, sku: string)
    requires Keyed(db)
    requires SkuTaken(db, sku) || exists j :: 0 <= j < |rows| && rows[j].sku == sku
    ensures SkuTaken(db.(variants := AddVariants(db.variants, productId, rows, db.nextVariantId, now)), sku)
  {
    AddVariantsRows(db.variants, productId, rows, db.nextVariantId, now);
    var next := db.nextVariantId;
    var added := AddVariants(db.variants, productId, rows, next, now);
    if exists j :: 0 <= j < |rows| && rows[j].sku == sku {
      var j :| 0 <= j < |rows| && rows[j].sku == sku;
      AddedRowAt(db.variants, productId, rows, next, now, j);
      assert added[next + j].sku == sku;
    } else {
      var id :| id in db.variants && db.variants[id].sku == sku;
      assert added[id].sku == sku;
    }
  }

  // ---------------------------------------------------------------------------
  // Single-row inserts and the constraint each can violate
  // ---------------------------------------------------------------------------

  /** `INSERT INTO categories (name, description)` fails only on the UNIQUE name. */
  function CategoryFault(db: Db, name: string): Option<Fault> {
    if CategoryNameTaken(db, name) then Some(UniqueCategoryName) else None
  }

  function WithCategory(db: Db, name: string, description: Option<string>, now: Timestamp): Db {
    var id := db.nextCategoryId;
    db.(categories := db.categories[id := Category(id, name, description, now, now)], nextCategoryId := id + 1)
  }

  /** The category insert is refused exactly when the new row would break the schema. */
  lemma CategoryInsertKeepsSchema(db: Db, name: string, description: Option<string>, now: Timestamp)
    requires Valid(db)
    ensures CategoryFault(db, name).None? <==> Valid(WithCategory(db, name, description, now))
  {
    var db' := WithCategory(db, name, description, now);
    if CategoryNameTaken(db, name) {
      var other :| other in db.categories && db.categories[other].name == name;
      assert db'.categories[other].name == db'.categories[db.nextCategoryId].name;
    }
  }

  /** `INSERT INTO products`: the status CHECK, then the category foreign key. */
  function ProductFault(db: Db, categoryId: Option<nat>, status: string): Option<Fault> {
    if !IsStatus(status) then Some(StatusCheck)
    else if categoryId.Some? && categoryId.value !in db.categories then Some(ForeignKey)
    else None
  }

  function WithProduct(db: Db, p: Product): Db {
    db.(products := db.products[db.nextProductId := p.(id := db.nextProductId)], nextProductId := db.nextProductId + 1)
  }

  /** The product insert is refused exactly when the new row would break the schema. */
  lemma ProductInsertKeepsSchema(db: Db, p: Product)
    requires Valid(db)
    ensures ProductFault(db, p.categoryId, p.status).None? <==> Valid(WithProduct(db, p))
  {
    var db' := WithProduct(db, p);
    assert db.nextProductId in db'.products;
  }

  /** `INSERT INTO variants`: the two CHECKs, the UNIQUE SKU, then the product foreign key. */
  function VariantFault(db: Db, productId: nat, v: VariantValues): Option<Fault> {
    if v.priceCents < 0 then Some(PriceCheck)
    else if v.inventoryCount < 0 then Some(InventoryCheck)
    else if SkuTaken(db, v.sku) then Some(UniqueSku)
    else if productId !in db.products then Some(ForeignKey)
    else None
  }

  function WithVariant(db: Db, productId: nat, v: VariantValues, now: Timestamp): Db {
    var id := db.nextVariantId;
    db.(variants := db.variants[id := VariantRow(id, productId, v, now)], nextVariantId := id + 1)
  }

  /** The variant insert is refused exactly when the new row would break the schema. */
  lemma VariantInsertKeepsSchema(db: Db, productId: nat, v: VariantValues, now: Timestamp)
    requires Valid(db)
    ensures VariantFault(db, productId, v).None? <==> Valid(WithVariant(db, productId, v, now))
  {
    var db' := WithVariant(db, productId, v, now);
    var id := db.nextVariantId;
    if SkuTaken(db, v.sku) {
      var other :| other in db.variants && db.variants[other].sku == v.sku;
      assert other < id && other in db'.variants && id in db'.variants;
      assert db'.variants[other].sku == db'.variants[id].sku;
      assert !SkusUnique(db');
    }
  }
}
