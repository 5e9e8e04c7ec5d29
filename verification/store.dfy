/**
 * The catalog store: the three tables held by one object whose methods
 * carry out the write handlers of backend/src/routes/products.ts and
 * backend/src/routes/variants.ts, and the single-row inserts of
 * backend/src/seed.ts. Each handler method keeps the schema invariant
 * (AppendVariants is an internal step of the create) and states its new
 * state through the rules of the Schema, Products and Variants modules.
 */
module Store {
  import opened Results
  import opened Ordering
  import opened Schema
  import Products
  import Variants

  class CatalogStore {
    var categories: map<nat, Category>
    var products: map<nat, Product>
    var variants: map<nat, Variant>
    var nextCategoryId: nat
    var nextProductId: nat
    var nextVariantId: nat

    /** The table state as a value. */
    function Snapshot(): Db
      reads this
    {
      Db(categories, products, variants, nextCategoryId, nextProductId, nextVariantId)
    }

    ghost predicate Valid()
      reads this
    {
      Schema.Valid(Snapshot())
    }

    /** Freshly created tables. */
    constructor()
      ensures Snapshot() == Empty()
      ensures Valid()
    {
      categories, products, variants := map[], map[], map[];
      nextCategoryId, nextProductId, nextVariantId := 1, 1, 1;
    }

    // -------------------------------------------------------------------------
    // Products
    // -------------------------------------------------------------------------

    /**
     * PUT /api/products/:id: NotFound for an unknown id; otherwise the
     * COALESCE update, which the store refuses (the handler's caught error)
     * when the new status or category breaks the schema.
     */
    method UpdateProduct(id: nat, patch: Products.ProductPatch, now: Timestamp) returns (r: Result<Products.ProductView>)
      requires Valid()
      modifies this
      ensures Valid()
      ensures id !in old(products) ==> r == Err(NotFound) && Snapshot() == old(Snapshot())
      ensures id in old(products) && Products.PatchFault(old(Snapshot()), patch).Some? ==>
        && r == Err(Failed(Products.PatchFault(old(Snapshot()), patch).value))
        && Snapshot() == old(Snapshot())
      ensures id in old(products) && Products.PatchFault(old(Snapshot()), patch).None? ==>
        && Snapshot() == Products.Patched(old(Snapshot()), id, patch, now)
        && r == Ok(Products.ProductView(products[id], CategoryName(Snapshot(), products[id])))
    {
      if id !in products {
        return Err(NotFound);
      }
      var fault := Products.PatchFault(Snapshot(), patch);
      if fault.Some? {
        return Err(Failed(fault.value));
      }
      Products.PatchKeepsSchema(Snapshot(), id, patch, now);
      products := products[id := Products.Coalesce(products[id], patch, now)];
      r := Ok(Products.ProductView(products[id], CategoryName(Snapshot(), products[id])));
    }

    /**
     * DELETE /api/products/:id: NotFound for an unknown id; otherwise only
     * that row's `deleted_at` and `updated_at` change. Deleting again succeeds again.
     */
    method SoftDeleteProduct(id: nat, now: Timestamp) returns (err: Option<Error>)
      requires Valid()
      modifies this
      ensures Valid()
      ensures id !in old(products) ==> err == Some(NotFound) && Snapshot() == old(Snapshot())
      ensures id in old(products) ==> err.None? && Snapshot() == SoftDeleted(old(Snapshot()), id, now)
    {
      if id !in products {
        return Some(NotFound);
      }
      products := products[id := products[id].(deletedAt := Some(now), updatedAt := now)];
      err := None;
    }

    /**
     * POST /api/products, as intended (the handler is a stub answering 501):
     * a refused request changes nothing; an accepted one inserts the product
     * and then its variants one by one, and answers with all of them.
     */
    method CreateProduct(input: Products.ProductInput, now: Timestamp) returns (r: Result<Products.ProductDetail>)
      requires Valid()
      modifies this
      ensures Valid()
      ensures Products.CreateProblem(old(Snapshot()), input).Some? ==>
        && r == Err(Rejected(Products.CreateProblem(old(Snapshot()), input).value))
        && Snapshot() == old(Snapshot())
      ensures Products.CreateProblem(old(Snapshot()), input).None? ==>
        && Snapshot() == Products.Created(old(Snapshot()), input, now)
        && r == Ok(Products.CreatedDetail(old(Snapshot()), input, now))
    {
      var problem := Products.CreateProblem(Snapshot(), input);
      if problem.Some? {
        return Err(Rejected(problem.value));
      }
      Products.CreateProblemExact(Snapshot(), input);
      ghost var before := Snapshot();
      var pid := nextProductId;
      var product := Products.NewProduct(pid, input, now);
      products := products[pid := product];
      nextProductId := pid + 1;
      var created := AppendVariants(pid, Products.Entries(input.variants), now);
      assert Snapshot() == Products.Created(before, input, now);
      Products.CreatedKeepsSchema(before, input, now);
      r := Ok(Products.ProductDetail(product, CategoryName(Snapshot(), product), created));
    }

    /** Inserts one variant row per entry of `rows` for `productId`, in order, and returns the new rows. */
    method AppendVariants(productId: nat, rows: seq<VariantValues>, now: Timestamp) returns (created: seq<Variant>)
      modifies this
      ensures variants == AddVariants(old(variants), productId, rows, old(nextVariantId), now)
      ensures nextVariantId == old(nextVariantId) + |rows|
      ensures categories == old(categories) && products == old(products)
      ensures nextCategoryId == old(nextCategoryId) && nextProductId == old(nextProductId)
      ensures created == InsertedRows(productId, rows, old(nextVariantId), now)
    {
      var first := nextVariantId;
      created := [];
      var i := 0;
      while i < |rows|
        invariant 0 <= i <= |rows|
        invariant nextVariantId == first + i
        invariant variants == AddVariants(old(variants), productId, rows[..i], first, now)
        invariant created == InsertedRows(productId, rows[..i], first, now)
        invariant categories == old(categories) && products == old(products)
        invariant nextCategoryId == old(nextCategoryId) && nextProductId == old(nextProductId)
      {
        var row := VariantRow(nextVariantId, productId, rows[i], now);
        AddOneMore(old(variants), productId, rows, i, first, now);
        variants := variants[nextVariantId := row];
        created := created + [row];
        nextVariantId := nextVariantId + 1;
        i := i + 1;
      }
      assert rows[..i] == rows;
    }

    // -------------------------------------------------------------------------
    // Variants
    // -------------------------------------------------------------------------

    /**
     * PUT /api/variants/:id, as intended (the handler is a stub answering
     * 501): a refused update changes nothing; otherwise the given fields are set.
     */
    method UpdateVariant(id: nat, patch: Variants.VariantPatch, now: Timestamp) returns (r: Result<Variant>)
      requires Valid()
      modifies this
      ensures Valid()
      ensures Variants.UpdateProblem(old(Snapshot()), id, patch).Some? ==>
        && r == Err(Variants.UpdateProblem(old(Snapshot()), id, patch).value)
        && Snapshot() == old(Snapshot())
      ensures Variants.UpdateProblem(old(Snapshot()), id, patch).None? ==>
        && id in old(variants)
        && Snapshot() == Variants.Updated(old(Snapshot()), id, patch, now)
        && r == Ok(variants[id])
    {
      var problem := Variants.UpdateProblem(Snapshot(), id, patch);
      if problem.Some? {
        return Err(problem.value);
      }
      Variants.UpdateKeepsSchema(Snapshot(), id, patch, now);
      variants := variants[id := Variants.ApplyPatch(variants[id], patch, now)];
      r := Ok(variants[id]);
    }

    /**
     * DELETE /api/variants/:id: NotFound for an unknown id, refused for the
     * product's last variant; otherwise exactly that row is removed.
     */
    method DeleteVariant(id: nat) returns (err: Option<Error>)
      requires Valid()
      modifies this
      ensures Valid()
      ensures err == Variants.DeleteProblem(old(Snapshot()), id)
      ensures err.Some? ==> Snapshot() == old(Snapshot())
      ensures err.None? ==> Snapshot() == WithoutVariant(old(Snapshot()), id)
    {
      if id !in variants {
        return Some(NotFound);
      }
      var siblings := VariantCount(Snapshot(), variants[id].productId);
      if siblings <= 1 {
        return Some(Rejected(LastVariant));
      }
      variants := variants - {id};
      err := None;
    }

    // -------------------------------------------------------------------------
    // Single-row inserts (the prepared statements of the seed script)
    // -------------------------------------------------------------------------

    /** `INSERT INTO categories (name, description)`: the new id, or the UNIQUE failure with nothing changed. */
    method InsertCategory(name: string, description: Option<string>, now: Timestamp) returns (r: Result<nat>)
      requires Valid()
      modifies this
      ensures Valid()
      ensures CategoryFault(old(Snapshot()), name).Some? ==>
        r == Err(Failed(UniqueCategoryName)) && Snapshot() == old(Snapshot())
      ensures CategoryFault(old(Snapshot()), name).None? ==>
        r == Ok(old(nextCategoryId)) && Snapshot() == WithCategory(old(Snapshot()), name, description, now)
    {
      CategoryInsertKeepsSchema(Snapshot(), name, description, now);
      if CategoryNameTaken(Snapshot(), name) {
        return Err(Failed(UniqueCategoryName));
      }
      var id := nextCategoryId;
      categories := categories[id := Category(id, name, description, now, now)];
      nextCategoryId := id + 1;
      r := Ok(id);
    }

    /** `INSERT INTO products (...)`: the new id, or the failed constraint with nothing changed. */
    method InsertProduct(p: Product) returns (r: Result<nat>)
      requires Valid()
      modifies this
      ensures Valid()
      ensures ProductFault(old(Snapshot()), p.categoryId, p.status).Some? ==>
        r == Err(Failed(ProductFault(old(Snapshot()), p.categoryId, p.status).value)) && Snapshot() == old(Snapshot())
      ensures ProductFault(old(Snapshot()), p.categoryId, p.status).None? ==>
        r == Ok(old(nextProductId)) && Snapshot() == WithProduct(old(Snapshot()), p)
    {
      ProductInsertKeepsSchema(Snapshot(), p);
      var fault := ProductFault(Snapshot(), p.categoryId, p.status);
      if fault.Some? {
        return Err(Failed(fault.value));
      }
      var id := nextProductId;
      products := products[id := p.(id := id)];
      nextProductId := id + 1;
      r := Ok(id);
    }

    /** `INSERT INTO variants (...)`: the new id, or the failed constraint with nothing changed. */
    method InsertVariant(productId: nat, v: VariantValues, now: Timestamp) returns (r: Result<nat>)
      requires Valid()
      modifies this
      ensures Valid()
      ensures VariantFault(old(Snapshot()), productId, v).Some? ==>
        r == Err(Failed(VariantFault(old(Snapshot()), productId, v).value)) && Snapshot() == old(Snapshot())
      ensures VariantFault(old(Snapshot()), productId, v).None? ==>
        r == Ok(old(nextVariantId)) && Snapshot() == WithVariant(old(Snapshot()), productId, v, now)
    {
      VariantInsertKeepsSchema(Snapshot(), productId, v, now);
      var fault := VariantFault(Snapshot(), productId, v);
      if fault.Some? {
        return Err(Failed(fault.value));
      }
      var id := nextVariantId;
      variants := variants[id := VariantRow(id, productId, v, now)];
      nextVariantId := id + 1;
      r := Ok(id);
    }
  }
}
