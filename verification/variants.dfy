/**
 * The variant handlers of backend/src/routes/variants.ts: the lookup, the
 * rules of the guarded delete and of the intended partial update (the
 * handler itself is a stub answering 501), which the store class carries out.
 */
module Variants {
  import opened Results
  import opened Schema

  /** GET /api/variants/:id. */
  function GetVariant(db: Db, id: nat): (r: Result<Variant>)
    ensures r.Err? <==> id !in db.variants
    ensures r.Err? ==> r.error == NotFound
    ensures r.Ok? ==> r.value == db.variants[id]
  {
    if id in db.variants then Ok(db.variants[id]) else Err(NotFound)
  }

  // ---------------------------------------------------------------------------
  // DELETE /api/variants/:id
  // ---------------------------------------------------------------------------

  /** Why the delete is refused, if it is: an unknown id, or the product's last variant. */
  function DeleteProblem(db: Db, id: nat): Option<Error> {
    if id !in db.variants then Some(NotFound)
    else if VariantCount(db, db.variants[id].productId) <= 1 then Some(Rejected(LastVariant))
    else None
  }

  /** The delete goes ahead exactly when the variant exists and has a sibling. */
  lemma DeleteProblemMeaning(db: Db, id: nat)
    ensures DeleteProblem(db, id).None? <==>
      id in db.variants && exists other :: other in db.variants && other != id && db.variants[other].productId == db.variants[id].productId
  {
    if id in db.variants {
      var pid := db.variants[id].productId;
      assert id in VariantIdsOf(db, pid);
      if exists other :: other in db.variants && other != id && db.variants[other].productId == pid {
        var other :| other in db.variants && other != id && db.variants[other].productId == pid;
        assert {id, other} <= VariantIdsOf(db, pid);
        assert |{id, other}| == 2;
        SubsetSize({id, other}, VariantIdsOf(db, pid));
      } else {
        assert VariantIdsOf(db, pid) == {id};
      }
    }
  }

  lemma SubsetSize(a: set<nat>, b: set<nat>)
    requires a <= b
    ensures |a| <= |b|
  {
    assert b == a + (b - a);
  }

  /**
   * Removing a variant lowers its product's variant count by one and leaves
   * every other product's count, and every other variant, as it was.
   */
  lemma DeleteRemovesOne(db: Db, id: nat, productId: nat)
    requires id in db.variants
    ensures WithoutVariant(db, id).products == db.products
    ensures forall other :: other in db.variants && other != id ==>
      other in WithoutVariant(db, id).variants && WithoutVariant(db, id).variants[other] == db.variants[other]
    ensures id !in WithoutVariant(db, id).variants
    ensures VariantCount(WithoutVariant(db, id), productId) ==
      if productId == db.variants[id].productId then VariantCount(db, productId) - 1
      else VariantCount(db, productId)
  {
    var db' := WithoutVariant(db, id);
    if productId == db.variants[id].productId {
      assert VariantIdsOf(db', productId) == VariantIdsOf(db, productId) - {id};
    } else {
      assert VariantIdsOf(db', productId) == VariantIdsOf(db, productId);
    }
  }

  /** An accepted delete never leaves a product that had variants without any. */
  lemma DeleteKeepsAVariant(db: Db, id: nat, productId: nat)
    requires DeleteProblem(db, id).None?
    requires VariantCount(db, productId) >= 1
    ensures VariantCount(WithoutVariant(db, id), productId) >= 1
  {
    DeleteRemovesOne(db, id, productId);
  }

  // ---------------------------------------------------------------------------
  // PUT /api/variants/:id (a stub answering 501; its intended contract)
  // ---------------------------------------------------------------------------

  /** The body fields; `None` stands for absent. */
  datatype VariantPatch = VariantPatch(
    name: Option<string>,
    sku: Option<string>,
    priceCents: Option<int>,
    inventoryCount: Option<int>)

  /** A variant other than `id` carries `sku`. */
  predicate SkuUsedByOther(db: Db, id: nat, sku: string) {
    exists other | other in db.variants :: other != id && db.variants[other].sku == sku
  }

  /**
   * Why the update is refused, if it is, in the order the handler is to
   * check: an unknown id, a negative price, a negative inventory, a changed
   * SKU that another variant already uses.
   */
  function UpdateProblem(db: Db, id: nat, patch: VariantPatch): Option<Error> {
    if id !in db.variants then Some(NotFound)
    else if patch.priceCents.Some? && patch.priceCents.value < 0 then Some(Rejected(BadVariantUpdate(NegativePrice)))
    else if patch.inventoryCount.Some? && patch.inventoryCount.value < 0 then Some(Rejected(BadVariantUpdate(NegativeInventory)))
    else if patch.sku.Some? && patch.sku.value != db.variants[id].sku && SkuUsedByOther(db, id, patch.sku.value) then
      Some(Rejected(BadVariantUpdate(DuplicateSku)))
    else None
  }

  /** The given fields replace the stored ones, absent ones are kept, and `updated_at` is refreshed. */
  function ApplyPatch(v: Variant, patch: VariantPatch, now: Timestamp): (r: Variant)
    ensures patch.name.Some? ==> r.name == patch.name.value
    ensures patch.name.None? ==> r.name == v.name
    ensures patch.sku.Some? ==> r.sku == patch.sku.value
    ensures patch.sku.None? ==> r.sku == v.sku
    ensures patch.priceCents.Some? ==> r.priceCents == patch.priceCents.value
    ensures patch.priceCents.None? ==> r.priceCents == v.priceCents
    ensures patch.inventoryCount.Some? ==> r.inventoryCount == patch.inventoryCount.value
    ensures patch.inventoryCount.None? ==> r.inventoryCount == v.inventoryCount
    ensures r.id == v.id && r.productId == v.productId && r.createdAt == v.createdAt && r.updatedAt == now
  {
    v.(name := patch.name.GetOr(v.name),
       sku := patch.sku.GetOr(v.sku),
       priceCents := patch.priceCents.GetOr(v.priceCents),
       inventoryCount := patch.inventoryCount.GetOr(v.inventoryCount),
       updatedAt := now)
  }

  function Updated(db: Db, id: nat, patch: VariantPatch, now: Timestamp): Db
    requires id in db.variants
  {
    db.(variants := db.variants[id := ApplyPatch(db.variants[id], patch, now)])
  }

  /** The handler's checks accept an update exactly when the updated tables still satisfy the schema. */
  lemma UpdateKeepsSchema(db: Db, id: nat, patch: VariantPatch, now: Timestamp)
    requires Valid(db) && id in db.variants
    ensures UpdateProblem(db, id, patch).None? <==> Valid(Updated(db, id, patch, now))
  {
    var db' := Updated(db, id, patch, now);
    if UpdateProblem(db, id, patch).Some? {
      if patch.sku.Some? && patch.sku.value != db.variants[id].sku && SkuUsedByOther(db, id, patch.sku.value) {
        var other :| other in db.variants && other != id && db.variants[other].sku == patch.sku.value;
        assert db'.variants[other].sku == db'.variants[id].sku;
      } else {
        assert id in db'.variants;
      }
    } else {
      forall a, b | a in db'.variants && b in db'.variants && a != b
        ensures db'.variants[a].sku != db'.variants[b].sku
      {
        if a == id && patch.sku.Some? && patch.sku.value != db.variants[id].sku {
          assert !SkuUsedByOther(db, id, patch.sku.value);
        } else if b == id && patch.sku.Some? && patch.sku.value != db.variants[id].sku {
          assert !SkuUsedByOther(db, id, patch.sku.value);
        }
      }
    }
  }

  /** An update with no fields only refreshes `updated_at`. */
  lemma EmptyUpdateTouchesOnlyUpdatedAt(v: Variant, now: Timestamp)
    ensures ApplyPatch(v, VariantPatch(None, None, None, None), now) == v.(updatedAt := now)
  {
  }
}
