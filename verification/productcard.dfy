/**
 * The display rules of frontend/src/components/ProductCard.tsx: the price
 * range, the stock flags and badge, and the variant-count label of one
 * product list row. The markup around them is not modelled.
 */
module ProductCard {
  import opened Results
  import opened Schema
  import opened Products
  import opened Utils

  /** Shown when the product has no variant, so no price. */
  const NoPrice: string := "—"

  /** Between the lowest and the highest price. */
  const RangeSeparator: string := " – "

  /**
   * The price line: the dash without a lowest price, one price when lowest
   * and highest are equal, otherwise both. A missing highest price is passed
   * on as null, which `formatPrice` prints as zero.
   */
  function PriceRange(minPrice: Option<int>, maxPrice: Option<int>): string {
    if minPrice.None? then NoPrice
    else if maxPrice == minPrice then FormatPrice(minPrice.value)
    else FormatPrice(minPrice.value) + RangeSeparator + FormatPrice(maxPrice.GetOr(0))
  }

  /**
   * The dash appears exactly when there is no lowest price; a single price
   * reads back as that price; a range splits into the two prices.
   */
  lemma PriceRangeMeaning(minPrice: Option<int>, maxPrice: Option<int>)
    ensures PriceRange(minPrice, maxPrice) == NoPrice <==> minPrice.None?
    ensures minPrice.Some? && maxPrice == minPrice ==> ParsePrice(PriceRange(minPrice, maxPrice)) == minPrice
    ensures minPrice.Some? && maxPrice != minPrice ==>
      exists lo, hi :: PriceRange(minPrice, maxPrice) == lo + RangeSeparator + hi &&
        ParsePrice(lo) == minPrice && ParsePrice(hi) == Some(maxPrice.GetOr(0))
  {
    if minPrice.Some? {
      var r := PriceRange(minPrice, maxPrice);
      assert r[0] == '$' && NoPrice[0] != '$';
      FormatPriceRoundTrip(minPrice.value);
      if maxPrice != minPrice {
        FormatPriceRoundTrip(maxPrice.GetOr(0));
        assert r == FormatPrice(minPrice.value) + RangeSeparator + FormatPrice(maxPrice.GetOr(0));
      }
    }
  }

  /**
   * On a list row the dash means the product has no variants, and when all
   * its variants share one price the card shows that single price.
   */
  lemma RowPriceRange(db: Db, id: nat)
    requires Valid(db) && id in db.products
    ensures var row := RowOf(db, id);
      PriceRange(row.minPriceCents, row.maxPriceCents) == NoPrice <==> VariantCount(db, id) == 0
    ensures forall price ::
      (VariantCount(db, id) > 0 && forall v :: v in VariantIdsOf(db, id) ==> db.variants[v].priceCents == price) ==>
        PriceRange(RowOf(db, id).minPriceCents, RowOf(db, id).maxPriceCents) == FormatPrice(price)
  {
    RowMinPrice(db, id);
    RowMaxPrice(db, id);
    var row := RowOf(db, id);
    PriceRangeMeaning(row.minPriceCents, row.maxPriceCents);
    forall price | VariantCount(db, id) > 0 &&
      (forall v :: v in VariantIdsOf(db, id) ==> db.variants[v].priceCents == price)
      ensures PriceRange(row.minPriceCents, row.maxPriceCents) == FormatPrice(price)
    {
      var lo :| lo in db.variants && db.variants[lo].productId == id && db.variants[lo].priceCents == row.minPriceCents.value;
      var hi :| hi in db.variants && db.variants[hi].productId == id && db.variants[hi].priceCents == row.maxPriceCents.value;
      assert lo in VariantIdsOf(db, id) && hi in VariantIdsOf(db, id);
    }
  }

  // ---------------------------------------------------------------------------
  // Stock
  // ---------------------------------------------------------------------------

  predicate OutOfStock(totalInventory: int) {
    totalInventory == 0
  }

  predicate LowStock(totalInventory: int) {
    totalInventory > 0 && totalInventory <= 10
  }

  /** The badge in the bottom row, with the count it prints. */
  datatype StockBadge = OutOfStockBadge | LowStockBadge(count: int) | InStockBadge(count: int)

  /** Out of stock is checked first, then low stock; otherwise the plain count. */
  function Badge(totalInventory: int): StockBadge {
    if OutOfStock(totalInventory) then OutOfStockBadge
    else if LowStock(totalInventory) then LowStockBadge(totalInventory)
    else InStockBadge(totalInventory)
  }

  /** A number as React prints it. */
  function IntToString(n: int): string {
    if n < 0 then "-" + NatToString(-n) else NatToString(n)
  }

  function BadgeText(b: StockBadge): string {
    match b
    case OutOfStockBadge => "Out of stock"
    case LowStockBadge(n) => "Low stock (" + IntToString(n) + ")"
    case InStockBadge(n) => IntToString(n) + " in stock"
  }

  /**
   * The two flags never hold together, and for a count that is not negative
   * exactly one of out of stock, low stock and more than ten holds.
   */
  lemma StockFlagsExclusive(totalInventory: int)
    ensures !(OutOfStock(totalInventory) && LowStock(totalInventory))
    ensures totalInventory >= 0 ==>
      (if OutOfStock(totalInventory) then 1 else 0) + (if LowStock(totalInventory) then 1 else 0) +
      (if totalInventory > 10 then 1 else 0) == 1
  {
  }

  /** The badge chosen follows the flags, and the low and plain badges carry the total. */
  lemma BadgeFollowsFlags(totalInventory: int)
    ensures Badge(totalInventory).OutOfStockBadge? <==> OutOfStock(totalInventory)
    ensures Badge(totalInventory).LowStockBadge? <==> LowStock(totalInventory)
    ensures Badge(totalInventory).InStockBadge? <==> !OutOfStock(totalInventory) && !LowStock(totalInventory)
    ensures !Badge(totalInventory).OutOfStockBadge? ==> Badge(totalInventory).count == totalInventory
  {
  }

  /**
   * On a list row the card says out of stock exactly when every variant of
   * the product has none left (including when it has no variants), and the
   * plain badge only ever shows more than ten.
   */
  lemma RowBadge(db: Db, id: nat)
    requires Valid(db) && id in db.products
    ensures var b := Badge(RowOf(db, id).totalInventory);
      && (b.OutOfStockBadge? <==> forall v :: v in VariantIdsOf(db, id) ==> db.variants[v].inventoryCount == 0)
      && (b.InStockBadge? ==> b.count > 10)
  {
    RowInventory(db, id);
    RowInventoryZero(db, id);
    BadgeFollowsFlags(RowOf(db, id).totalInventory);
  }

  // ---------------------------------------------------------------------------
  // Variant count
  // ---------------------------------------------------------------------------

  /** `{variant_count} variant{s}`. */
  function VariantCountLabel(count: nat): (r: string)
    ensures |r| > 8
  {
    NatToString(count) + " variant" + (if count != 1 then "s" else "")
  }

  /** The label is the count, then " variant" for one and " variants" otherwise; it ends in "s" exactly when the count is not one. */
  lemma VariantLabelPlural(count: nat)
    ensures var r := VariantCountLabel(count);
      (r[|r| - 1] == 's') <==> count != 1
    ensures var r := VariantCountLabel(count);
      DigitsValue(r[..|NatToString(count)|]) == count
    ensures var r := VariantCountLabel(count);
      r[|NatToString(count)|..] == (if count == 1 then " variant" else " variants")
  {
    var r := VariantCountLabel(count);
    var digits := NatToString(count);
    NatToStringRoundTrip(count);
    assert r[..|digits|] == digits;
    if count == 1 {
      assert r == "1 variant";
    }
  }
}
