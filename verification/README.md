# Catalog store model

This project models the core of a small product catalog: an Express and SQLite
back end with three tables (categories, products, variants), plus two pieces of
display logic from its React client. The model is written in Dafny and verified.

- **Schema** (`schema.dfy`). The tables are id-keyed maps with their
  AUTOINCREMENT counters (`Schema.Db`). The constraints of the seed script's
  CREATE TABLE statements form one invariant, `Schema.Valid`:
  - the status CHECK;
  - the unique category name;
  - the unique SKU;
  - the price and inventory CHECKs;
  - the foreign keys;
  - each row keyed by its own id.

  Each single-row insert has a function naming the constraint it would break
  (`CategoryFault`, `ProductFault`, `VariantFault`). A lemma shows that this
  function objects exactly when the insert would break the invariant.
- **Read handlers** (`products.dfy`, `categories.dfy`, `variants.dfy`). These
  are functions of the table state:
  - the product list, with its WHERE clause, grouped aggregates and
    newest-first order;
  - the product detail, with its variants oldest first;
  - the category list, with live product counts, in name order;
  - the lookups by id.

  Table scans and ORDER BY are modelled in `ordering.dfy`. A scan yields ids
  in rowid order, and an insertion sort orders them by a total preorder
  (ties are allowed).
- **Write handlers** (`store.dfy`). These are methods of the class
  `Store.CatalogStore`, which holds the three tables as fields. Each handler
  method keeps `Valid()` and states its new state through a function of the
  old one (`AppendVariants` is an internal step of the create, whose
  invariant the create re-establishes):
  - the COALESCE product update;
  - the soft delete;
  - the guarded variant delete;
  - the intended product create and variant update;
  - the seed script's single-row inserts.

  The create and the variant update are stubs in the source that answer 501.
  They are modelled from the contract their TODO comments and the tests in
  backend/__tests__/tasks.test.ts describe, and are labelled as intended.
- **Seed script** (`seed.dfy`). The category loop that fills the
  name-to-id record, and `seedProduct`, are methods with loop invariants over
  the store. Each statement runs on its own. The first statement the schema
  refuses stops the script, and the rows inserted before it stay.
- **Client helpers** (`utils.dfy`, `productcard.dfy`):
  - `formatPrice` over integer cents;
  - `cn`;
  - the product card's price range, stock badge and variant-count label.

The product list's missing `deleted_at IS NULL` is modelled both as written
and as the tests in backend/__tests__/tasks.test.ts require it; see Findings
below.

## Model

| member | source | states |
|---|---|---|
| Schema.Valid | backend/src/seed.ts:24-52 | The schema invariant: each row keyed by its id, unique category names, the status CHECK and category foreign key on products, the product foreign key and the price and inventory CHECKs on variants, unique SKUs. Every write method keeps it. |
| Schema.Empty | backend/src/seed.ts:19-52 | Freshly created tables are empty and satisfy every constraint. |
| Schema.SoftDeleted | backend/src/routes/products.ts:181-183 | Setting `deleted_at` and `updated_at` on one product keeps the schema invariant. |
| Schema.WithoutVariant | backend/src/routes/variants.ts:80 | Removing a variant row keeps the schema invariant. |
| Schema.CategoryInsertKeepsSchema | backend/src/seed.ts:24-30 | The category insert is refused, for the UNIQUE name, exactly when the new row would break the schema. |
| Schema.ProductInsertKeepsSchema | backend/src/seed.ts:32-41 | The product insert is refused, for the status CHECK or the category foreign key, exactly when the new row would break the schema. |
| Schema.VariantInsertKeepsSchema | backend/src/seed.ts:43-52 | The variant insert is refused, for a CHECK, the UNIQUE SKU or the product foreign key, exactly when the new row would break the schema. |
| Schema.AddVariantsRows | backend/src/seed.ts:109-111 | Inserting rows one by one adds exactly the ids `next` to `next + n - 1` and leaves every other row unchanged. |
| Schema.AddedRowAt | backend/src/seed.ts:109-111 | The k-th inserted row sits under id `next + k`, bound to the product and carrying the k-th entry's values. |
| Schema.InsertedRows | backend/src/routes/products.ts:114-115 | The rows a multi-row insert creates, one per entry. |
| Schema.InsertedRowAt | backend/src/routes/products.ts:114-115 | The k-th created row is the row stored under id `next + k`. |
| Schema.AddOneMore | backend/src/seed.ts:109-111 | One more insert extends both the table and the list of created rows by exactly that row. |
| Schema.AddedVariantsOf | backend/src/seed.ts:108-111 | A product that had no variants has exactly the newly inserted ids as its variants. |
| Schema.AddedSkusUnique | backend/src/seed.ts:46 | Inserting rows whose SKUs are new to the table and differ from one another keeps SKUs unique. |
| Schema.AddedVariantsKeepSchema | backend/src/seed.ts:43-52 | Inserting such rows for an existing product, with prices and inventories that pass the CHECKs, keeps the whole schema. |
| Schema.SkuTakenAfterAdding | backend/src/seed.ts:46 | After the inserts, a SKU is taken exactly when it was taken before or one of the inserted rows carries it. |
| Products.Like | backend/src/routes/products.ts:39-40 | `text LIKE '%term%'`: the term occurs somewhere in the text, ASCII letters compared without case; LikeWhenContained states its meaning. |
| Products.LikeWhenContained | backend/src/routes/products.ts:38-41 | A text containing the search term, in any ASCII case, matches `LIKE '%term%'`. |
| Products.Conditions | backend/src/routes/products.ts:35-50 | The handler pushes one condition per given parameter: the search condition first when a search is given, the category condition last when a category is given. |
| Products.ConditionsMeaning | backend/src/routes/products.ts:38-50 | The assembled WHERE clause keeps exactly the products whose name or description matches a non-empty search and whose category equals a given `category_id`. With neither parameter, it keeps all products. |
| Products.CorrectedConditionsMeaning | backend/__tests__/tasks.test.ts:170-179 | With `deleted_at IS NULL` added, the clause keeps exactly the matching products that are not soft-deleted. |
| Products.MinOf | backend/src/routes/products.ts:27 | MIN is NULL for no rows; otherwise it is attained by a row and is at most every row's value. |
| Products.MaxOf | backend/src/routes/products.ts:28 | MAX is NULL for no rows; otherwise it is attained by a row and is at least every row's value. |
| Products.SumOf | backend/src/routes/products.ts:29 | COALESCE(SUM, 0) is 0 for no rows. For non-negative values it bounds each value, and it is 0 exactly when every value is 0. |
| Products.SumOfAppend | backend/src/routes/products.ts:29 | SUM over two runs of rows is the sum of their sums, and over one row it is that row's value; together these fix SumOf as the sum. |
| Products.SumOfBump | backend/src/routes/products.ts:29 | Raising one row's value by d, the others unchanged, raises the sum by exactly d. |
| Products.VariantsOf | backend/src/routes/products.ts:32 | The LEFT JOIN groups exactly the product's variants, in ascending id order. |
| Products.VariantsOfCount | backend/src/routes/products.ts:26 | A product has as many joined rows as it has variants. |
| Products.RowOf | backend/src/routes/products.ts:15-29 | The grouped row carries the product itself. |
| Products.RowCounts | backend/src/routes/products.ts:21-26 | `variant_count` is the product's number of variants, and `category_name` is its joined category's name. |
| Products.RowMinPrice | backend/src/routes/products.ts:27 | `min_price_cents` is NULL exactly when there are no variants; otherwise it is the lowest variant price, and not negative. |
| Products.RowMaxPrice | backend/src/routes/products.ts:28 | `max_price_cents` is NULL exactly when there are no variants; otherwise it is the highest variant price. |
| Products.RowInventory | backend/src/routes/products.ts:29 | `total_inventory` is 0 without variants, never negative, and at least each variant's count. |
| Products.RowInventoryBump | backend/src/routes/products.ts:29 | `total_inventory` is the SUM of the variants' counts: raising one variant's `inventory_count` by d raises its product's total by exactly d. |
| Products.RowInventoryZero | backend/src/routes/products.ts:29 | `total_inventory` is 0 exactly when every variant of the product has none. |
| Products.ListedIds | backend/src/routes/products.ts:30-52 | The grouped query yields each product the WHERE clause keeps exactly once, newest `created_at` first. |
| Products.Rows | backend/src/routes/products.ts:15-29 | One grouped row per given id, in the given order. |
| Products.RowsOfIds | backend/src/routes/products.ts:15-29 | Each row is the product of its id, and every given id has a row. |
| Products.RowsFollowIds | backend/src/routes/products.ts:52 | The rows inherit the ids' lack of repetitions and their newest-first order. |
| Products.ListRows | backend/src/routes/products.ts:30-52 | The list has one row per product kept by the WHERE clause, and each row is that product's grouped row. |
| Products.ListRowsComplete | backend/src/routes/products.ts:30-52 | Every product the WHERE clause keeps is listed. |
| Products.ListRowsOrdered | backend/src/routes/products.ts:52 | The listed rows name each product once and are in descending `created_at` order. |
| Products.ListProductsAsWritten | backend/src/routes/products.ts:15-52 | The query as written lists only products that match both filters, each with its grouped row. |
| Products.AsWrittenListsDeleted | backend/src/routes/products.ts:30-52 | The query as written lists a soft-deleted product. |
| Products.ListProducts | backend/__tests__/tasks.test.ts:170-179 | The list as the tests require lists only products that are not deleted and match both filters, each with its grouped row. |
| Products.ListProductsComplete | backend/src/routes/products.ts:38-50 | Every product that is not deleted and matches the filters is listed. |
| Products.ListProductsOrdered | backend/src/routes/products.ts:52 | The list names each product once, newest first. |
| Products.ListCountsUndeleted | backend/__tests__/tasks.test.ts:181-195 | Unfiltered, the list length is the number of products minus the soft-deleted ones. |
| Products.DetailIds | backend/src/routes/products.ts:82-86 | The detail's variant ids are exactly the product's variants, each once, ordered by ascending `created_at`. |
| Products.VariantRows | backend/src/routes/products.ts:82-86 | The rows of the given ids, in the given order. |
| Products.GetProduct | backend/src/routes/products.ts:68-88 | An unknown id is NotFound. Otherwise the answer is the product row, with deleted rows not filtered out, its joined category name and one row per variant. |
| Products.VariantRowsFollowIds | backend/src/routes/products.ts:82-86 | Rows fetched for repetition-free, oldest-first ids list every id once, oldest first. |
| Products.GetProductVariants | backend/src/routes/products.ts:82-88 | The detail lists every variant of the product once, and only those, in ascending `created_at` order. |
| Products.Coalesce | backend/src/routes/products.ts:139-147 | Each of name, description, category and status is replaced when given and kept when absent. The id, `deleted_at` and `created_at` are kept, and `updated_at` is refreshed. |
| Products.PatchFault | backend/src/routes/products.ts:139-147 | The constraint the UPDATE breaks, if any; PatchKeepsSchema proves it objects exactly when the patched row breaks the schema. |
| Products.PatchKeepsSchema | backend/src/routes/products.ts:139-147 | The store refuses the UPDATE, for the status CHECK or the category foreign key, exactly when the patched row would break the schema. |
| Products.EmptyPatchTouchesOnlyUpdatedAt | backend/src/routes/products.ts:139-147 | An update with no fields changes only `updated_at`. |
| Products.SoftDeleteHides | backend/__tests__/tasks.test.ts:170-179 | After a soft delete, the product is absent from the list under every query. |
| Products.SoftDeleteKeepsDetail | backend/src/routes/products.ts:181-183 | After a soft delete the detail is still found, with the same variants and `deleted_at` set. |
| Products.CreateProblem | backend/src/routes/products.ts:111-113 | The create's fail-fast validation; CreateProblemExact proves it refuses exactly the requests that break a stated rule. |
| Products.VariantsProblem | backend/src/routes/products.ts:112-113 | Fail-fast variant validation reports the first bad entry and its problem, and finds nothing exactly when every entry is acceptable. |
| Products.CreateProblemExact | backend/src/routes/products.ts:110-115 | A create is refused exactly when it breaks a rule. The rules are: a present name; a valid status; an existing category; at least one variant; and per entry, a present SKU not already stored and not repeated, a present name, and non-negative price and inventory. |
| Products.Entries | backend/__tests__/tasks.test.ts:23-57 | One row of values per variant entry, in request order, carrying the entry's fields. |
| Products.CreatedDetailMatches | backend/src/routes/products.ts:115 | The create's answer is the stored product with its stored category name, and has one variant per entry. |
| Products.CreatedVariantAt | backend/src/routes/products.ts:114-115 | The k-th variant of the answer is the row stored under the k-th new variant id. |
| Products.CreatedKeepsSchema | backend/src/routes/products.ts:113-114 | An accepted create leaves the tables satisfying the schema, so the transaction commits. |
| Products.CreatedProduct | backend/__tests__/tasks.test.ts:23-41 | The create adds exactly one product, not deleted, with the request's name, description, category and status (default active), and keeps every other product. |
| Products.CreatedVariantIds | backend/__tests__/tasks.test.ts:43-57 | The new product has exactly one variant per entry. |
| Products.CreatedVariantValues | backend/__tests__/tasks.test.ts:23-41 | The new variants carry their entries' SKU, price and inventory in request order, and every existing variant is kept. |
| Variants.GetVariant | backend/src/routes/variants.ts:12-20 | An unknown id is NotFound; otherwise the answer is that row. |
| Variants.DeleteProblem | backend/src/routes/variants.ts:55-78 | NotFound for an unknown id, the last-variant refusal when the sibling count is at most one; DeleteProblemMeaning states when it is clear. |
| Variants.DeleteProblemMeaning | backend/src/routes/variants.ts:59-78 | The delete goes ahead exactly when the variant exists and another variant shares its product. |
| Variants.DeleteRemovesOne | backend/src/routes/variants.ts:80 | The delete removes exactly that variant. Its product's count drops by one; every other count, variant and product is unchanged. |
| Variants.DeleteKeepsAVariant | backend/src/routes/variants.ts:67-81 | An accepted delete never leaves a product that had variants without any. |
| Variants.UpdateProblem | backend/src/routes/variants.ts:41-42 | The intended update's checks in order; UpdateKeepsSchema proves they accept exactly the updates that keep the schema. |
| Variants.ApplyPatch | backend/src/routes/variants.ts:31-43 | Each of name, SKU, price and inventory is set when given and kept when absent. The ids and `created_at` are kept, and `updated_at` is refreshed. |
| Variants.UpdateKeepsSchema | backend/src/routes/variants.ts:41-43 | The update's checks accept exactly when the updated tables still satisfy the schema. The checks are: a known id, a non-negative price and inventory, and a changed SKU not used by another variant. |
| Variants.EmptyUpdateTouchesOnlyUpdatedAt | backend/src/routes/variants.ts:31-43 | An update with no fields changes only `updated_at`. |
| Categories.ProductCount | backend/src/routes/categories.ts:14-18 | `COUNT(p.id)` over the category's products that are not soft-deleted; ProductCountZero and SoftDeleteLowersCount state its meaning. |
| Categories.ProductCountZero | backend/src/routes/categories.ts:14-17 | A category's count is 0 exactly when each of its products is soft-deleted, including when it has none. |
| Categories.CategoryRowOf | backend/src/routes/categories.ts:14-17 | A category's row is the category with its count of live products. |
| Categories.ByNameIsPreorder | backend/src/routes/categories.ts:18 | Comparing categories by name is a legal ORDER BY comparison. |
| Categories.CategoryIdsByName | backend/src/routes/categories.ts:14-18 | Every category id appears exactly once, in ascending name order. |
| Categories.CategoryRows | backend/src/routes/categories.ts:14-17 | One grouped row per given id, in the given order. |
| Categories.ListCategories | backend/src/routes/categories.ts:14-18 | The list has one row per category, each carrying its live product count. |
| Categories.ListCategoriesOrdered | backend/src/routes/categories.ts:14-18 | Every category is listed exactly once, in ascending name order. |
| Categories.ListCategoriesStrictlyOrdered | backend/src/seed.ts:26 | With unique names, no two listed rows share a name. |
| Categories.GetCategory | backend/src/routes/categories.ts:35-43 | An unknown id is NotFound; otherwise the answer is that category row. |
| Categories.SoftDeleteLowersCount | backend/src/routes/categories.ts:16 | Soft-deleting a live product lowers its category's count by one and leaves every other count unchanged. |
| Categories.RedeleteKeepsCounts | backend/src/routes/products.ts:181-183 | Soft-deleting an already deleted product changes no count. |
| Ordering.IdsBelow | backend/src/routes/products.ts:30 | A table scan yields each stored id once, ascending. |
| Ordering.Select | backend/src/routes/products.ts:48-50 | The WHERE filter keeps exactly the scanned ids it accepts, without repeating any. |
| Ordering.InsertSorted | backend/src/routes/products.ts:52 | Inserting into a list sorted by a total preorder keeps it sorted. |
| Ordering.SortSorted | backend/src/routes/products.ts:52 | The insertion sort behind ORDER BY gives a sorted list under any total preorder. |
| Ordering.SortIds | backend/src/routes/products.ts:52 | Sorting ids keeps exactly the same ids, each once, in the comparison's order. |
| Ordering.LexLeTotal | backend/src/routes/categories.ts:18 | Text comparison orders any two names. |
| Ordering.LexLeTransitive | backend/src/routes/categories.ts:18 | Text comparison is transitive. |
| Ordering.LexLeAntisymmetric | backend/src/routes/categories.ts:18 | Two names that compare both ways are equal. |
| Store.CatalogStore.constructor | backend/src/seed.ts:19-52 | The new store holds empty tables that satisfy the schema. |
| Store.CatalogStore.UpdateProduct | backend/src/routes/products.ts:131-158 | An unknown id is NotFound, with nothing changed. A status or category the schema refuses fails, with nothing changed. Otherwise the tables become the COALESCE-patched ones, and the answer is the updated row with its category name. |
| Store.CatalogStore.SoftDeleteProduct | backend/src/routes/products.ts:169-185 | An unknown id is NotFound, with nothing changed. Otherwise only that row's `deleted_at` and `updated_at` change, and deleting again succeeds again. |
| Store.CatalogStore.CreateProduct | backend/src/routes/products.ts:110-120 | A refused request answers its reason and changes nothing. An accepted one stores exactly the created tables and answers with the new product and its variants. |
| Store.CatalogStore.AppendVariants | backend/src/routes/products.ts:110-115 | An internal step of the create: the loop inserts one row per entry under consecutive ids, returns those rows in order, and changes nothing else. |
| Store.CatalogStore.UpdateVariant | backend/src/routes/variants.ts:39-49 | A refused update answers its reason and changes nothing. Otherwise only that variant is patched, and it is answered. |
| Store.CatalogStore.DeleteVariant | backend/src/routes/variants.ts:55-81 | The outcome is NotFound, the last-variant refusal, or the removal of exactly that row; refusals change nothing. |
| Store.CatalogStore.InsertCategory | backend/src/seed.ts:58-60 | The insert answers the new id and adds the row, or fails on the UNIQUE name with nothing changed. |
| Store.CatalogStore.InsertProduct | backend/src/seed.ts:62-65 | The insert answers the new id and adds the row, or fails on its constraint with nothing changed. |
| Store.CatalogStore.InsertVariant | backend/src/seed.ts:67-70 | The insert answers the new id and adds the row, or fails on its constraint with nothing changed. |
| Seed.CategoriesAfter | backend/src/seed.ts:83-86 | The tables after the first i category inserts: the counter has moved by i. |
| Seed.CategoriesAfterFrame | backend/src/seed.ts:83-86 | The category inserts change only the categories and their counter; they add exactly the next i ids and keep every earlier row. |
| Seed.CategoryRowAt | backend/src/seed.ts:84 | The k-th insert stores the k-th entry's name and description under id `first + k`. |
| Seed.CategoryTakenSoFar | backend/src/seed.ts:26 | After i inserts, a name is taken exactly when it was taken before or one of the first i entries carries it. |
| Seed.CategoryStep | backend/src/seed.ts:83-86 | The next insert succeeds exactly when the names so far stay fresh. If it fails, the whole list was not insertable. |
| Seed.IdsByNameMeaning | backend/src/seed.ts:82-86 | With distinct names, `catIds` holds exactly the entries' names, each mapped to its own row's id. |
| Seed.SeedCategories | backend/src/seed.ts:82-86 | The loop completes exactly when the names are fresh, leaving all categories inserted and `catIds` mapping each name to its id. Otherwise it stops at a UNIQUE failure after a prefix of the inserts. |
| Seed.SeedStatusMeaning | backend/src/seed.ts:104 | An absent or empty status becomes `active`; the seeded status passes the CHECK exactly when it was defaulted or is one of the three. |
| Seed.SeedRow | backend/src/seed.ts:100-107 | The seeded row is deleted exactly when flagged, its category is the looked-up id, and its status passes the CHECK as described above. |
| Seed.NextVariant | backend/src/seed.ts:109-111 | Inserting variant i after the first i gives the tables with the first i + 1. |
| Seed.VariantStep | backend/src/seed.ts:109-111 | Variant insert i succeeds exactly when the entries up to it stay insertable. If it fails, the whole list was not insertable. |
| Seed.SeedProduct | backend/src/seed.ts:89-112 | `seedProduct` completes exactly when the product and every variant pass the schema; it then adds the product row, and the product's variants are exactly the given ones under consecutive ids. A failure is a schema failure: a refused product row leaves the tables as they were, and a refused variant leaves the product and the variants before it. The categories never change. |
| Utils.NatToStringRoundTrip | frontend/src/lib/utils.ts:5 | The decimal numeral of n reads back as n. |
| Utils.TwoDigits | frontend/src/lib/utils.ts:5 | The cent part always has exactly two digits, reading back as the value. |
| Utils.FormatPrice | frontend/src/lib/utils.ts:4-6 | The result starts with `$` and ends in a point and exactly two digits; the point occurs nowhere else. |
| Utils.FormatPriceParts | frontend/src/lib/utils.ts:4-6 | Between `$` and the point sits the signed numeral of the whole dollars, followed by the two digits of `|cents| mod 100`. |
| Utils.FormatPriceRoundTrip | frontend/src/lib/utils.ts:4-6 | A formatted price reads back as the amount it formats, so no two amounts print alike. |
| Utils.FormatPriceExample | frontend/src/lib/utils.ts:2 | 1999 cents print as `$19.99`. |
| Utils.Kept | frontend/src/lib/utils.ts:12 | The filter keeps exactly the non-empty names, none of them empty. |
| Utils.KeptAppend | frontend/src/lib/utils.ts:12 | Filtering splits over concatenation, so kept names stay in argument order. |
| Utils.Cn | frontend/src/lib/utils.ts:11-13 | `cn`: the kept names joined with single spaces; CnEmpty, CnSingle and CnSplits state its meaning. |
| Utils.CnEmpty | frontend/src/lib/utils.ts:11-13 | `cn` gives "" exactly when no argument is truthy. |
| Utils.CnSingle | frontend/src/lib/utils.ts:11-13 | With exactly one truthy argument, `cn` gives that argument. |
| Utils.CnSplits | frontend/src/lib/utils.ts:11-13 | When no name holds a space, splitting the result at spaces gives back exactly the kept names, in order. |
| ProductCard.PriceRange | frontend/src/components/ProductCard.tsx:11-16 | The price line; PriceRangeMeaning and RowPriceRange state its meaning. |
| ProductCard.PriceRangeMeaning | frontend/src/components/ProductCard.tsx:11-16 | The dash appears exactly when there is no lowest price. Equal prices show one price that reads back as it. Otherwise the line is the formatted lowest price, the separator, then the formatted highest price. |
| ProductCard.RowPriceRange | frontend/src/components/ProductCard.tsx:11-16 | On a list row the dash means the product has no variants, and a single shared price is shown once. |
| ProductCard.StockFlagsExclusive | frontend/src/components/ProductCard.tsx:18-19 | Out of stock and low stock never hold together; for a non-negative total exactly one of them, or more than ten, holds. |
| ProductCard.BadgeFollowsFlags | frontend/src/components/ProductCard.tsx:74-86 | Out of stock is chosen first, then low stock, else the plain count. Both count badges carry the total. |
| ProductCard.Badge | frontend/src/components/ProductCard.tsx:74-86 | The stock badge chosen; BadgeFollowsFlags and RowBadge state its meaning. |
| ProductCard.RowBadge | frontend/src/components/ProductCard.tsx:74-86 | On a list row the card says out of stock exactly when no variant has inventory, and the plain badge only shows totals above ten. |
| ProductCard.VariantCountLabel | frontend/src/components/ProductCard.tsx:47 | The label is longer than the bare word; VariantLabelPlural pins its text as the numeral followed by " variant" or " variants". |
| ProductCard.VariantLabelPlural | frontend/src/components/ProductCard.tsx:47 | The label is the count's numeral followed by " variant" when the count is one and " variants" otherwise, so it ends in `s` exactly when the count is not one. |

## Left out

- HTTP routing, status codes and JSON bodies are left out. Outcomes are a `Result` whose errors are NotFound, Rejected (a 400) or Failed (a caught 500). The plain-text error bodies in `backend/src/routes/products.ts` are not distinguished from JSON ones.
- The SQL engine, prepared statements, pragmas and connection setup are left out. Only their effect on the tables is modelled.
- Which constraint SQLite reports first, when a row breaks several, is not known. `VariantFault`, `ProductFault` and `PatchFault` fix one order.
- LIKE wildcards inside the search term (`%`, `_`) and non-ASCII case folding are left out. The search term is matched as a plain substring, with ASCII letters compared regardless of case.
- The `category_id` query parameter is taken as already parsed. `Number(...)` of text that is not a number (NaN) is not modelled, and neither is the parsing of `:id` path parameters.
- `datetime('now')` and the random `daysAgo` are parameters (`now`, `createdAt`). Timestamps are opaque naturals, so timestamp text is not modelled, and rows with equal timestamps may come in any order.
- Concurrent requests and transaction isolation are left out. The create's all-or-nothing transaction is modelled by validating before any write.
- `formatPrice` is modelled on exact integer cents. JavaScript's floating-point division and `toFixed` on amounts of 10^21 or more (exponent notation) are not modelled.
- `formatPrice` prints a negative amount as `$-` and then the formatted magnitude, as `toFixed` does (for example `$-0.50`). Prices pass the CHECK, so the card never shows one.
- Seed.SeedProduct: requires the product's category name to be in `catIds`. The script looks up a missing name as `undefined`, which is not modelled.
- The seed script's literal categories and products, and its console output, are left out.
- The React pages, the markup around the card's rules (including the status badge colours), routing and the `fetch` client are left out.
- Product create (`POST /api/products`) and variant update (`PUT /api/variants/:id`) answer 501 in the source. `Store.CatalogStore.CreateProduct` and `Store.CatalogStore.UpdateVariant` model their intended contracts. Products.CreateProblemExact and Variants.UpdateKeepsSchema fix one order for the checks and one trimming rule for "required", namely the four ASCII whitespace characters.
- Products.CreateProblemExact and Variants.UpdateKeepsSchema: SKUs are compared exactly, as the UNIQUE column's BINARY collation does; a case-insensitive SKU rule is not modelled.
- Products.CreateProblemExact and Variants.UpdateKeepsSchema: price and inventory arrive as integers; missing, non-numeric or fractional values and their rejection are not modelled.
- Products.CreateProblemExact: refusing an unknown `category_id` (reason UnknownCategory) and a status other than active, draft or archived (reason InvalidStatus) are rules of this model, not of the create's TODO comment; a handler without them would fail on the category foreign key or the status CHECK inside its transaction, answering a caught 500 with the tables unchanged.
- Products.SumOf, Products.RowInventory, Products.RowInventoryBump: prices and inventories are unbounded integers; SQLite's 64-bit INTEGER storage, the "integer overflow" error SUM raises past 2^63-1 (which the list handler would answer as a 500), and JavaScript numbers losing precision at 2^53 are not modelled.

## Findings

| source | as written | input that shows it | evidently intended | confidence | as-written member | corrected member |
|---|---|---|---|---|---|---|
| backend/src/routes/products.ts:30-52 | The list query has no `deleted_at IS NULL` condition, so soft-deleted products are listed. | Any table state with one soft-deleted product, queried with no parameters. | Soft-deleted products are never listed, and the unfiltered list has one row per product that is not deleted. | not executed | Products.AsWrittenListsDeleted | Products.ListCountsUndeleted |
