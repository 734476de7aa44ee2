# Fridge inventory: product and recipe handlers in Dafny

This project models the core of a shared-fridge inventory service. Users keep
products in fridges. A stock row, keyed by (product, fridge, user), holds a
quantity. Recipes list ingredient rows, keyed by (recipe, product), each with
the quantity needed. The handlers modelled here do the following:

- deposit into a fridge with a capacity check;
- withdraw from one row;
- clear a user's rows in one fridge or in all fridges;
- gift all of one product, or everything in a fridge, to another user;
- list a user's stock;
- create and patch recipes;
- list what a recipe's owner lacks to cook it.

Files:

- `inventory.dfy` (module `Inventory`):
  - ids, the entities (`Fridge`, `Product`, `StockKey`, `Recipe`, `IngredientKey`) and the handlers' errors, one per message;
  - the mutable `Store` class with the database tables as fields. Its `Valid()` predicate states the foreign keys and the unique (name, type, size) triple of the catalogue.
- `ledger.dfy` (module `Ledger`):
  - sums over stock rows. A `Measure` selects a fridge's volume, a (product, fridge) count or a (product, user) holding;
  - the loop `Total` that computes such a sum;
  - `Transfer`, the row move both gift handlers perform, with its conservation lemmas.
- `products.dfy` (module `ProductHandlers`): the seven product handlers.
- `recipes.dfy` (module `RecipeHandlers`): recipe create, update and `getMissingProducts`.

Handlers that write the store are module-level methods. Each takes the
`db: Store` object and declares, in `modifies` clauses, which of its table
fields it changes. Each states the new tables in terms of the old ones. The read-only queries are
functions, or a method for the loop of `getMissingProducts`, over the tables as
values. Each handler's lemma partners say what the new state means:
conservation of fridge volumes, holdings moved from sender to receiver, exact
replacement of ingredient rows, and shortfall amounts.

## Model

| member | source | states |
|---|---|---|
| ProductHandlers.Create | src/controllers/products/handlers/create.handler.ts:5-94 | Checks run in order: user, then the catalogue upsert, then fridge, then capacity. The user check fails before any write. The catalogue upsert happens before the fridge check and survives its failure. The deposit is accepted iff the fridge's occupied volume (all users' rows) plus amount × size is at most the capacity. On success the user's row grows by the amount, or is created. |
| ProductHandlers.CatalogueDedup | src/controllers/products/handlers/create.handler.ts:16-32 | The upsert on (name, type, size) keeps the triple unique. It adds one product iff the triple is new, keeps every existing product, and a new triple gets the generated id. |
| ProductHandlers.IdOf | src/controllers/products/handlers/create.handler.ts:17-29 | The id the upsert returns names the catalogue row holding the triple. |
| ProductHandlers.UpsertProduct | src/controllers/products/handlers/create.handler.ts:16-29 | The catalogue after the upsert is `Catalogued`: a known triple keeps its row, a new one is added under the generated id. The returned id names the row holding the triple, and the store's keys stay valid. |
| ProductHandlers.UpsertStock | src/controllers/products/handlers/create.handler.ts:68-88 | The user's row of the product in the fridge grows by the amount, or is created with it. No other row changes and the store's keys stay valid. |
| ProductHandlers.DepositFits | src/controllers/products/handlers/create.handler.ts:59-88 | An accepted deposit raises its fridge's occupied volume by exactly size × amount, and the new volume is within capacity. |
| ProductHandlers.DepositElsewhere | src/controllers/products/handlers/create.handler.ts:68-88 | A deposit leaves every other fridge's occupied volume unchanged. |
| Ledger.Total | src/controllers/products/handlers/create.handler.ts:60-62 | The loop's sum over the selected rows equals the specification sum `Weigh`. |
| ProductHandlers.DeleteProduct | src/controllers/products/handlers/delete.handler.ts:5-38 | A row holding at most the amount is deleted, a larger row is decremented, and a missing row fails with "No product found to update quantity" leaving the store unchanged. |
| ProductHandlers.Withdrawn | src/controllers/products/handlers/delete.handler.ts:7-37 | The withdrawal succeeds iff the row exists, else fails with "No product found to update quantity". It takes min(quantity, amount) from the row, a kept row stays positive, and no other row changes. |
| ProductHandlers.WithdrawTakes | src/controllers/products/handlers/delete.handler.ts:7-37 | A withdrawal takes unit × min(quantity, amount) from every total that counts the row, and nothing from any other total. |
| Ledger.AddWeighs | src/controllers/products/handlers/create.handler.ts:77-87 | Adding to one row changes each total that selects it by unit × amount and no other total. |
| Ledger.RemoveWeighs | src/controllers/products/handlers/delete.handler.ts:8-17 | Deleting a row takes its weight out of every total that selects it. |
| ProductHandlers.DeleteAllProductsInFridge | src/controllers/products/handlers/deleteAllProductsInFridge.handler.ts:4-38 | Checks the user, then the fridge only when the id is truthy. Deletes the user's rows in scope. Succeeds iff at least one such row existed, else fails with "No products found…". |
| ProductHandlers.ClearedHoldings | src/controllers/products/handlers/deleteAllProductsInFridge.handler.ts:27-37 | Other users' holdings are unchanged and no user row in scope remains. Clearing all fridges empties the user's holding, and a second clear is a no-op. |
| ProductHandlers.BothFound | src/controllers/products/handlers/gift.handler.ts:11-19 | For distinct ids, the users lookup returns two rows iff both sender and receiver exist. |
| ProductHandlers.Gift | src/controllers/products/handlers/gift.handler.ts:4-69 | Fails on a self gift, then on a missing party, then when the sender has no rows of the product; errors leave the store unchanged. Once all three checks pass the call succeeds, and the stock is the `Transfer` of the sender's rows of the product. |
| ProductHandlers.GiftMoves | src/controllers/products/handlers/gift.handler.ts:32-65 | In every fridge, the receiver's new row is the old receiver row plus the sender's row, and the sender's row is gone. Other products and third users are unchanged. Fridge volumes, (product, fridge) counts and the pair's combined holding are conserved, and the sender's holding becomes 0. |
| ProductHandlers.UpsertReceiverRows | src/controllers/products/handlers/gift.handler.ts:32-54 | The upserts add each sender row's quantity, read before the first upsert, to the receiver's row of the same product and fridge (`Credit`). |
| ProductHandlers.TransferKeepsValid | src/controllers/products/handlers/gift.handler.ts:32-65 | A transfer to an existing user keeps every foreign key of the stock table. |
| ProductHandlers.GiftAllProductsInFridge | src/controllers/products/handlers/giftAllProductsInFridge.handler.ts:4-86 | Same checks as gift, plus a fridge check whenever a fridge id is passed, even "". Fails on no sender rows in scope. Once every check passes the call succeeds, and the stock is the `Transfer` of the sender's rows in scope. |
| ProductHandlers.DeleteRows | src/controllers/products/handlers/giftAllProductsInFridge.handler.ts:73-82 | The deletes remove exactly the listed rows and keep every other row. |
| ProductHandlers.GiftAllMoves | src/controllers/products/handlers/giftAllProductsInFridge.handler.ts:46-85 | Each row in scope is added to the receiver's matching row and removed. Sender rows out of scope and third users are unchanged. Every fridge's volume and (product, fridge) count is conserved. |
| Ledger.CreditRows | src/controllers/products/handlers/gift.handler.ts:33-54 | After the upserts, each moved row's receiver row holds its old quantity (0 if it was absent) plus the moved row's quantity. Every row that was not credited keeps its quantity. No row appears other than those receiver rows. |
| Ledger.CreditStep | src/controllers/products/handlers/gift.handler.ts:33-54 | One more upsert is one more step of the credit. |
| Ledger.TransferRows | src/controllers/products/handlers/gift.handler.ts:32-65 | Moved rows are gone. Each receiver image holds its old quantity plus the moved row. Untouched rows are unchanged, and no row appears from nowhere. |
| Ledger.TransferNothing | src/controllers/products/handlers/gift.handler.ts:32-65 | Transferring no rows leaves the stock as it is. |
| Ledger.TransferStep | src/controllers/products/handlers/giftAllProductsInFridge.handler.ts:46-85 | Moving one more row is one upsert and one delete applied to the transfer so far. |
| Ledger.MoveRowShifts | src/controllers/products/handlers/giftAllProductsInFridge.handler.ts:46-85 | Moving one row changes any total by the row's weight under its new holder minus its weight under the old one. |
| Ledger.MoveRowWeighs | src/controllers/products/handlers/giftAllProductsInFridge.handler.ts:46-85 | Moving one row to another user keeps every total that does not tell users apart. |
| Ledger.TransferWeighs | src/controllers/products/handlers/giftAllProductsInFridge.handler.ts:46-85 | A transfer keeps every fridge's occupied volume and every (product, fridge) count. |
| Ledger.MoveRowHoldings | src/controllers/products/handlers/gift.handler.ts:32-65 | Moving one sender row keeps the pair's combined holding of a product. |
| Ledger.HoldingsMove | src/controllers/products/handlers/gift.handler.ts:32-65 | A transfer keeps the sender's plus the receiver's holding of every product. |
| Ledger.TransferHoldings | src/controllers/products/handlers/gift.handler.ts:59-65 | When every sender row of the product moves, the sender holds none of it and the receiver gains exactly the sender's former holding. |
| Ledger.SumRemove | src/controllers/products/handlers/create.handler.ts:60-62 | A sum over rows does not depend on the order the rows are added in. |
| Ledger.SumUpdate | src/controllers/products/handlers/create.handler.ts:60-62 | Overwriting one entry shifts the sum by the difference. |
| ProductHandlers.GetProductsInFridge | src/controllers/products/handlers/getProductsInFridge.handler.ts:6-59 | Checks the user, then the fridge only if its id is truthy. The result is exactly the views of the user's rows in scope whose fridge is at the location (when the location is truthy, so 0 does not filter). It is non-empty iff such a row exists; otherwise it fails with the location message or the fridge message. |
| ProductHandlers.Views | src/controllers/products/handlers/getProductsInFridge.handler.ts:52-59 | A view is in the result iff it shows a listed row: its quantity, fridge and the catalogue's name, type and size. |
| ProductHandlers.ViewsShow | src/controllers/products/handlers/get.handler.ts:32-41 | Mapping rows to views loses and invents no row. |
| ProductHandlers.Get | src/controllers/products/handlers/get.handler.ts:6-42 | Fails on an unknown user. Otherwise succeeds iff the user keeps a row of the product, and the result is exactly the views of those rows, one per fridge. |
| RecipeHandlers.IdsCount | src/controllers/recipes/handlers/create.handler.ts:17-27 | A list has as many distinct ids as entries iff no id repeats. |
| RecipeHandlers.IdsSnoc | src/controllers/recipes/handlers/create.handler.ts:17-27 | The ids of a list are those of all but its last item, plus the last item's id. |
| RecipeHandlers.DistinctSnoc | src/controllers/recipes/handlers/create.handler.ts:17-27 | A list is repeat-free iff all but its last item are and the last id is new. |
| RecipeHandlers.IntersectionCount | src/controllers/recipes/handlers/create.handler.ts:19-24 | Looking a set of ids up finds at most one row per id, and finds them all iff every id exists. |
| RecipeHandlers.KnownCount | src/controllers/recipes/handlers/create.handler.ts:19-23 | The lookup finds one product per distinct id, and all distinct ids are found iff every id is in the catalogue. |
| RecipeHandlers.ProductsCheck | src/controllers/recipes/handlers/create.handler.ts:18-26 | The count comparison accepts a list iff every id is known and no id repeats. |
| RecipeHandlers.Create | src/controllers/recipes/handlers/create.handler.ts:7-73 | Checks the user, then the products (non-empty list only), then name uniqueness per user; these failures leave the store unchanged. Then the recipe row is inserted with the generated id. Exactly the positive-quantity items become ingredient rows with their quantities. The call succeeds iff every quantity is positive and then echoes id, name, description, user and the list (`[]` when absent). |
| RecipeHandlers.InsertIngredients | src/controllers/recipes/handlers/update.handler.ts:35-43 | The inserts run one after the other. The table afterwards is the fold `Inserted` of the items, and the call reports success iff no insert was refused (`NoneRefused`). |
| RecipeHandlers.FirstOccurrence | src/controllers/recipes/handlers/update.handler.ts:35-43 | An id a list mentions has a first occurrence. |
| RecipeHandlers.EarlierInserted | src/controllers/recipes/handlers/update.handler.ts:35-43 | An item naming a known product is the first of its id, or an earlier item of that id was inserted. |
| RecipeHandlers.RefusedStep | src/controllers/recipes/handlers/update.handler.ts:35-43 | A refused insert belongs to an item that makes no row, and it changes nothing. |
| RecipeHandlers.AcceptedStep | src/controllers/recipes/handlers/update.handler.ts:35-43 | An accepted insert belongs to an item that makes a row, and it adds just that row with the item's quantity. |
| RecipeHandlers.InsertedRows | src/controllers/recipes/handlers/update.handler.ts:35-43 | After the inserts, other recipes' rows are kept. The recipe has a row exactly for each product some item inserts, holding that item's quantity. An item inserts iff it passes the quantity guard, names a known product and is the first with its id. |
| RecipeHandlers.NoneRefusedMeans | src/controllers/recipes/handlers/update.handler.ts:35-43 | No insert is refused iff every item inserts. |
| RecipeHandlers.InsertedResolve | src/controllers/recipes/handlers/update.handler.ts:36-42 | The inserts only add rows of the recipe that name catalogue products. |
| RecipeHandlers.GuardedInserts | src/controllers/recipes/handlers/create.handler.ts:50-63 | For known, distinct ids, an item makes a row iff its quantity is positive. |
| RecipeHandlers.GuardedRows | src/controllers/recipes/handlers/create.handler.ts:50-63 | Create's guarded inserts keep every old row and add only rows of the new recipe for positive-quantity items. Every positive item gets its row with its quantity. No insert is refused iff every quantity is positive. |
| RecipeHandlers.AddIngredients | src/controllers/recipes/handlers/create.handler.ts:49-64 | The store after create's inserts, as `GuardedRows` states, with its keys kept valid. |
| RecipeHandlers.UnguardedMade | src/controllers/recipes/handlers/update.handler.ts:30-44 | Without the guard, a product gets a row iff it is known and listed. |
| RecipeHandlers.UnguardedAll | src/controllers/recipes/handlers/update.handler.ts:30-44 | Without the guard, every item inserts iff the list is known and free of repeats. |
| RecipeHandlers.UnguardedRows | src/controllers/recipes/handlers/update.handler.ts:30-44 | Update's inserts keep other recipes' rows. The recipe has a row exactly for each known listed product, holding the quantity of the first item naming it. No insert is refused iff the list is known and repeat-free. |
| RecipeHandlers.ReplaceIngredients | src/controllers/recipes/handlers/update.handler.ts:30-44 | Deleting the recipe's rows and then inserting the list leaves the store in the state `UnguardedRows` states, relative to the table before the delete, with its keys valid. |
| RecipeHandlers.Patched | src/controllers/recipes/handlers/update.handler.ts:16-27 | Present fields replace, absent fields keep their values, and the owner never changes. |
| RecipeHandlers.PatchIdempotent | src/controllers/recipes/handlers/update.handler.ts:16-27 | Applying the same patch twice equals applying it once. |
| RecipeHandlers.EmptyPatch | src/controllers/recipes/handlers/update.handler.ts:16-27 | A patch with neither name nor description leaves the recipe unchanged. |
| RecipeHandlers.Update | src/controllers/recipes/handlers/update.handler.ts:7-47 | Fails on an unknown recipe with nothing changed; otherwise it patches the recipe. An absent or empty list leaves the ingredient rows alone, and the call succeeds. A non-empty list deletes the recipe's rows, then inserts the list, with no quantity, existence or name checks of its own. The recipe then has a row exactly for each known listed product, holding the quantity of its first item. Other recipes are unchanged. With a non-empty list, the call succeeds iff the list is known and repeat-free. On success it returns the patched name, description and owner with the list (`[]` when absent). Like the source's `RecipeBody` result, it carries no id. |
| RecipeHandlers.ReplacementIsExact | src/controllers/recipes/handlers/update.handler.ts:30-44 | For a known, repeat-free list, the recipe's rows after an update are exactly the list's ids with the list's quantities; nothing is merged. |
| RecipeHandlers.UnownedWeighsNothing | src/controllers/recipes/handlers/getMissingProducts.handler.ts:24-46 | An owner with no rows of a product holds 0 of it. |
| RecipeHandlers.MissingMeans | src/controllers/recipes/handlers/getMissingProducts.handler.ts:30-59 | An entry is emitted iff the owner has no row or holds less than needed. Its amount is the need minus the owner's summed holding, which is positive whenever the owner has a row. |
| RecipeHandlers.Shortfall | src/controllers/recipes/handlers/getMissingProducts.handler.ts:24-59 | One ingredient's shortfall is `Missing`: the whole need when the owner keeps no row, the need minus their summed rows when that sum is short, else none. |
| RecipeHandlers.ShortfallsAppend | src/controllers/recipes/handlers/getMissingProducts.handler.ts:23-60 | Visiting one more product appends its entry, if it has one. |
| RecipeHandlers.ShortfallsBound | src/controllers/recipes/handlers/getMissingProducts.handler.ts:23-60 | There are at most as many entries as products visited. |
| RecipeHandlers.ShortfallsEntries | src/controllers/recipes/handlers/getMissingProducts.handler.ts:36-57 | Each entry names a visited product with its catalogue name, type and size, and the amount the owner lacks. |
| RecipeHandlers.ShortfallsCover | src/controllers/recipes/handlers/getMissingProducts.handler.ts:23-60 | A visited product has an entry iff the owner lacks some of it. |
| RecipeHandlers.ShortfallsDistinct | src/controllers/recipes/handlers/getMissingProducts.handler.ts:23-60 | When no product is visited twice, no product has two entries. |
| RecipeHandlers.VisitNext | src/controllers/recipes/handlers/getMissingProducts.handler.ts:14-23 | Each ingredient row of the recipe names a different product, so visiting one more row visits a new product. |
| RecipeHandlers.ShortfallsOwnerOnly | src/controllers/recipes/handlers/getMissingProducts.handler.ts:24-28 | Only the owner's rows matter: stocks that agree on them give the same entries. |
| RecipeHandlers.GetMissingProducts | src/controllers/recipes/handlers/getMissingProducts.handler.ts:5-63 | Fails with "Recipe not found" on an unknown recipe. Otherwise it visits each ingredient row of the recipe once and returns the shortfall entries in visiting order, or `[]` when there are no rows. It never writes the store. |

## Left out

- I/O and the database: Prisma calls are modelled as reads and writes of the `Store` fields. The handlers run one at a time; concurrency, transactions and interleaving between handlers are not modelled.
- Promise.all fan-outs are modelled as loops run one after the other.
  - In recipe create, every callback still runs when another one throws. So every positive-quantity item is inserted and the call fails once if any quantity is ≤ 0.
  - Which of two concurrent duplicate inserts wins is not modelled; the first in list order wins.
- Row order: `findMany` results without an ordering are sets of views, and `getMissingProducts` visits the ingredient rows in an unstated order, named by its ghost `order`.
- Generated ids (the product upsert's new row, the recipe row) are a `newId` parameter required to be fresh.
- The "Internal server error" branches are left out; the model's database never returns null or an empty fan-out there:
  - create.handler.ts:30-32, 55-57 and 89-91;
  - gift.handler.ts:55-57;
  - giftAllProductsInFridge.handler.ts:69-71.
- The gift handlers' "No product fridge entries found for deletion" cannot arise: the rows read before the upserts are still there to delete. The model has no such branch.
- The database schema is not part of this model. Two assumptions stand in for it:
  - `Store.Valid()` assumes the foreign keys and the unique keys the handlers rely on: (name, type, size) for products, (product, fridge, user) for stock, and (recipe, product) for ingredients;
  - `IngredientRejected` stands for the database refusing an ingredient insert.
- Quantities, sizes, capacities and amounts are unbounded integers. The handlers do not check their sign: a negative deposit or withdrawal, or a zero or negative recipe-update quantity, passes through as written. JavaScript number precision and fractional values are not modelled.
- Validation pipes of the request bodies (class-validator decorators), authentication guards, password hashing and the controllers' routing are not part of this model.
- The user handlers, recipe get, list, delete, and suggestions (a call to an external language model) are not part of this model.
