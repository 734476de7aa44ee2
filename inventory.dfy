/** The tables of the fridge-sharing store, the request and view shapes the
    handlers exchange, and the errors they raise. */
module Inventory {

  type UserId = string
  type FridgeId = string
  type ProductId = string
  type RecipeId = string

  datatype Option<+T> = None | Some(value: T) {
    function GetOr(default: T): T {
      match this
      case Some(v) => v
      case None => default
    }
  }

  /** A handler either returns its value or throws one of the errors below. */
  datatype Result<+T> = Ok(value: T) | Err(error: Error)

  /** The exceptions the handlers throw, one constructor per message. */
  datatype Error =
    | UserNotFound                   // "User not found"
    | FridgeNotFound                 // "Fridge not found"
    | NotEnoughSpace                 // "Not enough space in the fridge"
    | NoProductToUpdate              // "No product found to update quantity"
    | NothingToDelete                // "No products found in this fridge for the user to delete"
    | SelfGift                       // "Sender and receiver cannot be the same user"
    | SenderOrReceiverNotFound       // "Sender or receiver user not found"
    | ProductNotInSenderFridge       // "Product not found in sender's fridge"
    | NoProductsInFridges            // "No products found in fridge(s)"
    | NoProductsAtLocation(location: int)  // "No products found in fridge at location: <location>"
    | NoProductsInFridge             // "No products found in this fridge"
    | ProductNotFound                // "Product not found"
    | RecipeNotFound                 // "Recipe not found"
    | UserDoesNotExist               // "User does not exist"
    | ProductsDoNotExist             // "One or more products do not exist"
    | DuplicateRecipeName            // "Recipe with this name already exists"
    | NonPositiveQuantity            // "Product quantity must be greater than 0"
    | IngredientRejected             // the database refuses an ingredient row (duplicate key or unknown product)

  /** A fridge: the floor or zone it stands on and its volume. */
  datatype Fridge = Fridge(location: int, capacity: int)

  /** A catalogue product; the triple (name, kind, size) is unique in the catalogue.
      `kind` is the product type (FOOD, DRINK, ...). */
  datatype Product = Product(name: string, kind: string, size: int)

  /** The key of a stock row: this user keeps this product in this fridge. */
  datatype StockKey = StockKey(product: ProductId, fridge: FridgeId, user: UserId)

  datatype Recipe = Recipe(name: string, description: string, user: UserId)

  /** The key of an ingredient row: this recipe needs this product. */
  datatype IngredientKey = IngredientKey(recipe: RecipeId, product: ProductId)

  type Catalogue = map<ProductId, Product>
  type Stock = map<StockKey, int>
  type Ingredients = map<IngredientKey, int>

  /** The quantity of a stock row, 0 when there is no row. */
  function Held(stock: Stock, k: StockKey): int {
    if k in stock then stock[k] else 0
  }

  /** The same row key, held by user `u`. */
  function WithUser(k: StockKey, u: UserId): StockKey {
    k.(user := u)
  }

  /** JavaScript truthiness of an optional identifier: absent and "" are false. */
  predicate Given(id: Option<string>) {
    id.Some? && id.value != ""
  }

  /** A stock query's optional fridge filter: an absent filter matches every row. */
  predicate InScope(k: StockKey, fridgeId: Option<FridgeId>) {
    fridgeId.None? || k.fridge == fridgeId.value
  }

  /** The catalogue's unique constraint on (name, type, size). */
  ghost predicate UniqueTriples(products: Catalogue) {
    forall p, q :: p in products && q in products && products[p] == products[q] ==> p == q
  }

  /** Every stock row refers to an existing product and fridge. */
  ghost predicate RowsResolve(fridges: map<FridgeId, Fridge>, products: Catalogue, stock: Stock) {
    forall k :: k in stock ==> k.product in products && k.fridge in fridges
  }

  /** Every ingredient row refers to an existing product. */
  ghost predicate IngredientsResolve(products: Catalogue, ingredients: Ingredients) {
    forall k :: k in ingredients ==> k.product in products
  }

  /** The relational store the handlers read and write. */
  class Store {
    var users: set<UserId>
    var fridges: map<FridgeId, Fridge>
    var products: Catalogue
    var stock: Stock
    var recipes: map<RecipeId, Recipe>
    var ingredients: Ingredients

    /** The database's keys and constraints: foreign keys from stock, recipes
        and ingredients, and the unique product triple. */
    ghost predicate Valid()
      reads this
    {
      && UniqueTriples(products)
      && RowsResolve(fridges, products, stock)
      && (forall k :: k in stock ==> k.user in users)
      && (forall r :: r in recipes ==> recipes[r].user in users)
      && IngredientsResolve(products, ingredients)
      && (forall k :: k in ingredients ==> k.recipe in recipes)
    }

    constructor (users: set<UserId>, fridges: map<FridgeId, Fridge>)
      ensures Valid()
      ensures this.users == users && this.fridges == fridges
      ensures products == map[] && stock == map[] && recipes == map[] && ingredients == map[]
    {
      this.users := users;
      this.fridges := fridges;
      products := map[];
      stock := map[];
      recipes := map[];
      ingredients := map[];
    }
  }
}
