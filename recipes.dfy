/** The recipe handlers: create and update a recipe with its ingredient rows,
    and list what the recipe's owner lacks to cook it. */
module RecipeHandlers {
  import opened Inventory
  import opened Ledger

  /** One ingredient of a request: a product id and the quantity needed. */
  datatype Item = Item(id: ProductId, quantity: int)

  /** A recipe as create receives it and as update returns it (without its id). */
  datatype RecipeBody = RecipeBody(name: string, description: string, userId: UserId, products: Option<seq<Item>>)

  /** A recipe as the create and update handlers return it. */
  datatype RecipeView = RecipeView(id: RecipeId, name: string, description: string, userId: UserId, products: seq<Item>)

  /** A patch: absent fields keep their stored values. */
  datatype RecipeUpdateBody = RecipeUpdateBody(name: Option<string>, description: Option<string>, products: Option<seq<Item>>)

  /** One product the owner lacks: its catalogue details and the amount missing. */
  datatype MissingProduct = MissingProduct(productId: ProductId, name: string, kind: string, size: int, amount: int)

  /** `body.products || []`: an absent list reads as the empty one. */
  function Listed(products: Option<seq<Item>>): seq<Item> {
    products.GetOr([])
  }

  // ---------------------------------------------------------------------
  // the product check of create

  /** The distinct product ids a list mentions. */
  function Ids(ps: seq<Item>): set<ProductId> {
    set i | 0 <= i < |ps| :: ps[i].id
  }

  predicate Known(ps: seq<Item>, products: Catalogue) {
    forall i :: 0 <= i < |ps| ==> ps[i].id in products
  }

  predicate DistinctIds(ps: seq<Item>) {
    forall i, j :: 0 <= i < j < |ps| ==> ps[i].id != ps[j].id
  }

  /** The ids of a list are those of all but its last item, plus the last. */
  lemma IdsSnoc(ps: seq<Item>)
    requires |ps| > 0
    ensures Ids(ps) == Ids(ps[..|ps| - 1]) + {ps[|ps| - 1].id}
  {
    var n := |ps| - 1;
    var init := ps[..n];
    forall x | x in Ids(ps) ensures x in Ids(init) + {ps[n].id} {
      var i :| 0 <= i < |ps| && ps[i].id == x;
      if i < n {
        assert init[i] == ps[i];
      }
    }
    forall x | x in Ids(init) ensures x in Ids(ps) {
      var i :| 0 <= i < n && init[i].id == x;
      assert ps[i] == init[i];
    }
  }

  /** A list is free of repeats exactly when all but its last item are and
      the last id is new. */
  lemma DistinctSnoc(ps: seq<Item>)
    requires |ps| > 0
    ensures DistinctIds(ps) <==> DistinctIds(ps[..|ps| - 1]) && ps[|ps| - 1].id !in Ids(ps[..|ps| - 1])
  {
    var n := |ps| - 1;
    var init := ps[..n];
    if ps[n].id in Ids(init) {
      var j :| 0 <= j < n && init[j].id == ps[n].id;
      assert ps[j].id == ps[n].id;
    } else if DistinctIds(init) {
      forall i, j | 0 <= i < j < |ps| ensures ps[i].id != ps[j].id {
        assert init[i] == ps[i];
        if j < n {
          assert init[j] == ps[j];
        } else {
          assert ps[i].id in Ids(init);
        }
      }
    }
    if DistinctIds(ps) {
      forall i, j | 0 <= i < j < n ensures init[i].id != init[j].id {
        assert init[i] == ps[i] && init[j] == ps[j];
      }
    }
  }

  /** A list has as many distinct ids as entries exactly when no id repeats. */
  lemma {:induction false} IdsCount(ps: seq<Item>)
    ensures |Ids(ps)| <= |ps|
    ensures |Ids(ps)| == |ps| <==> DistinctIds(ps)
  {
    if |ps| == 0 {
      assert Ids(ps) == {};
    } else {
      var init := ps[..|ps| - 1];
      IdsCount(init);
      IdsSnoc(ps);
      DistinctSnoc(ps);
    }
  }

  /** Intersecting with another set keeps at most every element, and keeps
      them all exactly when the set is contained in the other. */
  lemma IntersectionCount(a: set<ProductId>, b: set<ProductId>)
    ensures |a * b| <= |a|
    ensures |a * b| == |a| <==> a <= b
  {
    assert a == (a - b) + a * b;
    assert (a - b) * (a * b) == {};
    assert |a - b| + |a * b| == |a|;
    if !(a <= b) {
      var x :| x in a && x !in b;
      assert x in a - b;
    } else {
      assert a - b == {};
    }
  }

  /** Looking the ids up finds one catalogue row per distinct id that exists. */
  lemma KnownCount(ps: seq<Item>, products: Catalogue)
    ensures |Ids(ps) * products.Keys| <= |Ids(ps)|
    ensures |Ids(ps) * products.Keys| == |Ids(ps)| <==> Known(ps, products)
  {
    IntersectionCount(Ids(ps), products.Keys);
    if !Known(ps, products) {
      var i :| 0 <= i < |ps| && ps[i].id !in products;
      assert ps[i].id in Ids(ps);
    }
  }

  /** The create handler's count comparison accepts a list exactly when every
      id names a catalogue product and no id repeats. */
  lemma ProductsCheck(ps: seq<Item>, products: Catalogue)
    ensures |Ids(ps) * products.Keys| == |ps| <==> Known(ps, products) && DistinctIds(ps)
  {
    IdsCount(ps);
    KnownCount(ps, products);
  }

  /** The user already has a recipe of this name. */
  predicate NameTaken(recipes: map<RecipeId, Recipe>, userId: UserId, name: string) {
    exists r :: r in recipes && recipes[r].name == name && recipes[r].user == userId
  }

  // ---------------------------------------------------------------------
  // ingredient inserts

  /** Whether the `i`th item becomes a row when the items are inserted one
      after the other into a recipe with no rows: a guarded insert refuses a
      quantity of 0 or less, and the database refuses an unknown product and
      a product already inserted for the recipe, so only the first item
      naming a product can make its row. */
  predicate Inserts(items: seq<Item>, i: int, guarded: bool, products: Catalogue) {
    && 0 <= i < |items|
    && (guarded ==> items[i].quantity > 0)
    && items[i].id in products
    && forall j :: 0 <= j < i ==> items[j].id != items[i].id
  }

  /** An id the list mentions has a first occurrence. */
  lemma {:induction false} FirstOccurrence(items: seq<Item>, n: int, p: ProductId)
    requires 0 <= n <= |items|
    requires exists j :: 0 <= j < n && items[j].id == p
    ensures exists j :: 0 <= j < n && items[j].id == p && forall i :: 0 <= i < j ==> items[i].id != p
  {
    if exists j :: 0 <= j < n - 1 && items[j].id == p {
      FirstOccurrence(items, n - 1, p);
    } else {
      assert items[n - 1].id == p;
    }
  }

  /** Unguarded inserts make a row for a product exactly when the product is
      known and listed. */
  lemma UnguardedMade(items: seq<Item>, products: Catalogue, p: ProductId)
    ensures Made(items, |items|, false, products, p) <==> p in products && p in Ids(items)
  {
    if p in products && p in Ids(items) {
      var i :| 0 <= i < |items| && items[i].id == p;
      FirstOccurrence(items, |items|, p);
      var j :| 0 <= j < |items| && items[j].id == p && forall l :: 0 <= l < j ==> items[l].id != p;
      assert Inserts(items, j, false, products);
    }
  }

  /** Every unguarded insert makes a row exactly when the list is known and
      free of repeats. */
  lemma UnguardedAll(items: seq<Item>, products: Catalogue)
    ensures (forall i :: 0 <= i < |items| ==> Inserts(items, i, false, products)) <==>
      Known(items, products) && DistinctIds(items)
  {
    if forall i :: 0 <= i < |items| ==> Inserts(items, i, false, products) {
      forall i | 0 <= i < |items| ensures items[i].id in products {
        assert Inserts(items, i, false, products);
      }
      forall i, j | 0 <= i < j < |items| ensures items[i].id != items[j].id {
        assert Inserts(items, j, false, products);
      }
    }
  }

  /** Guarded inserts of known, distinct ids make a row exactly for the
      items of positive quantity. */
  lemma GuardedInserts(items: seq<Item>, products: Catalogue)
    requires Known(items, products) && DistinctIds(items)
    ensures forall i :: 0 <= i < |items| ==> (Inserts(items, i, true, products) <==> items[i].quantity > 0)
  {
  }

  /** An item naming a known product is either the first of its id or
      shares its id with an earlier item that was inserted. */
  lemma EarlierInserted(items: seq<Item>, i: int, guarded: bool, products: Catalogue)
    requires 0 <= i < |items| && items[i].id in products
    requires guarded ==> DistinctIds(items)
    ensures || (forall j :: 0 <= j < i ==> items[j].id != items[i].id)
            || (exists j :: 0 <= j < i && Inserts(items, j, guarded, products) && items[j].id == items[i].id)
  {
    if !guarded && exists j :: 0 <= j < i && items[j].id == items[i].id {
      FirstOccurrence(items, i, items[i].id);
      var j :| 0 <= j < i && items[j].id == items[i].id && forall l :: 0 <= l < j ==> items[l].id != items[i].id;
      assert Inserts(items, j, guarded, products);
    }
  }

  /** Whether inserting `item` as a row of `recipe` into `rows` is refused:
      by the quantity guard, or by the database for a row already there or an
      unknown product. */
  predicate Refused(rows: Ingredients, recipe: RecipeId, item: Item, guarded: bool, products: Catalogue) {
    || (guarded && item.quantity <= 0)
    || IngredientKey(recipe, item.id) in rows
    || item.id !in products
  }

  /** The ingredient table after the first `n` inserts, one after the other. */
  function Inserted(base: Ingredients, recipe: RecipeId, items: seq<Item>, n: nat, guarded: bool, products: Catalogue): Ingredients
    requires n <= |items|
  {
    if n == 0 then base
    else
      var rows := Inserted(base, recipe, items, n - 1, guarded, products);
      var item := items[n - 1];
      if Refused(rows, recipe, item, guarded, products) then rows
      else rows[IngredientKey(recipe, item.id) := item.quantity]
  }

  /** Whether none of the first `n` inserts was refused. */
  function NoneRefused(base: Ingredients, recipe: RecipeId, items: seq<Item>, n: nat, guarded: bool, products: Catalogue): bool
    requires n <= |items|
  {
    n == 0 ||
    (NoneRefused(base, recipe, items, n - 1, guarded, products) &&
     !Refused(Inserted(base, recipe, items, n - 1, guarded, products), recipe, items[n - 1], guarded, products))
  }

  /** Some item among the first `n` inserts a row for product `p`. */
  ghost predicate Made(items: seq<Item>, n: int, guarded: bool, products: Catalogue, p: ProductId) {
    exists j :: 0 <= j < n && Inserts(items, j, guarded, products) && items[j].id == p
  }

  /** `rows` is what the first `n` inserts make of `base`: rows of other
      recipes are kept, and the recipe has a row exactly for each product an
      item inserts, holding that item's quantity. */
  ghost predicate Describes(rows: Ingredients, base: Ingredients, recipe: RecipeId, items: seq<Item>, n: int,
                            guarded: bool, products: Catalogue) {
    && (forall k: IngredientKey :: k.recipe != recipe ==> (k in rows <==> k in base))
    && (forall k :: k in base ==> k in rows && rows[k] == base[k])
    && (forall k: IngredientKey :: k.recipe == recipe ==> (k in rows <==> Made(items, n, guarded, products, k.product)))
    && (forall j :: 0 <= j < n && Inserts(items, j, guarded, products) ==>
          IngredientKey(recipe, items[j].id) in rows && rows[IngredientKey(recipe, items[j].id)] == items[j].quantity)
  }

  /** A refused insert is an item that does not insert, and changes nothing. */
  lemma RefusedStep(rows: Ingredients, base: Ingredients, recipe: RecipeId, items: seq<Item>, i: int, guarded: bool, products: Catalogue)
    requires 0 <= i < |items| && Describes(rows, base, recipe, items, i, guarded, products)
    requires Refused(rows, recipe, items[i], guarded, products)
    ensures !Inserts(items, i, guarded, products)
    ensures Describes(rows, base, recipe, items, i + 1, guarded, products)
  {
    var item := items[i];
    if IngredientKey(recipe, item.id) in rows {
      var j :| 0 <= j < i && Inserts(items, j, guarded, products) && items[j].id == item.id;
    }
    forall k: IngredientKey | k.recipe == recipe
      ensures k in rows <==> Made(items, i + 1, guarded, products, k.product)
    {
      if Made(items, i + 1, guarded, products, k.product) {
        var j :| 0 <= j < i + 1 && Inserts(items, j, guarded, products) && items[j].id == k.product;
        assert j < i;
      }
    }
  }

  /** An accepted insert is an item that inserts, and adds just its row. */
  lemma AcceptedStep(rows: Ingredients, base: Ingredients, recipe: RecipeId, items: seq<Item>, i: int, guarded: bool, products: Catalogue)
    requires 0 <= i < |items| && Describes(rows, base, recipe, items, i, guarded, products)
    requires forall k :: k in base ==> k.recipe != recipe
    requires guarded ==> DistinctIds(items)
    requires !Refused(rows, recipe, items[i], guarded, products)
    ensures Inserts(items, i, guarded, products)
    ensures Describes(rows[IngredientKey(recipe, items[i].id) := items[i].quantity], base, recipe, items, i + 1, guarded, products)
  {
    var item := items[i];
    var key := IngredientKey(recipe, item.id);
    var rows' := rows[key := item.quantity];
    EarlierInserted(items, i, guarded, products);
    assert Inserts(items, i, guarded, products);
    forall k: IngredientKey | k.recipe == recipe
      ensures k in rows' <==> Made(items, i + 1, guarded, products, k.product)
    {
      if k == key {
        assert items[i].id == k.product;
      } else if Made(items, i + 1, guarded, products, k.product) {
        var j :| 0 <= j < i + 1 && Inserts(items, j, guarded, products) && items[j].id == k.product;
        assert j != i;
      }
    }
    forall j | 0 <= j < i + 1 && Inserts(items, j, guarded, products)
      ensures IngredientKey(recipe, items[j].id) in rows' && rows'[IngredientKey(recipe, items[j].id)] == items[j].quantity
    {
      if j < i {
        assert items[j].id != items[i].id;
      }
    }
  }

  /** What the inserts do, for a recipe that starts with no rows: `Describes`
      holds of the table after them. */
  lemma {:induction false} InsertedRows(base: Ingredients, recipe: RecipeId, items: seq<Item>, n: nat, guarded: bool, products: Catalogue)
    requires n <= |items|
    requires forall k :: k in base ==> k.recipe != recipe
    requires guarded ==> DistinctIds(items)
    ensures Describes(Inserted(base, recipe, items, n, guarded, products), base, recipe, items, n, guarded, products)
  {
    if n == 0 {
      var rows := Inserted(base, recipe, items, n, guarded, products);
      forall k: IngredientKey | k.recipe == recipe
        ensures k in rows <==> Made(items, n, guarded, products, k.product)
      {
      }
    } else {
      var i := n - 1;
      InsertedRows(base, recipe, items, i, guarded, products);
      var rows := Inserted(base, recipe, items, i, guarded, products);
      if Refused(rows, recipe, items[i], guarded, products) {
        RefusedStep(rows, base, recipe, items, i, guarded, products);
      } else {
        AcceptedStep(rows, base, recipe, items, i, guarded, products);
      }
    }
  }

  /** No insert is refused exactly when every item inserts. */
  lemma {:induction false} NoneRefusedMeans(base: Ingredients, recipe: RecipeId, items: seq<Item>, n: nat, guarded: bool, products: Catalogue)
    requires n <= |items|
    requires forall k :: k in base ==> k.recipe != recipe
    requires guarded ==> DistinctIds(items)
    ensures NoneRefused(base, recipe, items, n, guarded, products) <==> forall j :: 0 <= j < n ==> Inserts(items, j, guarded, products)
  {
    if n > 0 {
      var i := n - 1;
      NoneRefusedMeans(base, recipe, items, i, guarded, products);
      InsertedRows(base, recipe, items, i, guarded, products);
      var rows := Inserted(base, recipe, items, i, guarded, products);
      if Refused(rows, recipe, items[i], guarded, products) {
        RefusedStep(rows, base, recipe, items, i, guarded, products);
      } else {
        AcceptedStep(rows, base, recipe, items, i, guarded, products);
      }
    }
  }

  /** The inserts add rows of `recipe` for catalogue products only. */
  lemma {:induction false} InsertedResolve(base: Ingredients, recipe: RecipeId, items: seq<Item>, n: nat, guarded: bool, products: Catalogue)
    requires n <= |items|
    ensures forall k :: k in Inserted(base, recipe, items, n, guarded, products) ==>
      k in base || (k.recipe == recipe && k.product in products)
  {
    if n > 0 {
      InsertedResolve(base, recipe, items, n - 1, guarded, products);
    }
  }

  /** What the guarded inserts of create make of a table with no rows for the
      new recipe, given known and distinct ids: every old row stays, the new
      rows are the recipe's, one per item of positive quantity, and no insert
      is refused exactly when every quantity is positive. */
  lemma GuardedRows(base: Ingredients, recipe: RecipeId, ps: seq<Item>, products: Catalogue)
    requires Known(ps, products) && DistinctIds(ps)
    requires forall k :: k in base ==> k.recipe != recipe
    ensures var rows := Inserted(base, recipe, ps, |ps|, true, products);
      && (forall k :: k in base ==> k in rows && rows[k] == base[k])
      && (forall k :: k in rows && k !in base ==>
            k.recipe == recipe && exists i :: 0 <= i < |ps| && ps[i].id == k.product && ps[i].quantity > 0)
      && (forall i :: 0 <= i < |ps| && ps[i].quantity > 0 ==>
            IngredientKey(recipe, ps[i].id) in rows && rows[IngredientKey(recipe, ps[i].id)] == ps[i].quantity)
      && (NoneRefused(base, recipe, ps, |ps|, true, products) <==> forall i :: 0 <= i < |ps| ==> ps[i].quantity > 0)
  {
    InsertedRows(base, recipe, ps, |ps|, true, products);
    NoneRefusedMeans(base, recipe, ps, |ps|, true, products);
    GuardedInserts(ps, products);
    var rows := Inserted(base, recipe, ps, |ps|, true, products);
    forall k | k in rows && k !in base
      ensures k.recipe == recipe && exists i :: 0 <= i < |ps| && ps[i].id == k.product && ps[i].quantity > 0
    {
      assert Made(ps, |ps|, true, products, k.product);
    }
  }

  /** What the unguarded inserts of update make of a table with no rows for
      the recipe: rows of other recipes are kept, the recipe has a row for
      each known listed product, holding the quantity of the first item that
      names it, and no insert is refused exactly when the list is known and
      free of repeats. */
  lemma UnguardedRows(base: Ingredients, recipe: RecipeId, ps: seq<Item>, products: Catalogue)
    requires forall k :: k in base ==> k.recipe != recipe
    ensures var rows := Inserted(base, recipe, ps, |ps|, false, products);
      && (forall k: IngredientKey :: k.recipe != recipe ==> (k in rows <==> k in base))
      && (forall k :: k in base ==> k in rows && rows[k] == base[k])
      && (forall k: IngredientKey :: k.recipe == recipe ==> (k in rows <==> k.product in products && k.product in Ids(ps)))
      && (forall i :: 0 <= i < |ps| && ps[i].id in products && (forall j :: 0 <= j < i ==> ps[j].id != ps[i].id) ==>
            IngredientKey(recipe, ps[i].id) in rows && rows[IngredientKey(recipe, ps[i].id)] == ps[i].quantity)
      && (NoneRefused(base, recipe, ps, |ps|, false, products) <==> Known(ps, products) && DistinctIds(ps))
  {
    InsertedRows(base, recipe, ps, |ps|, false, products);
    NoneRefusedMeans(base, recipe, ps, |ps|, false, products);
    UnguardedAll(ps, products);
    var rows := Inserted(base, recipe, ps, |ps|, false, products);
    forall k: IngredientKey | k.recipe == recipe
      ensures k in rows <==> k.product in products && k.product in Ids(ps)
    {
      UnguardedMade(ps, products, k.product);
    }
    forall i | 0 <= i < |ps| && ps[i].id in products && (forall j :: 0 <= j < i ==> ps[j].id != ps[i].id)
      ensures IngredientKey(recipe, ps[i].id) in rows && rows[IngredientKey(recipe, ps[i].id)] == ps[i].quantity
    {
      assert Inserts(ps, i, false, products);
    }
  }

  /** Inserts `items` as ingredient rows of `recipe` one after the other; a
      refused insert leaves the table as it was and makes the call fail once
      every insert has run. */
  method InsertIngredients(db: Store, recipe: RecipeId, items: seq<Item>, guarded: bool) returns (ok: bool)
    modifies db`ingredients
    ensures db.ingredients == Inserted(old(db.ingredients), recipe, items, |items|, guarded, db.products)
    ensures ok == NoneRefused(old(db.ingredients), recipe, items, |items|, guarded, db.products)
  {
    ghost var base := db.ingredients;
    ok := true;
    var i := 0;
    while i < |items|
      invariant 0 <= i <= |items|
      invariant db.ingredients == Inserted(base, recipe, items, i, guarded, db.products)
      invariant ok == NoneRefused(base, recipe, items, i, guarded, db.products)
    {
      var item := items[i];
      if Refused(db.ingredients, recipe, item, guarded, db.products) {
        ok := false;
      } else {
        db.ingredients := db.ingredients[IngredientKey(recipe, item.id) := item.quantity];
      }
      i := i + 1;
    }
  }

  // ---------------------------------------------------------------------
  // create

  /** Inserts the rows of a new recipe, refusing every item of quantity 0 or
      less; the ids are known and distinct, the recipe has no rows yet. */
  method AddIngredients(db: Store, id: RecipeId, ps: seq<Item>) returns (ok: bool)
    requires db.Valid() && id in db.recipes
    requires forall k :: k in db.ingredients ==> k.recipe != id
    requires Known(ps, db.products) && DistinctIds(ps)
    modifies db`ingredients
    ensures db.Valid()
    ensures forall k :: k in old(db.ingredients) ==> k in db.ingredients && db.ingredients[k] == old(db.ingredients)[k]
    ensures forall k :: k in db.ingredients && k !in old(db.ingredients) ==>
      k.recipe == id && exists i :: 0 <= i < |ps| && ps[i].id == k.product && ps[i].quantity > 0
    ensures forall i :: 0 <= i < |ps| && ps[i].quantity > 0 ==>
      IngredientKey(id, ps[i].id) in db.ingredients && db.ingredients[IngredientKey(id, ps[i].id)] == ps[i].quantity
    ensures ok <==> forall i :: 0 <= i < |ps| ==> ps[i].quantity > 0
  {
    ghost var base := db.ingredients;
    ok := InsertIngredients(db, id, ps, true);
    GuardedRows(base, id, ps, db.products);
    InsertedResolve(base, id, ps, |ps|, true, db.products);
  }

  /** Every check of create passes: the user exists, a non-empty list names
      known products without repeats, and the name is free for the user. */
  predicate Accepted(users: set<UserId>, products: Catalogue, recipes: map<RecipeId, Recipe>, body: RecipeBody) {
    && body.userId in users
    && (|Listed(body.products)| > 0 ==> Known(Listed(body.products), products) && DistinctIds(Listed(body.products)))
    && !NameTaken(recipes, body.userId, body.name)
  }

  /** Creates a recipe and its ingredient rows; `newId` is the id the
      database generates for the recipe row. */
  method Create(db: Store, body: RecipeBody, newId: RecipeId) returns (r: Result<RecipeView>)
    requires db.Valid() && newId !in db.recipes
    modifies db`recipes, db`ingredients
    ensures db.Valid()
    ensures body.userId !in db.users ==> r == Err(UserDoesNotExist)
    ensures body.userId in db.users && |Listed(body.products)| > 0 &&
            !(Known(Listed(body.products), db.products) && DistinctIds(Listed(body.products))) ==>
      r == Err(ProductsDoNotExist)
    ensures body.userId in db.users &&
            (|Listed(body.products)| > 0 ==> Known(Listed(body.products), db.products) && DistinctIds(Listed(body.products))) &&
            NameTaken(old(db.recipes), body.userId, body.name) ==>
      r == Err(DuplicateRecipeName)
    ensures !Accepted(db.users, db.products, old(db.recipes), body) ==>
      db.recipes == old(db.recipes) && db.ingredients == old(db.ingredients)
    ensures Accepted(db.users, db.products, old(db.recipes), body) ==>
      var ps := Listed(body.products);
      && db.recipes == old(db.recipes)[newId := Recipe(body.name, body.description, body.userId)]
      && (forall k :: k in old(db.ingredients) ==> k in db.ingredients && db.ingredients[k] == old(db.ingredients)[k])
      && (forall k :: k in db.ingredients && k !in old(db.ingredients) ==>
            k.recipe == newId && exists i :: 0 <= i < |ps| && ps[i].id == k.product && ps[i].quantity > 0)
      && (forall i :: 0 <= i < |ps| && ps[i].quantity > 0 ==>
            IngredientKey(newId, ps[i].id) in db.ingredients && db.ingredients[IngredientKey(newId, ps[i].id)] == ps[i].quantity)
      && (r.Ok? <==> forall i :: 0 <= i < |ps| ==> ps[i].quantity > 0)
      && (r.Ok? ==> r.value == RecipeView(newId, body.name, body.description, body.userId, ps))
      && (r.Err? ==> r == Err(NonPositiveQuantity))
  {
    if body.userId !in db.users {
      return Err(UserDoesNotExist);
    }
    var ps := Listed(body.products);
    if |ps| > 0 {
      ProductsCheck(ps, db.products);
      if |Ids(ps) * db.products.Keys| != |ps| {
        return Err(ProductsDoNotExist);
      }
    }
    if exists r :: r in db.recipes && db.recipes[r].name == body.name && db.recipes[r].user == body.userId {
      return Err(DuplicateRecipeName);
    }
    db.recipes := db.recipes[newId := Recipe(body.name, body.description, body.userId)];
    if |ps| > 0 {
      var ok := AddIngredients(db, newId, ps);
      if !ok {
        return Err(NonPositiveQuantity);
      }
    }
    return Ok(RecipeView(newId, body.name, body.description, body.userId, ps));
  }

  // ---------------------------------------------------------------------
  // update

  /** The stored recipe after a patch: present fields replace, absent fields
      keep, and the owner never changes. */
  function Patched(recipe: Recipe, body: RecipeUpdateBody): (p: Recipe)
    ensures p.user == recipe.user
    ensures p.name == (if body.name.Some? then body.name.value else recipe.name)
    ensures p.description == (if body.description.Some? then body.description.value else recipe.description)
  {
    Recipe(body.name.GetOr(recipe.name), body.description.GetOr(recipe.description), recipe.user)
  }

  /** Sending the same patch twice changes nothing the first did not. */
  lemma PatchIdempotent(recipe: Recipe, body: RecipeUpdateBody)
    ensures Patched(Patched(recipe, body), body) == Patched(recipe, body)
  {
  }

  /** A patch with neither field leaves the recipe as it was. */
  lemma EmptyPatch(recipe: Recipe, products: Option<seq<Item>>)
    ensures Patched(recipe, RecipeUpdateBody(None, None, products)) == recipe
  {
  }

  /** Replaces the ingredient rows of recipe `id` by the items of `ps`: the
      old rows go, then every item is inserted without a quantity guard. */
  method ReplaceIngredients(db: Store, id: RecipeId, ps: seq<Item>) returns (ok: bool)
    requires db.Valid() && id in db.recipes
    modifies db`ingredients
    ensures db.Valid()
    ensures forall k: IngredientKey :: k.recipe != id ==>
      (k in db.ingredients <==> k in old(db.ingredients)) &&
      (k in db.ingredients ==> db.ingredients[k] == old(db.ingredients)[k])
    ensures forall k: IngredientKey :: k.recipe == id ==>
      (k in db.ingredients <==> k.product in db.products && k.product in Ids(ps))
    ensures forall i :: 0 <= i < |ps| && ps[i].id in db.products && (forall j :: 0 <= j < i ==> ps[j].id != ps[i].id) ==>
      IngredientKey(id, ps[i].id) in db.ingredients && db.ingredients[IngredientKey(id, ps[i].id)] == ps[i].quantity
    ensures ok <==> Known(ps, db.products) && DistinctIds(ps)
  {
    var stale := set k | k in db.ingredients && k.recipe == id;
    db.ingredients := db.ingredients - stale;
    ghost var base := db.ingredients;
    ok := InsertIngredients(db, id, ps, false);
    UnguardedRows(base, id, ps, db.products);
    InsertedResolve(base, id, ps, |ps|, false, db.products);
  }

  /** Patches a recipe and, given a non-empty list, replaces its ingredient
      rows by the list's items. */
  method Update(db: Store, id: RecipeId, body: RecipeUpdateBody) returns (r: Result<RecipeBody>)
    requires db.Valid()
    modifies db`recipes, db`ingredients
    ensures db.Valid()
    ensures id !in old(db.recipes) ==>
      r == Err(RecipeNotFound) && db.recipes == old(db.recipes) && db.ingredients == old(db.ingredients)
    ensures id in old(db.recipes) ==>
      db.recipes == old(db.recipes)[id := Patched(old(db.recipes)[id], body)]
    ensures id in old(db.recipes) && |Listed(body.products)| == 0 ==>
      db.ingredients == old(db.ingredients) && r.Ok?
    ensures id in old(db.recipes) && |Listed(body.products)| > 0 ==>
      var ps := Listed(body.products);
      && (forall k: IngredientKey :: k.recipe != id ==>
            (k in db.ingredients <==> k in old(db.ingredients)) &&
            (k in db.ingredients ==> db.ingredients[k] == old(db.ingredients)[k]))
      && (forall k: IngredientKey :: k.recipe == id ==>
            (k in db.ingredients <==> k.product in db.products && k.product in Ids(ps)))
      && (forall i :: 0 <= i < |ps| && ps[i].id in db.products && (forall j :: 0 <= j < i ==> ps[j].id != ps[i].id) ==>
            IngredientKey(id, ps[i].id) in db.ingredients && db.ingredients[IngredientKey(id, ps[i].id)] == ps[i].quantity)
      && (r.Ok? <==> Known(ps, db.products) && DistinctIds(ps))
      && (r.Err? ==> r == Err(IngredientRejected))
    ensures id in old(db.recipes) && r.Ok? ==>
      var p := Patched(old(db.recipes)[id], body);
      r.value == RecipeBody(p.name, p.description, p.user, Some(Listed(body.products)))
  {
    if id !in db.recipes {
      return Err(RecipeNotFound);
    }
    var patched := Patched(db.recipes[id], body);
    db.recipes := db.recipes[id := patched];
    var ps := Listed(body.products);
    if |ps| > 0 {
      var ok := ReplaceIngredients(db, id, ps);
      if !ok {
        return Err(IngredientRejected);
      }
    }
    return Ok(RecipeBody(patched.name, patched.description, patched.user, Some(ps)));
  }

  /** When the list names known products without repeats, the recipe's rows
      after an update are exactly the list: no row of the old list survives
      and none is merged with a new one. */
  lemma ReplacementIsExact(after: Ingredients, products: Catalogue, id: RecipeId, ps: seq<Item>)
    requires Known(ps, products) && DistinctIds(ps)
    requires forall k: IngredientKey :: k.recipe == id ==>
      (k in after <==> k.product in products && k.product in Ids(ps))
    requires forall i :: 0 <= i < |ps| && ps[i].id in products && (forall j :: 0 <= j < i ==> ps[j].id != ps[i].id) ==>
      IngredientKey(id, ps[i].id) in after && after[IngredientKey(id, ps[i].id)] == ps[i].quantity
    ensures forall p :: IngredientKey(id, p) in after <==> p in Ids(ps)
    ensures forall i :: 0 <= i < |ps| ==> after[IngredientKey(id, ps[i].id)] == ps[i].quantity
  {
    forall p | p in Ids(ps) ensures IngredientKey(id, p) in after {
      var i :| 0 <= i < |ps| && ps[i].id == p;
    }
  }

  // ---------------------------------------------------------------------
  // getMissingProducts

  /** The owner keeps at least one row of the product. */
  ghost predicate Owns(stock: Stock, p: ProductId, owner: UserId) {
    exists k :: k in stock && k.product == p && k.user == owner
  }

  /** What the owner lacks of `need` units of `p`: all of it when they keep
      no row of it, the difference when their rows sum to less, else nothing. */
  ghost function Missing(stock: Stock, p: ProductId, owner: UserId, need: int): Option<int> {
    if !Owns(stock, p, owner) then Some(need)
    else if Weigh(stock, Holding(p, owner)) < need then Some(need - Weigh(stock, Holding(p, owner)))
    else None
  }

  /** The entries the handler emits for ingredient products taken in `order`. */
  ghost function Shortfalls(products: Catalogue, ingredients: Ingredients, stock: Stock,
                            recipe: RecipeId, owner: UserId, order: seq<ProductId>): seq<MissingProduct>
    requires forall p :: p in order ==> IngredientKey(recipe, p) in ingredients && p in products
  {
    if |order| == 0 then []
    else
      var p := order[|order| - 1];
      var before := Shortfalls(products, ingredients, stock, recipe, owner, order[..|order| - 1]);
      match Missing(stock, p, owner, ingredients[IngredientKey(recipe, p)])
      case Some(a) => before + [MissingProduct(p, products[p].name, products[p].kind, products[p].size, a)]
      case None => before
  }

  /** No row kept by the owner means nothing held. */
  lemma UnownedWeighsNothing(stock: Stock, p: ProductId, owner: UserId)
    requires !Owns(stock, p, owner)
    ensures Weigh(stock, Holding(p, owner)) == 0
  {
    assert Weights(stock, Holding(p, owner)) == map[];
  }

  /** An entry is the owner's whole holding short of the need: it is emitted
      exactly when they hold less than needed or keep no row, and an owner
      who keeps a row of the product always lacks a positive amount. */
  lemma MissingMeans(stock: Stock, p: ProductId, owner: UserId, need: int)
    ensures Missing(stock, p, owner, need).Some? <==>
      !Owns(stock, p, owner) || Weigh(stock, Holding(p, owner)) < need
    ensures Missing(stock, p, owner, need).Some? ==>
      Missing(stock, p, owner, need).value == need - Weigh(stock, Holding(p, owner))
    ensures Missing(stock, p, owner, need).Some? && Owns(stock, p, owner) ==>
      Missing(stock, p, owner, need).value > 0
  {
    if !Owns(stock, p, owner) {
      UnownedWeighsNothing(stock, p, owner);
    }
  }

  /** Visiting one more product appends its entry, if any, to the list. */
  lemma ShortfallsAppend(products: Catalogue, ingredients: Ingredients, stock: Stock,
                         recipe: RecipeId, owner: UserId, order: seq<ProductId>, p: ProductId)
    requires forall q :: q in order + [p] ==> IngredientKey(recipe, q) in ingredients && q in products
    ensures var m := Missing(stock, p, owner, ingredients[IngredientKey(recipe, p)]);
      Shortfalls(products, ingredients, stock, recipe, owner, order + [p])
      == Shortfalls(products, ingredients, stock, recipe, owner, order)
         + (if m.Some? then [MissingProduct(p, products[p].name, products[p].kind, products[p].size, m.value)] else [])
  {
    assert (order + [p])[..|order|] == order;
  }

  /** At most one entry per product visited. */
  lemma {:induction false} ShortfallsBound(products: Catalogue, ingredients: Ingredients, stock: Stock,
                                           recipe: RecipeId, owner: UserId, order: seq<ProductId>)
    requires forall p :: p in order ==> IngredientKey(recipe, p) in ingredients && p in products
    ensures |Shortfalls(products, ingredients, stock, recipe, owner, order)| <= |order|
  {
    if |order| > 0 {
      var n := |order| - 1;
      var init := order[..n];
      assert order == init + [order[n]];
      ShortfallsBound(products, ingredients, stock, recipe, owner, init);
      assert |Shortfalls(products, ingredients, stock, recipe, owner, order)|
          <= |Shortfalls(products, ingredients, stock, recipe, owner, init)| + 1 by {
        ShortfallsAppend(products, ingredients, stock, recipe, owner, init, order[n]);
      }
    }
  }

  /** Each entry names a product of the order, with its catalogue details
      and the amount the owner lacks of it. */
  lemma {:induction false} ShortfallsEntries(products: Catalogue, ingredients: Ingredients, stock: Stock,
                                             recipe: RecipeId, owner: UserId, order: seq<ProductId>)
    requires forall p :: p in order ==> IngredientKey(recipe, p) in ingredients && p in products
    ensures forall e :: e in Shortfalls(products, ingredients, stock, recipe, owner, order) ==>
      && e.productId in order
      && e.name == products[e.productId].name && e.kind == products[e.productId].kind
      && e.size == products[e.productId].size
      && Missing(stock, e.productId, owner, ingredients[IngredientKey(recipe, e.productId)]) == Some(e.amount)
  {
    if |order| > 0 {
      var n := |order| - 1;
      ShortfallsEntries(products, ingredients, stock, recipe, owner, order[..n]);
      assert order == order[..n] + [order[n]];
      ShortfallsAppend(products, ingredients, stock, recipe, owner, order[..n], order[n]);
    }
  }

  /** A product of the order has an entry exactly when the owner lacks some
      of it. */
  lemma {:induction false} ShortfallsCover(products: Catalogue, ingredients: Ingredients, stock: Stock,
                                           recipe: RecipeId, owner: UserId, order: seq<ProductId>)
    requires forall p :: p in order ==> IngredientKey(recipe, p) in ingredients && p in products
    ensures forall p :: p in order ==>
      ((exists e :: e in Shortfalls(products, ingredients, stock, recipe, owner, order) && e.productId == p) <==>
        Missing(stock, p, owner, ingredients[IngredientKey(recipe, p)]).Some?)
  {
    if |order| > 0 {
      var n := |order| - 1;
      var init := order[..n];
      ShortfallsCover(products, ingredients, stock, recipe, owner, init);
      ShortfallsEntries(products, ingredients, stock, recipe, owner, init);
      assert order == init + [order[n]];
      ShortfallsAppend(products, ingredients, stock, recipe, owner, init, order[n]);
    }
  }

  /** With no product twice in the order, no product has two entries. */
  lemma {:induction false} ShortfallsDistinct(products: Catalogue, ingredients: Ingredients, stock: Stock,
                                              recipe: RecipeId, owner: UserId, order: seq<ProductId>)
    requires forall p :: p in order ==> IngredientKey(recipe, p) in ingredients && p in products
    requires forall i, j :: 0 <= i < j < |order| ==> order[i] != order[j]
    ensures var s := Shortfalls(products, ingredients, stock, recipe, owner, order);
      forall i, j :: 0 <= i < j < |s| ==> s[i].productId != s[j].productId
  {
    if |order| > 0 {
      var n := |order| - 1;
      var init := order[..n];
      assert forall i, j :: 0 <= i < j < |init| ==> init[i] != init[j] by {
        forall i, j | 0 <= i < j < |init| ensures init[i] != init[j] {
          assert init[i] == order[i] && init[j] == order[j];
        }
      }
      ShortfallsDistinct(products, ingredients, stock, recipe, owner, init);
      ShortfallsEntries(products, ingredients, stock, recipe, owner, init);
      assert order[n] !in init;
      assert order == init + [order[n]];
      ShortfallsAppend(products, ingredients, stock, recipe, owner, init, order[n]);
    }
  }

  /** Only the owner's rows matter: stocks that agree on them give the same
      entries whatever other users keep. */
  lemma {:induction false} ShortfallsOwnerOnly(products: Catalogue, ingredients: Ingredients, stock: Stock, stock': Stock,
                                               recipe: RecipeId, owner: UserId, order: seq<ProductId>)
    requires forall p :: p in order ==> IngredientKey(recipe, p) in ingredients && p in products
    requires forall k: StockKey :: k.user == owner ==> (k in stock <==> k in stock') && (k in stock ==> stock[k] == stock'[k])
    ensures Shortfalls(products, ingredients, stock, recipe, owner, order)
         == Shortfalls(products, ingredients, stock', recipe, owner, order)
  {
    if |order| > 0 {
      var p := order[|order| - 1];
      ShortfallsOwnerOnly(products, ingredients, stock, stock', recipe, owner, order[..|order| - 1]);
      assert Weights(stock, Holding(p, owner)) == Weights(stock', Holding(p, owner));
      assert Owns(stock, p, owner) <==> Owns(stock', p, owner) by {
        if Owns(stock, p, owner) {
          var k :| k in stock && k.product == p && k.user == owner;
          assert k in stock';
        }
        if Owns(stock', p, owner) {
          var k :| k in stock' && k.product == p && k.user == owner;
          assert k in stock;
        }
      }
    }
  }

  /** What the owner lacks of one ingredient: the whole need when they keep
      no row of the product, else what their rows' quantities sum short of it. */
  method Shortfall(stock: Stock, p: ProductId, owner: UserId, need: int) returns (m: Option<int>)
    ensures m == Missing(stock, p, owner, need)
  {
    var owned := exists k :: k in stock && k.product == p && k.user == owner;
    if !owned {
      return Some(need);
    }
    var total := Total(stock, Holding(p, owner));
    if total < need {
      return Some(need - total);
    }
    return None;
  }

  /** The handler's loop has visited the products of the recipe's rows
      `rows - left`, each once, in `order`. */
  ghost predicate Visited(ingredients: Ingredients, products: Catalogue, id: RecipeId,
                          rows: set<IngredientKey>, left: set<IngredientKey>, order: seq<ProductId>) {
    && left <= rows
    && (forall p :: p in order <==> IngredientKey(id, p) in rows - left)
    && (forall i, j :: 0 <= i < j < |order| ==> order[i] != order[j])
    && (forall p :: p in order ==> IngredientKey(id, p) in ingredients && p in products)
  }

  /** Visiting one more row of the recipe visits a product not seen before. */
  lemma VisitNext(ingredients: Ingredients, products: Catalogue, id: RecipeId,
                  rows: set<IngredientKey>, left: set<IngredientKey>, order: seq<ProductId>, row: IngredientKey)
    requires IngredientsResolve(products, ingredients)
    requires rows == set k | k in ingredients && k.recipe == id
    requires Visited(ingredients, products, id, rows, left, order) && row in left
    ensures row.product !in order
    ensures Visited(ingredients, products, id, rows, left - {row}, order + [row.product])
  {
    var p := row.product;
    assert row == IngredientKey(id, p);
    var order' := order + [p];
    forall i, j | 0 <= i < j < |order'| ensures order'[i] != order'[j] {
      if j < |order| {
        assert order'[i] == order[i] && order'[j] == order[j];
      } else {
        assert order'[i] == order[i] && order[i] in order;
      }
    }
  }

  /** Lists, for each ingredient row of the recipe, what its owner lacks;
      `order` is the order in which the rows are visited. */
  method GetMissingProducts(recipes: map<RecipeId, Recipe>, ingredients: Ingredients, products: Catalogue,
                            stock: Stock, id: RecipeId)
    returns (r: Result<seq<MissingProduct>>, ghost order: seq<ProductId>)
    requires IngredientsResolve(products, ingredients)
    ensures id !in recipes ==> r == Err(RecipeNotFound)
    ensures id in recipes ==>
      && r.Ok?
      && (forall p :: p in order <==> IngredientKey(id, p) in ingredients)
      && (forall i, j :: 0 <= i < j < |order| ==> order[i] != order[j])
      && r.value == Shortfalls(products, ingredients, stock, id, recipes[id].user, order)
  {
    order := [];
    if id !in recipes {
      return Err(RecipeNotFound), order;
    }
    var owner := recipes[id].user;
    var rows := set k | k in ingredients && k.recipe == id;
    if |rows| == 0 {
      assert forall p :: IngredientKey(id, p) in ingredients ==> IngredientKey(id, p) in rows;
      return Ok([]), order;
    }
    var missing := [];
    var left := rows;
    while left != {}
      invariant Visited(ingredients, products, id, rows, left, order)
      invariant missing == Shortfalls(products, ingredients, stock, id, owner, order)
      decreases left
    {
      var row :| row in left;
      var p := row.product;
      var need := ingredients[row];
      VisitNext(ingredients, products, id, rows, left, order, row);
      ShortfallsAppend(products, ingredients, stock, id, owner, order, p);
      var m := Shortfall(stock, p, owner, need);
      if m.Some? {
        missing := missing + [MissingProduct(p, products[p].name, products[p].kind, products[p].size, m.value)];
      }
      order := order + [p];
      left := left - {row};
    }
    return Ok(missing), order;
  }
}
