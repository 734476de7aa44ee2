/** The product handlers: deposit, withdraw, clearing a user's stock, the two
    gifts, and the two stock queries. */
module ProductHandlers {
  import opened Inventory
  import opened Ledger

  /** The body of a deposit request. `kind` is the product type. */
  datatype ProductBody = ProductBody(name: string, kind: string, amount: int, size: int, fridgeId: FridgeId)

  /** The body of a withdraw request. */
  datatype ProductDeleteBody = ProductDeleteBody(userId: UserId, amount: int, fridgeId: FridgeId)

  /** One stock row as the queries show it: the product's catalogue details,
      the row's quantity and its fridge. */
  datatype ProductView = ProductView(id: ProductId, name: string, kind: string, size: int, amount: int, fridgeId: FridgeId)

  function Triple(body: ProductBody): Product {
    Product(body.name, body.kind, body.size)
  }

  // ---------------------------------------------------------------------
  // create: deposit into a fridge

  /** The catalogue after the product upsert: a known triple keeps its row,
      an unknown one is added under `newId`. */
  function Catalogued(products: Catalogue, t: Product, newId: ProductId): Catalogue {
    if t in products.Values then products else products[newId := t]
  }

  /** The id under which the catalogue keeps a triple. */
  ghost function IdOf(products: Catalogue, t: Product): (id: ProductId)
    requires t in products.Values
    ensures id in products && products[id] == t
  {
    var id :| id in products && products[id] == t; id
  }

  /** The upsert never duplicates a triple: it adds exactly one product when
      the triple is new and none otherwise, and changes no existing product. */
  lemma CatalogueDedup(products: Catalogue, t: Product, newId: ProductId)
    requires UniqueTriples(products) && newId !in products
    ensures var c := Catalogued(products, t, newId);
      && UniqueTriples(c)
      && t in c.Values
      && (forall id :: id in products ==> id in c && c[id] == products[id])
      && |c| == |products| + (if t in products.Values then 0 else 1)
      && (t !in products.Values ==> IdOf(c, t) == newId)
  {
    if t !in products.Values {
      var c := products[newId := t];
      assert c.Keys == products.Keys + {newId};
      assert c[newId] == t;
    }
  }

  /** A deposit that passed the capacity check adds the product's size times
      `amount` to its fridge, which stays within its capacity. */
  lemma DepositFits(stock: Stock, products: Catalogue, key: StockKey, amount: int, capacity: int)
    requires key.product in products
    requires Occupied(stock, products, key.fridge) + products[key.product].size * amount <= capacity
    ensures var s' := stock[key := Held(stock, key) + amount];
      && Occupied(s', products, key.fridge) == Occupied(stock, products, key.fridge) + products[key.product].size * amount
      && Occupied(s', products, key.fridge) <= capacity
  {
    AddWeighs(stock, key, amount, Volume(products, key.fridge));
    assert Weight(Volume(products, key.fridge), key, amount) == products[key.product].size * amount;
  }

  /** A deposit leaves every other fridge's occupied volume as it was. */
  lemma DepositElsewhere(stock: Stock, products: Catalogue, key: StockKey, amount: int, f: FridgeId)
    requires f != key.fridge
    ensures Occupied(stock[key := Held(stock, key) + amount], products, f) == Occupied(stock, products, f)
  {
    AddWeighs(stock, key, amount, Volume(products, f));
  }

  /** The product upsert: finds the catalogue row of a triple, or adds one
      under `newId`, and returns its id. */
  method UpsertProduct(db: Store, t: Product, newId: ProductId) returns (id: ProductId)
    requires db.Valid() && newId !in db.products
    modifies db`products
    ensures db.Valid()
    ensures db.products == Catalogued(old(db.products), t, newId)
    ensures t in db.products.Values && id == IdOf(db.products, t)
  {
    CatalogueDedup(db.products, t, newId);
    if t in db.products.Values {
      id :| id in db.products && db.products[id] == t;
    } else {
      id := newId;
      db.products := db.products[newId := t];
    }
  }

  /** The stock upsert: increments the row's quantity, or creates the row
      with `amount` units. */
  method UpsertStock(db: Store, key: StockKey, amount: int)
    requires db.Valid()
    requires key.product in db.products && key.fridge in db.fridges && key.user in db.users
    modifies db`stock
    ensures db.Valid()
    ensures db.stock == old(db.stock)[key := Held(old(db.stock), key) + amount]
  {
    if key in db.stock {
      db.stock := db.stock[key := db.stock[key] + amount];
    } else {
      db.stock := db.stock[key := amount];
    }
  }

  /** Deposits `body.amount` units of a product, upserting the product first
      (`newId` stands for the id the database generates for a new product). */
  method Create(db: Store, userId: UserId, body: ProductBody, newId: ProductId) returns (r: Result<ProductBody>)
    requires db.Valid() && newId !in db.products
    modifies db`products, db`stock
    ensures db.Valid()
    ensures userId !in db.users ==>
      r == Err(UserNotFound) && db.products == old(db.products) && db.stock == old(db.stock)
    ensures userId in db.users ==> db.products == Catalogued(old(db.products), Triple(body), newId)
    ensures userId in db.users && body.fridgeId !in db.fridges ==> r == Err(FridgeNotFound)
    ensures userId in db.users && body.fridgeId in db.fridges ==>
      (r.Ok? <==> Occupied(old(db.stock), db.products, body.fridgeId) + body.amount * body.size
                  <= db.fridges[body.fridgeId].capacity)
    ensures userId in db.users && body.fridgeId in db.fridges && r.Err? ==> r == Err(NotEnoughSpace)
    ensures r.Err? ==> db.stock == old(db.stock)
    ensures r.Ok? ==> r.value == body
    ensures r.Ok? ==> userId in db.users && Triple(body) in db.products.Values
    ensures r.Ok? ==>
      var key := StockKey(IdOf(db.products, Triple(body)), body.fridgeId, userId);
      db.stock == old(db.stock)[key := Held(old(db.stock), key) + body.amount]
  {
    if userId !in db.users {
      return Err(UserNotFound);
    }
    var productId := UpsertProduct(db, Triple(body), newId);
    var sizeNeeded := body.amount * body.size;
    if body.fridgeId !in db.fridges {
      return Err(FridgeNotFound);
    }
    var fridge := db.fridges[body.fridgeId];
    var totalSize := Total(db.stock, Volume(db.products, body.fridgeId));
    if totalSize + sizeNeeded > fridge.capacity {
      return Err(NotEnoughSpace);
    }
    var key := StockKey(productId, body.fridgeId, userId);
    assert key.product in db.products;
    UpsertStock(db, key, body.amount);
    assert key == StockKey(IdOf(db.products, Triple(body)), body.fridgeId, userId);
    return Ok(body);
  }

  // ---------------------------------------------------------------------
  // deleteProduct: withdraw from a fridge

  /** Withdrawing `amount` units from one row: a row holding at most `amount`
      is deleted, a larger one is decremented, and a missing row is an error.
      Either way the row loses min(quantity, amount) units, a kept row stays
      positive, and no other row changes. */
  function Withdrawn(stock: Stock, key: StockKey, amount: int): (r: Result<Stock>)
    ensures r.Ok? <==> key in stock
    ensures r.Err? ==> r.error == NoProductToUpdate
    ensures r.Ok? ==>
      && Held(stock, key) - Held(r.value, key) == Min(stock[key], amount)
      && (key in r.value ==> r.value[key] > 0)
      && (forall k :: k != key ==> (k in r.value <==> k in stock))
      && (forall k :: k != key && k in stock ==> r.value[k] == stock[k])
  {
    if key !in stock then Err(NoProductToUpdate)
    else if stock[key] <= amount then Ok(stock - {key})
    else Ok(stock[key := stock[key] - amount])
  }

  function Min(a: int, b: int): int {
    if a <= b then a else b
  }

  /** A withdrawal takes min(quantity, amount) units, times the unit weight,
      out of every total that counts the row. */
  lemma WithdrawTakes(stock: Stock, key: StockKey, amount: int, m: Measure)
    requires key in stock
    ensures Weigh(Withdrawn(stock, key, amount).value, m)
         == Weigh(stock, m) - Weight(m, key, Min(stock[key], amount))
  {
    if stock[key] <= amount {
      RemoveWeighs(stock, key, m);
    } else {
      AddWeighs(stock, key, -amount, m);
      assert stock[key := Held(stock, key) + -amount] == stock[key := stock[key] - amount];
      assert Weight(m, key, -amount) == -Weight(m, key, amount);
    }
  }

  /** Withdraws `body.amount` units of a product from the user's row in the
      given fridge. No user or fridge lookup is made. */
  method DeleteProduct(db: Store, productId: ProductId, body: ProductDeleteBody) returns (r: Result<()>)
    requires db.Valid()
    modifies db`stock
    ensures db.Valid()
    ensures var w := Withdrawn(old(db.stock), StockKey(productId, body.fridgeId, body.userId), body.amount);
      && (w.Ok? ==> r == Ok(()) && db.stock == w.value)
      && (w.Err? ==> r == Err(w.error) && db.stock == old(db.stock))
  {
    // The key is unique, so each bulk call matches at most this one row.
    var key := StockKey(productId, body.fridgeId, body.userId);
    var deleted := if key in db.stock && db.stock[key] <= body.amount then 1 else 0;
    if deleted == 1 {
      db.stock := db.stock - {key};
    }
    if deleted == 0 {
      var updated := if key in db.stock then 1 else 0;
      if updated == 1 {
        db.stock := db.stock[key := db.stock[key] - body.amount];
      }
      if updated == 0 {
        return Err(NoProductToUpdate);
      }
    }
    return Ok(());
  }

  // ---------------------------------------------------------------------
  // deleteAllProductsInFridge: clear a user's stock

  /** The stock without the user's rows in the fridge, or in every fridge
      when no fridge is given. */
  function Cleared(stock: Stock, userId: UserId, fridgeId: Option<FridgeId>): Stock {
    map k | k in stock && !(k.user == userId && InScope(k, fridgeId)) :: stock[k]
  }

  /** Clearing empties the user's holdings in scope and keeps every other
      user's holdings; a second clear finds nothing left to delete. */
  lemma ClearedHoldings(stock: Stock, userId: UserId, fridgeId: Option<FridgeId>, p: ProductId, other: UserId)
    requires other != userId
    ensures var s' := Cleared(stock, userId, fridgeId);
      && Weigh(s', Holding(p, other)) == Weigh(stock, Holding(p, other))
      && (fridgeId.None? ==> Weigh(s', Holding(p, userId)) == 0)
      && (forall k :: k in s' ==> !(k.user == userId && InScope(k, fridgeId)))
      && Cleared(s', userId, fridgeId) == s'
  {
    var s' := Cleared(stock, userId, fridgeId);
    assert Weights(s', Holding(p, other)) == Weights(stock, Holding(p, other));
    if fridgeId.None? {
      assert Weights(s', Holding(p, userId)) == map[];
    }
  }

  /** Deletes the user's stock rows in one fridge, or in all fridges. */
  method DeleteAllProductsInFridge(db: Store, userId: UserId, fridgeId: Option<FridgeId>) returns (r: Result<()>)
    requires db.Valid()
    modifies db`stock
    ensures db.Valid()
    ensures userId !in db.users ==> r == Err(UserNotFound) && db.stock == old(db.stock)
    ensures userId in db.users && Given(fridgeId) && fridgeId.value !in db.fridges ==>
      r == Err(FridgeNotFound) && db.stock == old(db.stock)
    ensures userId in db.users && !(Given(fridgeId) && fridgeId.value !in db.fridges) ==>
      && db.stock == Cleared(old(db.stock), userId, fridgeId)
      && (r.Ok? <==> exists k :: k in old(db.stock) && k.user == userId && InScope(k, fridgeId))
      && (r.Err? ==> r == Err(NothingToDelete))
  {
    if userId !in db.users {
      return Err(UserNotFound);
    }
    if Given(fridgeId) && fridgeId.value !in db.fridges {
      return Err(FridgeNotFound);
    }
    var doomed := set k | k in db.stock && k.user == userId && InScope(k, fridgeId);
    db.stock := db.stock - doomed;
    assert db.stock == Cleared(old(db.stock), userId, fridgeId);
    assert forall k :: k in old(db.stock) && k.user == userId && InScope(k, fridgeId) ==> k in doomed;
    if |doomed| == 0 {
      return Err(NothingToDelete);
    }
    return Ok(());
  }

  /** The receiver upserts both gifts fan out, run one after the other: each
      of the sender's `entries` adds its quantity, as read before the first
      upsert, to the receiver's row of the same product and fridge. */
  method UpsertReceiverRows(db: Store, entries: set<StockKey>, senderUserId: UserId, receiverUserId: UserId)
    requires Movable(db.stock, entries, senderUserId, receiverUserId)
    modifies db`stock
    ensures db.stock == Credit(old(db.stock), entries, senderUserId, receiverUserId)
  {
    var read := db.stock;
    var left := entries;
    while left != {}
      invariant left <= entries
      invariant db.stock == Credit(read, entries - left, senderUserId, receiverUserId)
      decreases left
    {
      var entry :| entry in left;
      var rk := WithUser(entry, receiverUserId);
      CreditStep(read, entries - left, entry, senderUserId, receiverUserId);
      assert entries - left + {entry} == entries - (left - {entry});
      db.stock := db.stock[rk := Held(db.stock, rk) + read[entry]];
      left := left - {entry};
    }
    assert entries - left == entries;
  }

  /** A transfer to an existing user keeps the stock table's foreign keys. */
  lemma TransferKeepsValid(db: Store, before: Stock, moved: set<StockKey>, sender: UserId, receiver: UserId)
    requires Movable(before, moved, sender, receiver) && receiver in db.users
    requires RowsResolve(db.fridges, db.products, before) && forall k :: k in before ==> k.user in db.users
    requires UniqueTriples(db.products) && IngredientsResolve(db.products, db.ingredients)
    requires (forall r :: r in db.recipes ==> db.recipes[r].user in db.users)
    requires (forall k :: k in db.ingredients ==> k.recipe in db.recipes)
    requires db.stock == Transfer(before, moved, sender, receiver)
    ensures db.Valid()
  {
    TransferRows(before, moved, sender, receiver);
    forall k | k in db.stock
      ensures k.product in db.products && k.fridge in db.fridges && k.user in db.users
    {
      if k !in before {
        assert WithUser(k, sender) in before;
      }
    }
  }

  // ---------------------------------------------------------------------
  // gift: hand all of one product to another user

  /** The sender's rows of one product, in every fridge. */
  function GiftRows(stock: Stock, productId: ProductId, sender: UserId): set<StockKey> {
    set k | k in stock && k.product == productId && k.user == sender
  }

  /** The users lookup matches both parties exactly when both exist. */
  lemma BothFound(users: set<UserId>, sender: UserId, receiver: UserId)
    requires sender != receiver
    ensures |{sender, receiver} * users| == 2 <==> sender in users && receiver in users
  {
    var found := {sender, receiver} * users;
    if sender !in users {
      assert found == if receiver in users then {receiver} else {};
    } else if receiver !in users {
      assert found == {sender};
    } else {
      assert found == {sender, receiver};
    }
  }

  /** Gives the receiver all of the sender's stock of one product: each of the
      sender's rows is added to the receiver's row in the same fridge, then the
      sender's rows of the product are deleted. */
  method Gift(db: Store, productId: ProductId, receiverUserId: UserId, senderUserId: UserId) returns (r: Result<()>)
    requires db.Valid()
    modifies db`stock
    ensures db.Valid()
    ensures senderUserId == receiverUserId ==> r == Err(SelfGift)
    ensures senderUserId != receiverUserId && !(senderUserId in db.users && receiverUserId in db.users) ==>
      r == Err(SenderOrReceiverNotFound)
    ensures senderUserId != receiverUserId && senderUserId in db.users && receiverUserId in db.users
            && GiftRows(old(db.stock), productId, senderUserId) == {} ==>
      r == Err(ProductNotInSenderFridge)
    ensures senderUserId != receiverUserId && senderUserId in db.users && receiverUserId in db.users
            && GiftRows(old(db.stock), productId, senderUserId) != {} ==>
      r.Ok?
    ensures r.Err? ==> db.stock == old(db.stock)
    ensures r.Ok? ==>
      && Movable(old(db.stock), GiftRows(old(db.stock), productId, senderUserId), senderUserId, receiverUserId)
      && db.stock == Transfer(old(db.stock), GiftRows(old(db.stock), productId, senderUserId), senderUserId, receiverUserId)
  {
    if senderUserId == receiverUserId {
      return Err(SelfGift);
    }
    BothFound(db.users, senderUserId, receiverUserId);
    var found := {senderUserId, receiverUserId} * db.users;
    if |found| != 2 {
      return Err(SenderOrReceiverNotFound);
    }
    var entries := GiftRows(db.stock, productId, senderUserId);
    if |entries| == 0 {
      return Err(ProductNotInSenderFridge);
    }
    ghost var read := db.stock;
    UpsertReceiverRows(db, entries, senderUserId, receiverUserId);
    // One bulk delete of the sender's rows of the product; it always finds
    // them, so the handler's "nothing deleted" error cannot arise.
    var doomed := set k | k in db.stock && k.product == productId && k.user == senderUserId;
    assert doomed == entries;
    db.stock := db.stock - doomed;
    TransferKeepsValid(db, read, entries, senderUserId, receiverUserId);
    return Ok(());
  }

  /** After a gift, in every fridge the receiver holds what both users held of
      the product there and the sender holds none of it; rows of other
      products and of third users are unchanged; each fridge's volume, each
      (product, fridge) count and the two users' combined holding are kept. */
  lemma GiftMoves(stock: Stock, products: Catalogue, p: ProductId, sender: UserId, receiver: UserId)
    requires sender != receiver
    ensures Movable(stock, GiftRows(stock, p, sender), sender, receiver)
    ensures var t := Transfer(stock, GiftRows(stock, p, sender), sender, receiver);
      && (forall f :: StockKey(p, f, sender) !in t
            && Held(t, StockKey(p, f, receiver)) == Held(stock, StockKey(p, f, receiver)) + Held(stock, StockKey(p, f, sender)))
      && (forall k :: k in stock && (k.product != p || (k.user != sender && k.user != receiver)) ==>
            k in t && t[k] == stock[k])
      && (forall f :: Occupied(t, products, f) == Occupied(stock, products, f))
      && (forall q, f :: Weigh(t, Count(q, f)) == Weigh(stock, Count(q, f)))
      && Weigh(t, Holding(p, sender)) == 0
      && Weigh(t, Holding(p, receiver)) == Weigh(stock, Holding(p, receiver)) + Weigh(stock, Holding(p, sender))
  {
    var moved := GiftRows(stock, p, sender);
    TransferRows(stock, moved, sender, receiver);
    var t := Transfer(stock, moved, sender, receiver);
    forall f
      ensures StockKey(p, f, sender) !in t
      ensures Held(t, StockKey(p, f, receiver)) == Held(stock, StockKey(p, f, receiver)) + Held(stock, StockKey(p, f, sender))
    {
      var sk := StockKey(p, f, sender);
      var rk := StockKey(p, f, receiver);
      assert WithUser(rk, sender) == sk && WithUser(sk, receiver) == rk;
      if sk in stock {
        assert sk in moved;
      } else {
        assert !CreditedBy(rk, moved, sender, receiver);
      }
    }
    forall f
      ensures Occupied(t, products, f) == Occupied(stock, products, f)
    {
      TransferWeighs(stock, moved, sender, receiver, Volume(products, f));
    }
    forall q, f
      ensures Weigh(t, Count(q, f)) == Weigh(stock, Count(q, f))
    {
      TransferWeighs(stock, moved, sender, receiver, Count(q, f));
    }
    TransferHoldings(stock, moved, sender, receiver, p);
  }

  // ---------------------------------------------------------------------
  // giftAllProductsInFridge: hand over everything in one fridge, or in all

  /** The sender's rows in the fridge, or in every fridge when none is given. */
  function FridgeRows(stock: Stock, sender: UserId, fridgeId: Option<FridgeId>): set<StockKey> {
    set k | k in stock && k.user == sender && InScope(k, fridgeId)
  }

  /** One delete per given row, each matching that row's key alone. */
  method DeleteRows(db: Store, rows: set<StockKey>)
    modifies db`stock
    ensures db.stock == old(db.stock) - rows
  {
    var left := rows;
    while left != {}
      invariant left <= rows
      invariant db.stock == old(db.stock) - (rows - left)
      decreases left
    {
      var row :| row in left;
      assert old(db.stock) - (rows - (left - {row})) == db.stock - {row};
      db.stock := db.stock - {row};
      left := left - {row};
    }
    assert rows - left == rows;
  }

  /** Gives the receiver every row the sender keeps in the fridge (or in all
      fridges): receiver upserts first, then one delete per sender row. */
  method GiftAllProductsInFridge(db: Store, senderUserId: UserId, receiverUserId: UserId, fridgeId: Option<FridgeId>)
    returns (r: Result<()>)
    requires db.Valid()
    modifies db`stock
    ensures db.Valid()
    ensures senderUserId == receiverUserId ==> r == Err(SelfGift)
    ensures senderUserId != receiverUserId && !(senderUserId in db.users && receiverUserId in db.users) ==>
      r == Err(SenderOrReceiverNotFound)
    ensures senderUserId != receiverUserId && senderUserId in db.users && receiverUserId in db.users
            && fridgeId.Some? && fridgeId.value !in db.fridges ==>
      r == Err(FridgeNotFound)
    ensures senderUserId != receiverUserId && senderUserId in db.users && receiverUserId in db.users
            && (fridgeId.Some? ==> fridgeId.value in db.fridges)
            && FridgeRows(old(db.stock), senderUserId, fridgeId) == {} ==>
      r == Err(NoProductsInFridges)
    ensures senderUserId != receiverUserId && senderUserId in db.users && receiverUserId in db.users
            && (fridgeId.Some? ==> fridgeId.value in db.fridges)
            && FridgeRows(old(db.stock), senderUserId, fridgeId) != {} ==>
      r.Ok?
    ensures r.Err? ==> db.stock == old(db.stock)
    ensures r.Ok? ==>
      && Movable(old(db.stock), FridgeRows(old(db.stock), senderUserId, fridgeId), senderUserId, receiverUserId)
      && db.stock == Transfer(old(db.stock), FridgeRows(old(db.stock), senderUserId, fridgeId), senderUserId, receiverUserId)
  {
    if senderUserId == receiverUserId {
      return Err(SelfGift);
    }
    BothFound(db.users, senderUserId, receiverUserId);
    var found := {senderUserId, receiverUserId} * db.users;
    if |found| != 2 {
      return Err(SenderOrReceiverNotFound);
    }
    if fridgeId.Some? && fridgeId.value !in db.fridges {
      return Err(FridgeNotFound);
    }
    var entries := FridgeRows(db.stock, senderUserId, fridgeId);
    if |entries| == 0 {
      return Err(NoProductsInFridges);
    }
    ghost var read := db.stock;
    UpsertReceiverRows(db, entries, senderUserId, receiverUserId);
    DeleteRows(db, entries);
    TransferKeepsValid(db, read, entries, senderUserId, receiverUserId);
    return Ok(());
  }

  /** After a bulk gift, every selected row is added to the receiver's row of
      the same product and fridge and is gone from the sender; the sender's
      rows outside the fridge and every third user's rows are unchanged; each
      fridge's volume and each (product, fridge) count across users are kept. */
  lemma GiftAllMoves(stock: Stock, products: Catalogue, sender: UserId, receiver: UserId, fridgeId: Option<FridgeId>)
    requires sender != receiver
    ensures Movable(stock, FridgeRows(stock, sender, fridgeId), sender, receiver)
    ensures var t := Transfer(stock, FridgeRows(stock, sender, fridgeId), sender, receiver);
      && (forall k :: k in stock && k.user == sender && InScope(k, fridgeId) ==>
            k !in t && Held(t, WithUser(k, receiver)) == Held(stock, WithUser(k, receiver)) + stock[k])
      && (forall k :: k in stock && k.user == sender && !InScope(k, fridgeId) ==> k in t && t[k] == stock[k])
      && (forall k :: k in stock && k.user != sender && k.user != receiver ==> k in t && t[k] == stock[k])
      && (forall f :: Occupied(t, products, f) == Occupied(stock, products, f))
      && (forall q, f :: Weigh(t, Count(q, f)) == Weigh(stock, Count(q, f)))
  {
    var moved := FridgeRows(stock, sender, fridgeId);
    TransferRows(stock, moved, sender, receiver);
    var t := Transfer(stock, moved, sender, receiver);
    forall k | k in stock && k.user == sender && InScope(k, fridgeId)
      ensures k !in t && Held(t, WithUser(k, receiver)) == Held(stock, WithUser(k, receiver)) + stock[k]
    {
      assert k in moved;
    }
    forall f
      ensures Occupied(t, products, f) == Occupied(stock, products, f)
    {
      TransferWeighs(stock, moved, sender, receiver, Volume(products, f));
    }
    forall q, f
      ensures Weigh(t, Count(q, f)) == Weigh(stock, Count(q, f))
    {
      TransferWeighs(stock, moved, sender, receiver, Count(q, f));
    }
  }

  // ---------------------------------------------------------------------
  // The two queries. findMany returns rows in no stated order, so a query's
  // views are a set.

  function ViewOf(products: Catalogue, stock: Stock, k: StockKey): ProductView
    requires k in stock && k.product in products
  {
    var p := products[k.product];
    ProductView(k.product, p.name, p.kind, p.size, stock[k], k.fridge)
  }

  /** A view shows the user's row of its product in its fridge, with that
      row's quantity and the catalogue's details of the product. */
  ghost predicate Shows(products: Catalogue, stock: Stock, userId: UserId, v: ProductView) {
    var k := StockKey(v.id, v.fridgeId, userId);
    && k in stock
    && v.amount == stock[k]
    && v.id in products
    && products[v.id] == Product(v.name, v.kind, v.size)
  }

  /** The views of some of the user's rows: one per row. */
  function Views(products: Catalogue, stock: Stock, userId: UserId, rows: set<StockKey>): (vs: set<ProductView>)
    requires forall k :: k in rows ==> k in stock && k.user == userId && k.product in products
    ensures forall v :: v in vs <==> Shows(products, stock, userId, v) && StockKey(v.id, v.fridgeId, userId) in rows
  {
    ViewsShow(products, stock, userId, rows);
    set k | k in rows :: ViewOf(products, stock, k)
  }

  lemma ViewsShow(products: Catalogue, stock: Stock, userId: UserId, rows: set<StockKey>)
    requires forall k :: k in rows ==> k in stock && k.user == userId && k.product in products
    ensures forall v :: v in (set k | k in rows :: ViewOf(products, stock, k)) <==>
      Shows(products, stock, userId, v) && StockKey(v.id, v.fridgeId, userId) in rows
  {
    forall v | Shows(products, stock, userId, v) && StockKey(v.id, v.fridgeId, userId) in rows
      ensures v in (set k | k in rows :: ViewOf(products, stock, k))
    {
      var k := StockKey(v.id, v.fridgeId, userId);
      assert ViewOf(products, stock, k) == v;
    }
  }

  /** JavaScript truthiness of the location filter: absent and 0 are false. */
  predicate Filters(location: Option<int>) {
    location.Some? && location.value != 0
  }

  /** The location filter keeps a row whose fridge stands at the location. */
  predicate AtLocation(fridges: map<FridgeId, Fridge>, k: StockKey, location: Option<int>)
    requires k.fridge in fridges
  {
    !Filters(location) || fridges[k.fridge].location == location.value
  }

  /** Lists the user's stock, restricted to one fridge when one is given and
      to the fridges at one location when a non-zero location is given. */
  function GetProductsInFridge(users: set<UserId>, fridges: map<FridgeId, Fridge>, products: Catalogue, stock: Stock,
                               userId: UserId, fridgeId: Option<FridgeId>, location: Option<int>): (r: Result<set<ProductView>>)
    requires RowsResolve(fridges, products, stock)
    ensures userId !in users ==> r == Err(UserNotFound)
    ensures userId in users && Given(fridgeId) && fridgeId.value !in fridges ==> r == Err(FridgeNotFound)
    ensures userId in users && !(Given(fridgeId) && fridgeId.value !in fridges) ==>
      && (r.Ok? <==> exists k :: k in stock && k.user == userId && InScope(k, fridgeId) && AtLocation(fridges, k, location))
      && (r.Err? ==> r.error == if Filters(location) then NoProductsAtLocation(location.value) else NoProductsInFridge)
    ensures r.Ok? ==> forall v :: v in r.value <==>
      && Shows(products, stock, userId, v)
      && InScope(StockKey(v.id, v.fridgeId, userId), fridgeId)
      && AtLocation(fridges, StockKey(v.id, v.fridgeId, userId), location)
  {
    if userId !in users then Err(UserNotFound)
    else if Given(fridgeId) && fridgeId.value !in fridges then Err(FridgeNotFound)
    else
      var listed := set k | k in stock && k.user == userId && InScope(k, fridgeId);
      var kept := if Filters(location) then set k | k in listed && fridges[k.fridge].location == location.value else listed;
      assert forall k :: k in stock && k.user == userId && InScope(k, fridgeId) && AtLocation(fridges, k, location) ==> k in kept;
      if Filters(location) && |kept| == 0 then Err(NoProductsAtLocation(location.value))
      else if |kept| == 0 then Err(NoProductsInFridge)
      else Ok(Views(products, stock, userId, kept))
  }

  /** Lists the user's rows of one product, one view per fridge holding it. */
  function Get(users: set<UserId>, fridges: map<FridgeId, Fridge>, products: Catalogue, stock: Stock,
               productId: ProductId, userId: UserId): (r: Result<set<ProductView>>)
    requires RowsResolve(fridges, products, stock)
    ensures userId !in users ==> r == Err(UserNotFound)
    ensures userId in users ==>
      && (r.Ok? <==> exists k :: k in stock && k.product == productId && k.user == userId)
      && (r.Err? ==> r.error == ProductNotFound)
    ensures r.Ok? ==> forall v :: v in r.value <==> v.id == productId && Shows(products, stock, userId, v)
  {
    if userId !in users then Err(UserNotFound)
    else
      var listed := set k | k in stock && k.product == productId && k.user == userId;
      assert forall k :: k in stock && k.product == productId && k.user == userId ==> k in listed;
      if |listed| == 0 then Err(ProductNotFound)
      else Ok(Views(products, stock, userId, listed))
  }
}
