/** Totals over stock rows, and the row transfer that both gift handlers perform. */
module Ledger {
  import opened Inventory

  /** The sum of the values of a finite map. */
  ghost function Sum<K>(m: map<K, int>): int
    decreases m.Keys
  {
    if m == map[] then 0 else var k :| k in m; m[k] + Sum(m - {k})
  }

  /** Any entry can be taken out of a sum first: the sum does not depend on
      the order in which the entries are added. */
  lemma {:induction false} SumRemove<K>(m: map<K, int>, k: K)
    requires k in m
    ensures Sum(m) == m[k] + Sum(m - {k})
    decreases m.Keys
  {
    var j :| j in m && Sum(m) == m[j] + Sum(m - {j});
    if j != k {
      SumRemove(m - {j}, k);
      SumRemove(m - {k}, j);
      assert m - {j} - {k} == m - {k} - {j};
    }
  }

  lemma SumUpdate<K>(m: map<K, int>, k: K, v: int)
    ensures Sum(m[k := v]) == Sum(m) - (if k in m then m[k] else 0) + v
  {
    SumRemove(m[k := v], k);
    if k in m {
      SumRemove(m, k);
      assert m[k := v] - {k} == m - {k};
    } else {
      assert m[k := v] - {k} == m;
    }
  }

  /** What a total counts, and with which weight per unit. */
  datatype Measure =
    | Volume(products: Catalogue, fridge: FridgeId)  // size times quantity of every row in one fridge, all users
    | Count(product: ProductId, fridge: FridgeId)    // units of one product in one fridge, all users
    | Holding(product: ProductId, user: UserId)      // units of one product one user keeps, all fridges

  predicate Selects(m: Measure, k: StockKey) {
    match m
    case Volume(_, f) => k.fridge == f
    case Count(p, f) => k.product == p && k.fridge == f
    case Holding(p, u) => k.product == p && k.user == u
  }

  /** The weight of one unit of product `p`; a row whose product is missing
      from the catalogue weighs nothing. */
  function Unit(m: Measure, p: ProductId): int {
    match m
    case Volume(products, _) => if p in products then products[p].size else 0
    case _ => 1
  }

  /** What `amount` units of row `k` add to the total of `m`. */
  function Weight(m: Measure, k: StockKey, amount: int): int {
    if Selects(m, k) then Unit(m, k.product) * amount else 0
  }

  function Weights(stock: Stock, m: Measure): map<StockKey, int> {
    map k | k in stock && Selects(m, k) :: Weight(m, k, stock[k])
  }

  /** The total of measure `m` over the stock table. */
  ghost function Weigh(stock: Stock, m: Measure): int {
    Sum(Weights(stock, m))
  }

  /** The occupied volume of a fridge, whoever keeps the rows in it. */
  ghost function Occupied(stock: Stock, products: Catalogue, f: FridgeId): int {
    Weigh(stock, Volume(products, f))
  }

  /** Adding `amount` units to one row (creating it if absent) changes every
      total that selects the row by `amount` units and no other total. */
  lemma {:induction false} AddWeighs(stock: Stock, k: StockKey, amount: int, m: Measure)
    ensures Weigh(stock[k := Held(stock, k) + amount], m) == Weigh(stock, m) + Weight(m, k, amount)
  {
    var s' := stock[k := Held(stock, k) + amount];
    var w := Weights(stock, m);
    if Selects(m, k) {
      var u := Unit(m, k.product);
      assert Weight(m, k, Held(stock, k) + amount) == Weight(m, k, Held(stock, k)) + Weight(m, k, amount) by {
        assert u * (Held(stock, k) + amount) == u * Held(stock, k) + u * amount;
      }
      assert Weights(s', m) == w[k := Weight(m, k, Held(stock, k) + amount)];
      SumUpdate(w, k, Weight(m, k, Held(stock, k) + amount));
    } else {
      assert Weights(s', m) == w;
    }
  }

  /** Removing one row takes its weight out of every total that selects it. */
  lemma {:induction false} RemoveWeighs(stock: Stock, k: StockKey, m: Measure)
    requires k in stock
    ensures Weigh(stock - {k}, m) == Weigh(stock, m) - Weight(m, k, stock[k])
  {
    var w := Weights(stock, m);
    if Selects(m, k) {
      assert Weights(stock - {k}, m) == w - {k};
      SumRemove(w, k);
    } else {
      assert Weights(stock - {k}, m) == w;
    }
  }

  /** Sums the weights of the rows `m` selects, one row at a time, as the
      handlers' `reduce` calls do. */
  method Total(stock: Stock, m: Measure) returns (total: int)
    ensures total == Weigh(stock, m)
  {
    var w := Weights(stock, m);
    var left := w.Keys;
    total := 0;
    assert Restrict(w, left) == w;
    while left != {}
      invariant left <= w.Keys
      invariant total + Sum(Restrict(w, left)) == Sum(w)
      decreases left
    {
      var k :| k in left;
      SumRemove(Restrict(w, left), k);
      assert Restrict(w, left) - {k} == Restrict(w, left - {k});
      total := total + Weight(m, k, stock[k]);
      left := left - {k};
    }
    assert Restrict(w, left) == map[];
  }

  function Restrict<K>(m: map<K, int>, keys: set<K>): map<K, int> {
    map k | k in keys && k in m :: m[k]
  }

  // ---------------------------------------------------------------------
  // Moving rows from a sender to a receiver, fridge by fridge.

  /** `moved` is a set of the sender's rows that can be handed to a different receiver. */
  ghost predicate Movable(stock: Stock, moved: set<StockKey>, sender: UserId, receiver: UserId) {
    && sender != receiver
    && moved <= stock.Keys
    && (forall k :: k in moved ==> k.user == sender)
  }

  /** The receiver's row that a sender's row `k` is credited to. */
  predicate CreditedBy(k: StockKey, moved: set<StockKey>, sender: UserId, receiver: UserId) {
    k.user == receiver && WithUser(k, sender) in moved
  }

  /** The stock after the receiver's rows were upserted with the quantities of
      the `moved` rows, and before those rows are deleted. */
  function Credit(stock: Stock, moved: set<StockKey>, sender: UserId, receiver: UserId): (r: Stock)
    requires Movable(stock, moved, sender, receiver)
    ensures r.Keys == stock.Keys + (set k | k in moved :: WithUser(k, receiver))
  {
    map k | k in stock.Keys + (set j | j in moved :: WithUser(j, receiver)) ::
      if CreditedBy(k, moved, sender, receiver) then Held(stock, k) + stock[WithUser(k, sender)]
      else stock[k]
  }

  /** What the upserts leave: each moved row's receiver image holds its old
      quantity plus the moved row's, every row not credited keeps its
      quantity, and every row was there before or is such an image. */
  lemma CreditRows(stock: Stock, moved: set<StockKey>, sender: UserId, receiver: UserId)
    requires Movable(stock, moved, sender, receiver)
    ensures var c := Credit(stock, moved, sender, receiver);
      && (forall k :: k in moved ==>
            WithUser(k, receiver) in c && c[WithUser(k, receiver)] == Held(stock, WithUser(k, receiver)) + stock[k])
      && (forall k :: k in stock && !CreditedBy(k, moved, sender, receiver) ==> k in c && c[k] == stock[k])
      && (forall k :: k in c ==> k in stock || CreditedBy(k, moved, sender, receiver))
  {
    var c := Credit(stock, moved, sender, receiver);
    forall k | k in moved
      ensures WithUser(k, receiver) in c && c[WithUser(k, receiver)] == Held(stock, WithUser(k, receiver)) + stock[k]
    {
      assert WithUser(WithUser(k, receiver), sender) == k;
      assert CreditedBy(WithUser(k, receiver), moved, sender, receiver);
    }
  }

  /** Upserting the receiver's row for one more sender row is one step of the credit. */
  lemma {:induction false} CreditStep(stock: Stock, done: set<StockKey>, k: StockKey, sender: UserId, receiver: UserId)
    requires Movable(stock, done, sender, receiver)
    requires k in stock && k.user == sender && k !in done
    ensures var c := Credit(stock, done, sender, receiver);
      var rk := WithUser(k, receiver);
      Credit(stock, done + {k}, sender, receiver) == c[rk := Held(c, rk) + stock[k]]
  {
    var c := Credit(stock, done, sender, receiver);
    var c' := Credit(stock, done + {k}, sender, receiver);
    var rk := WithUser(k, receiver);
    assert WithUser(rk, sender) == k;
    assert Held(c, rk) == Held(stock, rk) by {
      assert !CreditedBy(rk, done, sender, receiver);
      if rk in c {
        assert rk in stock;
      }
    }
    var step := c[rk := Held(c, rk) + stock[k]];
    forall j | j in c'
      ensures j in step && c'[j] == step[j]
    {
      if j != rk && CreditedBy(j, done + {k}, sender, receiver) {
        assert CreditedBy(j, done, sender, receiver);
      }
    }
    assert c' == step;
  }

  /** The whole transfer: the receiver's rows are credited with the `moved`
      rows, then those rows are deleted. */
  function Transfer(stock: Stock, moved: set<StockKey>, sender: UserId, receiver: UserId): Stock
    requires Movable(stock, moved, sender, receiver)
  {
    Credit(stock, moved, sender, receiver) - moved
  }

  /** What a transfer does to each row: every moved row is gone and added to
      the receiver's row for the same product and fridge; every other row
      keeps its quantity; and no row appears that is neither old nor credited. */
  lemma TransferRows(stock: Stock, moved: set<StockKey>, sender: UserId, receiver: UserId)
    requires Movable(stock, moved, sender, receiver)
    ensures var r := Transfer(stock, moved, sender, receiver);
      && (forall k :: k in moved ==> k !in r)
      && (forall k {:trigger WithUser(k, receiver)} :: k in moved ==>
            WithUser(k, receiver) in r && r[WithUser(k, receiver)] == Held(stock, WithUser(k, receiver)) + stock[k])
      && (forall k :: k in stock && k !in moved && !CreditedBy(k, moved, sender, receiver) ==>
            k in r && r[k] == stock[k])
      && (forall k :: k in r ==> k in stock || CreditedBy(k, moved, sender, receiver))
  {
    var c := Credit(stock, moved, sender, receiver);
    forall k | k in moved
      ensures WithUser(k, receiver) in c && WithUser(WithUser(k, receiver), sender) == k
    {
    }
  }

  lemma TransferNothing(stock: Stock, sender: UserId, receiver: UserId)
    requires sender != receiver
    ensures Transfer(stock, {}, sender, receiver) == stock
  {
  }

  /** Handing one row `k` to the receiver: its quantity is added to the
      receiver's row of the same product and fridge, and `k` is deleted. */
  function Move(t: Stock, k: StockKey, receiver: UserId): Stock
    requires k in t
  {
    var rk := WithUser(k, receiver);
    t[rk := Held(t, rk) + t[k]] - {k}
  }

  /** Moving one more row is one step of the transfer. */
  lemma {:induction false} TransferStep(stock: Stock, moved: set<StockKey>, k: StockKey, sender: UserId, receiver: UserId)
    requires Movable(stock, moved, sender, receiver)
    requires k in stock && k.user == sender && k !in moved
    ensures var t := Transfer(stock, moved, sender, receiver);
      k in t && t[k] == stock[k]
      && Transfer(stock, moved + {k}, sender, receiver) == Move(t, k, receiver)
  {
    TransferRows(stock, moved, sender, receiver);
    TransferRows(stock, moved + {k}, sender, receiver);
    var t := Transfer(stock, moved, sender, receiver);
    var t' := Transfer(stock, moved + {k}, sender, receiver);
    var rk := WithUser(k, receiver);
    assert !CreditedBy(k, moved, sender, receiver);
    assert Held(t, rk) == Held(stock, rk) by {
      assert !CreditedBy(rk, moved, sender, receiver);
      assert rk !in moved;
    }
    var step := Move(t, k, receiver);
    forall j | j in t'
      ensures j in step && t'[j] == step[j]
    {
      if j != rk {
        assert !CreditedBy(j, moved + {k}, sender, receiver) || CreditedBy(j, moved, sender, receiver);
      }
    }
    forall j | j in step
      ensures j in t'
    {
      if j != rk {
        assert j != k && j in t;
      }
    }
    assert t' == step;
  }

  /** Moving one row shifts any total by the row's weight under its new
      holder, less its weight under the old one. */
  lemma MoveRowShifts(t: Stock, k: StockKey, receiver: UserId, m: Measure)
    requires k in t && k.user != receiver
    ensures Weigh(Move(t, k, receiver), m)
         == Weigh(t, m) + Weight(m, WithUser(k, receiver), t[k]) - Weight(m, k, t[k])
  {
    var rk := WithUser(k, receiver);
    var added := t[rk := Held(t, rk) + t[k]];
    assert Weigh(added, m) == Weigh(t, m) + Weight(m, rk, t[k]) by {
      AddWeighs(t, rk, t[k], m);
    }
    assert Weigh(added - {k}, m) == Weigh(added, m) - Weight(m, k, t[k]) by {
      assert k in added && added[k] == t[k];
      RemoveWeighs(added, k, m);
    }
    assert Move(t, k, receiver) == added - {k};
  }

  /** Moving one row to another user keeps every total that does not tell users apart. */
  lemma MoveRowWeighs(t: Stock, k: StockKey, receiver: UserId, m: Measure)
    requires k in t && k.user != receiver
    requires !m.Holding?
    ensures Weigh(Move(t, k, receiver), m) == Weigh(t, m)
  {
    MoveRowShifts(t, k, receiver, m);
    assert Selects(m, WithUser(k, receiver)) == Selects(m, k);
  }

  /** A transfer leaves every total that does not tell users apart unchanged:
      each fridge's occupied volume, and each (product, fridge) count. */
  lemma {:induction false} TransferWeighs(stock: Stock, moved: set<StockKey>, sender: UserId, receiver: UserId, m: Measure)
    requires Movable(stock, moved, sender, receiver)
    requires !m.Holding?
    ensures Weigh(Transfer(stock, moved, sender, receiver), m) == Weigh(stock, m)
    decreases moved
  {
    if moved == {} {
      TransferNothing(stock, sender, receiver);
    } else {
      var k :| k in moved;
      var rest := moved - {k};
      assert Movable(stock, rest, sender, receiver);
      TransferWeighs(stock, rest, sender, receiver, m);
      TransferStep(stock, rest, k, sender, receiver);
      assert rest + {k} == moved;
      MoveRowWeighs(Transfer(stock, rest, sender, receiver), k, receiver, m);
    }
  }

  /** A transfer moves the sender's whole holding of a product into the
      receiver's, and the sender keeps none of it when every such row moved. */
  lemma {:induction false} TransferHoldings(stock: Stock, moved: set<StockKey>, sender: UserId, receiver: UserId, p: ProductId)
    requires Movable(stock, moved, sender, receiver)
    requires forall k :: k in stock && k.user == sender && k.product == p ==> k in moved
    ensures var t := Transfer(stock, moved, sender, receiver);
      && Weigh(t, Holding(p, sender)) == 0
      && Weigh(t, Holding(p, receiver)) == Weigh(stock, Holding(p, receiver)) + Weigh(stock, Holding(p, sender))
    decreases moved
  {
    HoldingsMove(stock, moved, sender, receiver, p);
    TransferRows(stock, moved, sender, receiver);
    var t := Transfer(stock, moved, sender, receiver);
    assert Weights(t, Holding(p, sender)) == map[];
  }

  /** Moving one of the sender's rows of any product to the receiver keeps
      the sum of their two holdings of product `p`. */
  lemma MoveRowHoldings(t: Stock, k: StockKey, sender: UserId, receiver: UserId, p: ProductId)
    requires k in t && k.user == sender && sender != receiver
    ensures var s' := Move(t, k, receiver);
      Weigh(s', Holding(p, receiver)) + Weigh(s', Holding(p, sender))
      == Weigh(t, Holding(p, receiver)) + Weigh(t, Holding(p, sender))
  {
    MoveRowShifts(t, k, receiver, Holding(p, receiver));
    MoveRowShifts(t, k, receiver, Holding(p, sender));
  }

  /** The two users' combined holding of product `p` survives a transfer. */
  lemma {:induction false} HoldingsMove(stock: Stock, moved: set<StockKey>, sender: UserId, receiver: UserId, p: ProductId)
    requires Movable(stock, moved, sender, receiver)
    ensures Weigh(Transfer(stock, moved, sender, receiver), Holding(p, receiver))
         + Weigh(Transfer(stock, moved, sender, receiver), Holding(p, sender))
         == Weigh(stock, Holding(p, receiver)) + Weigh(stock, Holding(p, sender))
    decreases moved
  {
    if moved == {} {
      TransferNothing(stock, sender, receiver);
    } else {
      var k :| k in moved;
      var rest := moved - {k};
      assert Movable(stock, rest, sender, receiver);
      HoldingsMove(stock, rest, sender, receiver, p);
      var t := Transfer(stock, rest, sender, receiver);
      TransferStep(stock, rest, k, sender, receiver);
      assert rest + {k} == moved;
      MoveRowHoldings(t, k, sender, receiver, p);
    }
  }
}
