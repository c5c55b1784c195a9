/** How the total the server stores for an order relates to the "market
    total" the order history computes from today's prices
    (client/src/components/vendor/order-history.tsx against
    server/routes.ts and server/storage.ts). */
module Consistency {
  import opened Wrappers
  import opened Assoc
  import opened Schema
  import Ledger
  import Reconcile
  import Routes
  import OrderHistory

  /** Line by line, stored prices that equal the price map's entries (a
      missing entry read as 0) give the same sum as the market total's. */
  lemma {:induction false} LineSumMatches(items: seq<OrderItem>, m: Assoc<Id, int>)
    requires forall j :: 0 <= j < |items| ==> items[j].price == Some(Get(m, items[j].productId).GetOr(0))
    ensures Reconcile.LineSum(items) == OrderHistory.MarketLines(items, m)
  {
    if |items| > 0 {
      LineSumMatches(items[..|items| - 1], m);
    }
  }

  /** The corrected order creation stores exactly the market total of the
      items it created. */
  lemma CorrectedCreateStoresMarketTotal(db: Db, reqs: seq<Routes.ItemRequest>, userId: string, orderId: Id, itemIds: seq<Id>, now: int)
    requires |itemIds| == |reqs|
    requires Routes.CreateOrderPersistingTotal(db, reqs, userId, orderId, itemIds, now).response.Success?
    ensures var r := Routes.CreateOrderPersistingTotal(db, reqs, userId, orderId, itemIds, now);
      var created := Routes.CreatedItems(orderId, reqs, itemIds, Reconcile.ServerPriceMap(db.prices));
      r.response.value.order.total == Some(OrderHistory.MarketTotal(created, Ledger.LatestList(db.prices)))
  {
    var created := Routes.CreatedItems(orderId, reqs, itemIds, Reconcile.ServerPriceMap(db.prices));
    LineSumMatches(created, Reconcile.ServerPriceMap(db.prices));
  }

  /** Prices in the ledger that are never negative give a market total of at
      least the fee. */
  lemma {:induction false} MarketLinesNonNegative(items: seq<OrderItem>, m: Assoc<Id, int>)
    requires forall j :: 0 <= j < |items| ==> Get(m, items[j].productId).GetOr(0) >= 0 && items[j].quantity >= 0
    ensures OrderHistory.MarketLines(items, m) >= 0
  {
    if |items| > 0 {
      MarketLinesNonNegative(items[..|items| - 1], m);
    }
  }

  /** The price map holds only prices that occur in the ledger. */
  lemma PriceFromLedger(rows: seq<PriceObservation>, productId: Id)
    requires Ledger.CurrentPrice(rows, productId).Some?
    ensures exists i :: 0 <= i < |rows| && rows[i].price == Ledger.CurrentPrice(rows, productId).value
  {
    Ledger.CurrentPriceIsLatest(rows, productId);
    var i := Ledger.LatestIsLatestRow(rows, productId);
  }

  /** With the order creation as written, the history shows every new order
      as paid 0 next to a market total of at least 40.00: the two never
      agree while the ledger holds no negative price. */
  lemma AsWrittenCreateDisagrees(db: Db, reqs: seq<Routes.ItemRequest>, userId: string, orderId: Id, itemIds: seq<Id>, now: int)
    requires |itemIds| == |reqs|
    requires Routes.CreateOrder(db, reqs, userId, orderId, itemIds, now).response.Success?
    requires forall i :: 0 <= i < |db.prices| ==> db.prices[i].price >= 0
    ensures var r := Routes.CreateOrder(db, reqs, userId, orderId, itemIds, now);
      var created := Routes.CreatedItems(orderId, reqs, itemIds, Reconcile.ServerPriceMap(db.prices));
      && r.response.value.order.total == Some(0)
      && OrderHistory.MarketTotal(created, Ledger.LatestList(db.prices)) >= Reconcile.ConvenienceFee
  {
    var m := Reconcile.ServerPriceMap(db.prices);
    var created := Routes.CreatedItems(orderId, reqs, itemIds, m);
    forall j | 0 <= j < |created|
      ensures Get(m, created[j].productId).GetOr(0) >= 0 && created[j].quantity >= 0
    {
      if Get(m, created[j].productId).Some? {
        PriceFromLedger(db.prices, created[j].productId);
      }
    }
    MarketLinesNonNegative(created, m);
  }

  /** Every item's product has a current price, and it is not 0. */
  ghost predicate AllPriced(items: seq<OrderItem>, prices: seq<PriceObservation>)
  {
    forall j :: 0 <= j < |items| ==>
      Ledger.CurrentPrice(prices, items[j].productId).Some? && Ledger.CurrentPrice(prices, items[j].productId).value != 0
  }

  /** After a set-price pass over an order whose every product has a non-zero
      current price, the stored total is the market total of its items,
      unless that total does not fit the column. */
  lemma ReconciledTotalIsMarketTotal(db: Db, orderIds: seq<Id>, i: int)
    requires 0 <= i < |db.orders| && db.orders[i].id in orderIds
    requires AllPriced(Reconcile.ItemsOf(db.items, db.orders[i].id), db.prices)
    ensures var r := Reconcile.ReconcileAll(db, orderIds);
      var own := Reconcile.ItemsOf(r.items, db.orders[i].id);
      var market := OrderHistory.MarketTotal(own, Ledger.LatestList(db.prices));
      && (FitsMoney(market) ==> r.orders[i].total == Some(market))
      && (!FitsMoney(market) ==> r.orders[i] == db.orders[i])
  {
    var r := Reconcile.ReconcileAll(db, orderIds);
    Reconcile.TotalAfterReconcile(db, orderIds, i);
    OwnProductsPriced(db, orderIds, db.orders[i].id);
    MarketFromRecomputed(db, r, i);
  }

  /** The step from a recomputed total to the market total. */
  lemma MarketFromRecomputed(db: Db, r: Db, i: int)
    requires 0 <= i < |db.orders| && |r.orders| == |db.orders|
    requires Reconcile.TotalRecomputed(db, r, i)
    requires AllPriced(Reconcile.ItemsOf(r.items, db.orders[i].id), db.prices)
    ensures var own := Reconcile.ItemsOf(r.items, db.orders[i].id);
      var market := OrderHistory.MarketTotal(own, Ledger.LatestList(db.prices));
      && (FitsMoney(market) ==> r.orders[i].total == Some(market))
      && (!FitsMoney(market) ==> r.orders[i] == db.orders[i])
  {
    var m := Reconcile.ServerPriceMap(db.prices);
    var own := Reconcile.ItemsOf(r.items, db.orders[i].id);
    forall j | 0 <= j < |own|
      ensures own[j].price == Some(Get(m, own[j].productId).GetOr(0))
    {
      assert Ledger.CurrentPrice(db.prices, own[j].productId) == Get(m, own[j].productId);
    }
    LineSumMatches(own, m);
    assert OrderHistory.MarketTotal(own, Ledger.LatestList(db.prices)) == Reconcile.OrderTotal(own);
  }

  /** Reconciliation keeps each item's product, so the order's items after
      the pass are priced exactly when they were before. */
  lemma OwnProductsPriced(db: Db, orderIds: seq<Id>, x: Id)
    requires AllPriced(Reconcile.ItemsOf(db.items, x), db.prices)
    ensures AllPriced(Reconcile.ItemsOf(Reconcile.ReconcileAll(db, orderIds).items, x), db.prices)
  {
    var m := Reconcile.ServerPriceMap(db.prices);
    var s := Reconcile.SetOf(orderIds);
    Reconcile.ReconcileAllMatchesReference(db, orderIds);
    assert Reconcile.ReconcileAll(db, orderIds).items == Reconcile.RepriceWhere(db.items, s, m);
    Reconcile.ItemsOfRepriceWhere(db.items, s, m, x);
    PricedAfterReprice(Reconcile.ItemsOf(db.items, x), s, m, db.prices);
  }

  lemma PricedAfterReprice(items: seq<OrderItem>, s: set<Id>, m: Assoc<Id, int>, prices: seq<PriceObservation>)
    requires AllPriced(items, prices)
    ensures AllPriced(Reconcile.RepriceWhere(items, s, m), prices)
  {
    var r := Reconcile.RepriceWhere(items, s, m);
    forall j | 0 <= j < |r|
      ensures r[j].productId == items[j].productId
    {
    }
  }
}
