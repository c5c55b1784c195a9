/** Price reconciliation (`updateOrderItemPrices` in server/storage.ts and its
    use by the set-price handler in server/routes.ts): line items of an order
    take the ledger's current price, and the order total is recomputed as the
    convenience fee plus the sum of price times quantity. */
module Reconcile {
  import opened Wrappers
  import opened Assoc
  import opened Schema
  import Ledger

  /** The flat convenience fee of 40 rupees, in cents. */
  const ConvenienceFee: int := 4000

  /** The map the server looks prices up in: product id to the price of its
      latest ledger row. */
  function ServerPriceMap(prices: seq<PriceObservation>): Assoc<Id, int>
  {
    Ledger.PriceMap(Ledger.LatestList(prices))
  }

  /** An item takes the current price when one is known, is not zero and
      differs from the stored price (a null price reading as 0). */
  function RepriceItem(item: OrderItem, latest: Assoc<Id, int>): (r: OrderItem)
    ensures r.id == item.id && r.orderId == item.orderId
    ensures r.productId == item.productId && r.quantity == item.quantity
    ensures r != item <==>
      var cur := Get(latest, item.productId);
      cur.Some? && cur.value != 0 && cur.value != item.price.GetOr(0)
    ensures r != item ==> r.price == Get(latest, item.productId)
  {
    match Get(latest, item.productId)
    case Some(cur) =>
      if cur != 0 && cur != item.price.GetOr(0) then item.(price := Some(cur)) else item
    case None => item
  }

  /** After repricing, an item whose product has a non-zero current price
      carries exactly that price. */
  lemma RepricedCarriesCurrent(item: OrderItem, latest: Assoc<Id, int>)
    requires Get(latest, item.productId).Some? && Get(latest, item.productId).value != 0
    ensures RepriceItem(item, latest).price.GetOr(0) == Get(latest, item.productId).value
  {
  }

  /** Repricing twice against the same prices changes nothing more. */
  lemma RepriceIdempotent(item: OrderItem, latest: Assoc<Id, int>)
    ensures RepriceItem(RepriceItem(item, latest), latest) == RepriceItem(item, latest)
  {
  }

  /** Items of orders in `orderIds` repriced, every other item kept. */
  function RepriceWhere(items: seq<OrderItem>, orderIds: set<Id>, latest: Assoc<Id, int>): (r: seq<OrderItem>)
    ensures |r| == |items|
    ensures forall i :: 0 <= i < |items| ==>
      r[i] == if items[i].orderId in orderIds then RepriceItem(items[i], latest) else items[i]
  {
    if |items| == 0 then []
    else
      var rest := RepriceWhere(items[..|items| - 1], orderIds, latest);
      var it := items[|items| - 1];
      rest + [if it.orderId in orderIds then RepriceItem(it, latest) else it]
  }

  /** The items of one order, in table order. */
  function ItemsOf(items: seq<OrderItem>, orderId: Id): (r: seq<OrderItem>)
    ensures |r| <= |items|
    ensures forall i :: 0 <= i < |r| ==> r[i].orderId == orderId
    ensures forall it :: it in items && it.orderId == orderId ==> it in r
    ensures forall it :: it in r ==> it in items
  {
    if |items| == 0 then []
    else
      var rest := ItemsOf(items[..|items| - 1], orderId);
      var it := items[|items| - 1];
      if it.orderId == orderId then rest + [it] else rest
  }

  /** Σ price × quantity, a null price counting as 0. */
  function LineSum(items: seq<OrderItem>): int
  {
    if |items| == 0 then 0
    else LineSum(items[..|items| - 1]) + items[|items| - 1].price.GetOr(0) * items[|items| - 1].quantity
  }

  /** The recomputed total of an order with these items. */
  function OrderTotal(items: seq<OrderItem>): int
  {
    ConvenienceFee + LineSum(items)
  }

  /** Writing a total into the decimal(10,2) column: a value that does not fit
      makes the update fail, the failure is logged and swallowed, and the row
      keeps its old total. */
  function WithTotal(o: Order, total: int): (r: Order)
    ensures FitsMoney(total) ==> r.total == Some(total)
    ensures !FitsMoney(total) ==> r == o
    ensures r.(total := o.total) == o
  {
    if FitsMoney(total) then o.(total := Some(total)) else o
  }

  /** Order rows whose id is in `orderIds` get the total of their items in
      `items`; the other rows are kept. */
  function TotalsWhere(orders: seq<Order>, orderIds: set<Id>, items: seq<OrderItem>): (r: seq<Order>)
    ensures |r| == |orders|
    ensures forall i :: 0 <= i < |orders| ==>
      r[i] == if orders[i].id in orderIds then WithTotal(orders[i], OrderTotal(ItemsOf(items, orders[i].id))) else orders[i]
  {
    if |orders| == 0 then []
    else
      var rest := TotalsWhere(orders[..|orders| - 1], orderIds, items);
      var o := orders[|orders| - 1];
      rest + [if o.id in orderIds then WithTotal(o, OrderTotal(ItemsOf(items, o.id))) else o]
  }

  /** `updateOrderItemPrices(orderId)`: reprice the order's items against the
      latest prices, then store the recomputed total. An id without an order
      row only reprices nothing and updates nothing. */
  function UpdateOrderItemPrices(db: Db, orderId: Id): (r: Db)
    ensures r.users == db.users && r.products == db.products
    ensures r.prices == db.prices && r.deliveries == db.deliveries
    ensures |r.items| == |db.items| && |r.orders| == |db.orders|
    ensures forall i :: 0 <= i < |db.items| && db.items[i].orderId != orderId ==> r.items[i] == db.items[i]
    ensures forall i :: 0 <= i < |db.orders| && db.orders[i].id != orderId ==> r.orders[i] == db.orders[i]
    ensures forall i :: 0 <= i < |db.items| && db.items[i].orderId == orderId ==>
      r.items[i] == RepriceItem(db.items[i], ServerPriceMap(db.prices))
    ensures forall i :: 0 <= i < |db.orders| && db.orders[i].id == orderId ==>
      r.orders[i] == WithTotal(db.orders[i], OrderTotal(ItemsOf(r.items, orderId)))
  {
    var items' := RepriceWhere(db.items, {orderId}, ServerPriceMap(db.prices));
    db.(items := items', orders := TotalsWhere(db.orders, {orderId}, items'))
  }

  /** Reference: every order in `orderIds` reconciled at once. */
  function Reconciled(db: Db, orderIds: set<Id>): (r: Db)
    ensures r.prices == db.prices
    ensures |r.items| == |db.items| && |r.orders| == |db.orders|
  {
    var items' := RepriceWhere(db.items, orderIds, ServerPriceMap(db.prices));
    db.(items := items', orders := TotalsWhere(db.orders, orderIds, items'))
  }

  /** The set-price handler's loop: `updateOrderItemPrices` for each id in turn. */
  function ReconcileAll(db: Db, orderIds: seq<Id>): (r: Db)
    ensures r.prices == db.prices
    ensures r.users == db.users && r.products == db.products && r.deliveries == db.deliveries
    ensures |r.items| == |db.items| && |r.orders| == |db.orders|
    ensures forall i :: 0 <= i < |db.items| && db.items[i].orderId !in orderIds ==> r.items[i] == db.items[i]
    ensures forall i :: 0 <= i < |db.orders| && db.orders[i].id !in orderIds ==> r.orders[i] == db.orders[i]
  {
    if |orderIds| == 0 then db
    else UpdateOrderItemPrices(ReconcileAll(db, orderIds[..|orderIds| - 1]), orderIds[|orderIds| - 1])
  }

  predicate IsOpen(status: Option<OrderStatus>)
  {
    status == Some(Placed) || status == Some(Procuring) || status == Some(OnTheWay)
  }

  /** Ids of the orders whose status is PLACED, PROCURING or ON_THE_WAY, in
      table order; a null status matches none of the three. */
  function OpenOrderIds(orders: seq<Order>): (r: seq<Id>)
    ensures forall i :: 0 <= i < |orders| && IsOpen(orders[i].status) ==> orders[i].id in r
    ensures forall x :: x in r ==> exists i :: 0 <= i < |orders| && orders[i].id == x && IsOpen(orders[i].status)
  {
    if |orders| == 0 then []
    else
      var rest := OpenOrderIds(orders[..|orders| - 1]);
      var o := orders[|orders| - 1];
      assert forall i :: 0 <= i < |orders| - 1 ==> orders[..|orders| - 1][i] == orders[i];
      if IsOpen(o.status) then rest + [o.id] else rest
  }

  function SetOf(ids: seq<Id>): (s: set<Id>)
    ensures forall x :: x in s <==> x in ids
  {
    set x | x in ids
  }

  // ---------------------------------------------------------------------------
  // Lemmas

  lemma {:induction false} ItemsOfRepriceWhere(items: seq<OrderItem>, orderIds: set<Id>, latest: Assoc<Id, int>, orderId: Id)
    ensures ItemsOf(RepriceWhere(items, orderIds, latest), orderId) == RepriceWhere(ItemsOf(items, orderId), orderIds, latest)
  {
    if |items| > 0 {
      var n := |items| - 1;
      var p := items[..n];
      var it := items[n];
      var it' := if it.orderId in orderIds then RepriceItem(it, latest) else it;
      assert items == p + [it];
      ItemsOfRepriceWhere(p, orderIds, latest, orderId);
      RepriceWhereSnoc(p, it, orderIds, latest);
      ItemsOfSnoc(p, it, orderId);
      ItemsOfSnoc(RepriceWhere(p, orderIds, latest), it', orderId);
      RepriceWhereSnoc(ItemsOf(p, orderId), it, orderIds, latest);
    }
  }

  lemma RepriceWhereSnoc(p: seq<OrderItem>, it: OrderItem, orderIds: set<Id>, latest: Assoc<Id, int>)
    ensures RepriceWhere(p + [it], orderIds, latest)
      == RepriceWhere(p, orderIds, latest) + [if it.orderId in orderIds then RepriceItem(it, latest) else it]
  {
    assert (p + [it])[..|p|] == p;
  }

  lemma ItemsOfSnoc(p: seq<OrderItem>, it: OrderItem, orderId: Id)
    ensures ItemsOf(p + [it], orderId) == if it.orderId == orderId then ItemsOf(p, orderId) + [it] else ItemsOf(p, orderId)
  {
    assert (p + [it])[..|p|] == p;
  }

  /** Repricing depends on the id set only through the ids the items use. */
  lemma RepriceWhereSameOn(items: seq<OrderItem>, s: set<Id>, t: set<Id>, latest: Assoc<Id, int>)
    requires forall i :: 0 <= i < |items| ==> (items[i].orderId in s <==> items[i].orderId in t)
    ensures RepriceWhere(items, s, latest) == RepriceWhere(items, t, latest)
  {
  }

  /** Reconciling `s` and then `t` is reconciling `s + t` at once. */
  lemma {:induction false} ReconciledCompose(db: Db, s: set<Id>, t: set<Id>)
    ensures Reconciled(Reconciled(db, s), t) == Reconciled(db, s + t)
  {
    var latest := ServerPriceMap(db.prices);
    var items1 := RepriceWhere(db.items, s, latest);
    var items3 := RepriceWhere(db.items, s + t, latest);
    RepriceCompose(db.items, s, t, latest);
    var orders2 := TotalsWhere(TotalsWhere(db.orders, s, items1), t, items3);
    var orders3 := TotalsWhere(db.orders, s + t, items3);
    forall i | 0 <= i < |db.orders|
      ensures orders2[i] == orders3[i]
    {
      TotalCompose(db.items, db.orders[i], s, t, latest);
    }
    assert orders2 == orders3;
  }

  /** Repricing the items of `s` and then those of `t` reprices those of `s + t`. */
  lemma RepriceCompose(items: seq<OrderItem>, s: set<Id>, t: set<Id>, latest: Assoc<Id, int>)
    ensures RepriceWhere(RepriceWhere(items, s, latest), t, latest) == RepriceWhere(items, s + t, latest)
  {
    var r2 := RepriceWhere(RepriceWhere(items, s, latest), t, latest);
    var r3 := RepriceWhere(items, s + t, latest);
    forall i | 0 <= i < |items|
      ensures r2[i] == r3[i]
    {
      RepriceIdempotent(items[i], latest);
    }
  }

  /** One order row through the two passes ends as through the joint one. */
  lemma TotalCompose(items: seq<OrderItem>, o: Order, s: set<Id>, t: set<Id>, latest: Assoc<Id, int>)
    ensures var items1 := RepriceWhere(items, s, latest);
      var items3 := RepriceWhere(items, s + t, latest);
      var o1 := if o.id in s then WithTotal(o, OrderTotal(ItemsOf(items1, o.id))) else o;
      (if o.id in t then WithTotal(o1, OrderTotal(ItemsOf(items3, o.id))) else o1)
        == (if o.id in s + t then WithTotal(o, OrderTotal(ItemsOf(items3, o.id))) else o)
  {
    if o.id in s {
      var own := ItemsOf(items, o.id);
      ItemsOfRepriceWhere(items, s, latest, o.id);
      ItemsOfRepriceWhere(items, s + t, latest, o.id);
      RepriceWhereSameOn(own, s, s + t, latest);
    }
  }

  /** Reconciling with no order ids is the identity. */
  lemma ReconciledNone(db: Db)
    ensures Reconciled(db, {}) == db
  {
    var items' := RepriceWhere(db.items, {}, ServerPriceMap(db.prices));
    assert items' == db.items;
    assert TotalsWhere(db.orders, {}, items') == db.orders;
  }

  lemma UpdateIsReconciled(db: Db, orderId: Id)
    ensures UpdateOrderItemPrices(db, orderId) == Reconciled(db, {orderId})
  {
  }

  /** The sequential loop agrees with the simultaneous reference. */
  lemma {:induction false} ReconcileAllMatchesReference(db: Db, orderIds: seq<Id>)
    ensures ReconcileAll(db, orderIds) == Reconciled(db, SetOf(orderIds))
  {
    if |orderIds| == 0 {
      ReconciledNone(db);
      assert SetOf(orderIds) == {};
    } else {
      var n := |orderIds| - 1;
      var p := orderIds[..n];
      var x := orderIds[n];
      ReconcileAllMatchesReference(db, p);
      var mid := Reconciled(db, SetOf(p));
      assert ReconcileAll(db, orderIds) == UpdateOrderItemPrices(mid, x);
      UpdateIsReconciled(mid, x);
      ReconciledCompose(db, SetOf(p), {x});
      SetOfSnoc(orderIds);
    }
  }

  lemma SetOfSnoc(ids: seq<Id>)
    requires |ids| > 0
    ensures SetOf(ids) == SetOf(ids[..|ids| - 1]) + {ids[|ids| - 1]}
  {
    assert ids == ids[..|ids| - 1] + [ids[|ids| - 1]];
  }

  /** Reconciling the same orders a second time, against an unchanged ledger,
      changes nothing. */
  lemma ReconcileIdempotent(db: Db, orderIds: seq<Id>)
    ensures ReconcileAll(ReconcileAll(db, orderIds), orderIds) == ReconcileAll(db, orderIds)
  {
    ReconcileAllMatchesReference(db, orderIds);
    ReconcileAllMatchesReference(ReconcileAll(db, orderIds), orderIds);
    ReconciledCompose(db, SetOf(orderIds), SetOf(orderIds));
    assert SetOf(orderIds) + SetOf(orderIds) == SetOf(orderIds);
  }

  /** Order ids are primary keys. */
  ghost predicate UniqueOrderIds(orders: seq<Order>)
  {
    forall i, j :: 0 <= i < |orders| && 0 <= j < |orders| && orders[i].id == orders[j].id ==> i == j
  }

  /** The set-price pass leaves an order that is not open (DELIVERED, or with
      no status) untouched, together with all of its items. */
  lemma ClosedOrdersFrozen(db: Db, i: int)
    requires UniqueOrderIds(db.orders)
    requires 0 <= i < |db.orders| && !IsOpen(db.orders[i].status)
    ensures var r := ReconcileAll(db, OpenOrderIds(db.orders));
      && r.orders[i] == db.orders[i]
      && ItemsOf(r.items, db.orders[i].id) == ItemsOf(db.items, db.orders[i].id)
  {
    var ids := OpenOrderIds(db.orders);
    ReconcileAllMatchesReference(db, ids);
    var x := db.orders[i].id;
    assert x !in SetOf(ids);
    var latest := ServerPriceMap(db.prices);
    ItemsOfRepriceWhere(db.items, SetOf(ids), latest, x);
    RepriceWhereSameOn(ItemsOf(db.items, x), SetOf(ids), {}, latest);
    assert RepriceWhere(ItemsOf(db.items, x), {}, latest) == ItemsOf(db.items, x);
  }

  /** What a pass leaves for order row `i` of `db` in `r`: 40 plus the sum of
      price × quantity over its (repriced) items as its total, unless that
      sum does not fit the column (the row is then as it was); and each of
      its items whose product has a non-zero current price carries that
      price. */
  ghost predicate TotalRecomputed(db: Db, r: Db, i: int)
    requires 0 <= i < |db.orders| && |r.orders| == |db.orders|
  {
    var own := ItemsOf(r.items, db.orders[i].id);
    && (FitsMoney(OrderTotal(own)) ==> r.orders[i].total == Some(ConvenienceFee + LineSum(own)))
    && (!FitsMoney(OrderTotal(own)) ==> r.orders[i] == db.orders[i])
    && (forall j :: 0 <= j < |own| ==>
          var cur := Get(ServerPriceMap(db.prices), own[j].productId);
          cur.Some? && cur.value != 0 ==> own[j].price == cur)
  }

  /** After a pass over `orderIds`, each of those orders has its total
      recomputed from its repriced items. */
  lemma TotalAfterReconcile(db: Db, orderIds: seq<Id>, i: int)
    requires 0 <= i < |db.orders| && db.orders[i].id in orderIds
    ensures TotalRecomputed(db, ReconcileAll(db, orderIds), i)
  {
    ReconcileAllMatchesReference(db, orderIds);
    TotalAfterReconciled(db, SetOf(orderIds), i);
  }

  lemma TotalAfterReconciled(db: Db, orderIds: set<Id>, i: int)
    requires 0 <= i < |db.orders| && db.orders[i].id in orderIds
    ensures TotalRecomputed(db, Reconciled(db, orderIds), i)
  {
    var x := db.orders[i].id;
    var latest := ServerPriceMap(db.prices);
    var r := Reconciled(db, orderIds);
    var items' := RepriceWhere(db.items, orderIds, latest);
    assert r.items == items';
    assert r.orders == TotalsWhere(db.orders, orderIds, items');
    var own := ItemsOf(items', x);
    assert r.orders[i] == WithTotal(db.orders[i], OrderTotal(own));
    assert OrderTotal(own) == ConvenienceFee + LineSum(own);
    OwnItemsRepriced(db.items, orderIds, latest, x);
  }

  lemma OwnItemsRepriced(items: seq<OrderItem>, orderIds: set<Id>, latest: Assoc<Id, int>, x: Id)
    requires x in orderIds
    ensures var own := ItemsOf(RepriceWhere(items, orderIds, latest), x);
      forall j :: 0 <= j < |own| ==>
        var cur := Get(latest, own[j].productId);
        cur.Some? && cur.value != 0 ==> own[j].price == cur
  {
    ItemsOfRepriceWhere(items, orderIds, latest, x);
    var base := ItemsOf(items, x);
    var own := RepriceWhere(base, orderIds, latest);
    forall j | 0 <= j < |own|
      ensures var cur := Get(latest, own[j].productId);
              cur.Some? && cur.value != 0 ==> own[j].price == cur
    {
      assert base[j].orderId == x;
      assert own[j] == RepriceItem(base[j], latest);
      RepricedHasCurrent(base[j], latest);
    }
  }

  lemma RepricedHasCurrent(item: OrderItem, latest: Assoc<Id, int>)
    ensures var cur := Get(latest, item.productId);
      cur.Some? && cur.value != 0 ==> RepriceItem(item, latest).price == cur
  {
  }
}
