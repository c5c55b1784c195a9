/** The state-changing HTTP handlers of server/routes.ts, each one atomic step
    from a database to a database and a response: order creation, setting a
    procurement price (with the reconciliation pass it triggers), marking an
    order delivered, and the status PATCH.

    Values the database or the runtime supplies (fresh row ids, the current
    time) are parameters. A database error inside a handler aborts the rest of
    the handler; writes made before it stay, because the handlers do not run in
    a transaction. */
module Routes {
  import opened Wrappers
  import opened Assoc
  import opened Schema
  import Decimal
  import Ledger
  import Reconcile
  import Aggregates

  datatype HttpError = HttpError(status: int, message: string)

  /** The database after the handler, and what it answered. */
  datatype Reply<T> = Reply(db: Db, response: Result<T, HttpError>)

  // ---------------------------------------------------------------------------
  // POST /api/orders

  /** One element of the request's `items` array. */
  datatype ItemRequest = ItemRequest(productId: Id, quantity: int)

  /** `createOrderSchema`: every quantity is at least 1. */
  predicate QuantitiesValid(reqs: seq<ItemRequest>)
  {
    forall i :: 0 <= i < |reqs| ==> reqs[i].quantity >= 1
  }

  /** An item row can be inserted: its product exists (foreign key) and its
      quantity fits the integer column. */
  predicate Insertable(products: seq<Product>, req: ItemRequest)
  {
    Aggregates.FindProduct(products, req.productId).Some? && FitsInt32(req.quantity)
  }

  /** How many items the insertion loop gets through before the first one the
      database refuses. */
  function InsertedCount(products: seq<Product>, reqs: seq<ItemRequest>): (k: nat)
    ensures k <= |reqs|
    ensures forall i :: 0 <= i < k ==> Insertable(products, reqs[i])
    ensures k < |reqs| ==> !Insertable(products, reqs[k])
  {
    if |reqs| == 0 || !Insertable(products, reqs[0]) then 0
    else 1 + InsertedCount(products, reqs[1..])
  }

  /** The item rows the handler writes: each at the product's current price,
      or 0 when the product has never been priced. */
  function CreatedItems(orderId: Id, reqs: seq<ItemRequest>, itemIds: seq<Id>, latest: Assoc<Id, int>): (r: seq<OrderItem>)
    requires |itemIds| == |reqs|
    ensures |r| == |reqs|
    ensures forall i :: 0 <= i < |reqs| ==>
      r[i] == OrderItem(itemIds[i], orderId, reqs[i].productId, reqs[i].quantity,
                        Some(Get(latest, reqs[i].productId).GetOr(0)))
  {
    if |reqs| == 0 then []
    else
      [OrderItem(itemIds[0], orderId, reqs[0].productId, reqs[0].quantity, Some(Get(latest, reqs[0].productId).GetOr(0)))]
        + CreatedItems(orderId, reqs[1..], itemIds[1..], latest)
  }

  /** The order row as first inserted: status PLACED and total "0". */
  function NewOrder(orderId: Id, userId: Id, now: int): Order
  {
    Order(orderId, userId, Some(Placed), Some(0), Some(now))
  }

  const CreateFailed: HttpError := HttpError(500, "Failed to create order")

  /** The handler as written: it computes a running total but never stores it,
      so the order keeps the total 0 it was inserted with. */
  function CreateOrder(db: Db, reqs: seq<ItemRequest>, userId: string, orderId: Id, itemIds: seq<Id>, now: int): (r: Reply<OrderWithItems>)
    requires |itemIds| == |reqs|
    ensures !QuantitiesValid(reqs) ==> r == Reply(db, Failure(CreateFailed))
    ensures QuantitiesValid(reqs) && userId == "" ==> r == Reply(db, Failure(HttpError(401, "User ID required")))
    ensures r.response.Success? <==>
      QuantitiesValid(reqs) && userId != "" && userId in db.users
      && forall i :: 0 <= i < |reqs| ==> Insertable(db.products, reqs[i])
    ensures r.response.Failure? ==> r.response.error.status == 500 || r.response.error.status == 401
    ensures r.db.prices == db.prices && r.db.deliveries == db.deliveries
    ensures r.db.users == db.users && r.db.products == db.products
    ensures r.response.Success? ==>
      && r.db.orders == db.orders + [NewOrder(orderId, userId, now)]
      && r.db.items == db.items + CreatedItems(orderId, reqs, itemIds, Reconcile.ServerPriceMap(db.prices))
      && r.response.value.order.total == Some(0)
  {
    if !QuantitiesValid(reqs) then Reply(db, Failure(CreateFailed))
    else if userId == "" then Reply(db, Failure(HttpError(401, "User ID required")))
    else if userId !in db.users then Reply(db, Failure(CreateFailed))
    else
      var latest := Reconcile.ServerPriceMap(db.prices);
      var order := NewOrder(orderId, userId, now);
      var k := InsertedCount(db.products, reqs);
      var db' := db.(orders := db.orders + [order],
                     items := db.items + CreatedItems(orderId, reqs[..k], itemIds[..k], latest));
      if k < |reqs| then Reply(db', Failure(CreateFailed))
      else
        assert reqs[..k] == reqs && itemIds[..k] == itemIds;
        Reply(db', Success(OrderWithItems(order, Reconcile.ItemsOf(db'.items, orderId))))
  }

  /** The running total the handler computes: the fee plus each item's price
      times its quantity. */
  function RunningTotal(reqs: seq<ItemRequest>, latest: Assoc<Id, int>): int
  {
    if |reqs| == 0 then Reconcile.ConvenienceFee
    else RunningTotal(reqs[..|reqs| - 1], latest) + Get(latest, reqs[|reqs| - 1].productId).GetOr(0) * reqs[|reqs| - 1].quantity
  }

  /** The running total is the stored-total formula applied to the created
      items. */
  lemma {:induction false} RunningTotalIsOrderTotal(orderId: Id, reqs: seq<ItemRequest>, itemIds: seq<Id>, latest: Assoc<Id, int>)
    requires |itemIds| == |reqs|
    ensures RunningTotal(reqs, latest) == Reconcile.OrderTotal(CreatedItems(orderId, reqs, itemIds, latest))
  {
    if |reqs| > 0 {
      var n := |reqs| - 1;
      RunningTotalIsOrderTotal(orderId, reqs[..n], itemIds[..n], latest);
      var all := CreatedItems(orderId, reqs, itemIds, latest);
      assert all[..n] == CreatedItems(orderId, reqs[..n], itemIds[..n], latest);
    }
  }

  /** The handler as intended: after the items, the running total is written
      to the order row (a total the column cannot hold fails the request). */
  function CreateOrderPersistingTotal(db: Db, reqs: seq<ItemRequest>, userId: string, orderId: Id, itemIds: seq<Id>, now: int): (r: Reply<OrderWithItems>)
    requires |itemIds| == |reqs|
    ensures r.response.Success? ==>
      var latest := Reconcile.ServerPriceMap(db.prices);
      && r.db.orders == db.orders + [NewOrder(orderId, userId, now).(total := Some(RunningTotal(reqs, latest)))]
      && r.db.items == db.items + CreatedItems(orderId, reqs, itemIds, latest)
      && r.response.value.order.total == Some(Reconcile.OrderTotal(CreatedItems(orderId, reqs, itemIds, latest)))
    ensures r.response.Success? <==>
      CreateOrder(db, reqs, userId, orderId, itemIds, now).response.Success?
      && FitsMoney(RunningTotal(reqs, Reconcile.ServerPriceMap(db.prices)))
  {
    var created := CreateOrder(db, reqs, userId, orderId, itemIds, now);
    match created.response
    case Failure(e) => created
    case Success(placed) =>
      var latest := Reconcile.ServerPriceMap(db.prices);
      var total := RunningTotal(reqs, latest);
      if !FitsMoney(total) then Reply(created.db, Failure(CreateFailed))
      else
        RunningTotalIsOrderTotal(orderId, reqs, itemIds, latest);
        var order := placed.order.(total := Some(total));
        var orders := created.db.orders;
        assert orders[|orders| - 1] == placed.order;
        Reply(created.db.(orders := orders[..|orders| - 1] + [order]), Success(OrderWithItems(order, placed.items)))
  }

  /** Each created item carries its product's latest ledger price, or 0 when
      the product has none. */
  lemma CreatedItemPrice(db: Db, reqs: seq<ItemRequest>, userId: string, orderId: Id, itemIds: seq<Id>, now: int, i: int)
    requires |itemIds| == |reqs|
    requires CreateOrder(db, reqs, userId, orderId, itemIds, now).response.Success?
    requires 0 <= i < |reqs|
    ensures var r := CreateOrder(db, reqs, userId, orderId, itemIds, now);
      var latest := Ledger.LatestPrices(db.prices);
      var item := r.db.items[|db.items| + i];
      && item.productId == reqs[i].productId && item.quantity == reqs[i].quantity
      && (reqs[i].productId in Keys(latest) ==> item.price == Some(Get(latest, reqs[i].productId).value.price))
      && (reqs[i].productId !in Keys(latest) ==> item.price == Some(0))
  {
    Ledger.CurrentPriceIsLatest(db.prices, reqs[i].productId);
  }

  /** The order creation handler stores total 0 however the order is priced:
      one item of a product priced at 30.00, quantity 2, yields a running total
      of 100.00 (fee included) and a stored total of 0; the corrected handler
      stores 100.00. */
  lemma CreateOrderStoresZeroTotal()
    ensures var db := Db({"u"}, [Product("onion", "Onions", "kg", None)], [], [],
                         [PriceObservation("p1", "onion", 3000, 1)], []);
      var reqs := [ItemRequest("onion", 2)];
      var asWritten := CreateOrder(db, reqs, "u", "o1", ["i1"], 5);
      var intended := CreateOrderPersistingTotal(db, reqs, "u", "o1", ["i1"], 5);
      && asWritten.response.Success? && asWritten.db.orders[0].total == Some(0)
      && RunningTotal(reqs, Reconcile.ServerPriceMap(db.prices)) == 10000
      && intended.response.Success? && intended.db.orders[0].total == Some(10000)
  {
    var db := Db({"u"}, [Product("onion", "Onions", "kg", None)], [], [],
                 [PriceObservation("p1", "onion", 3000, 1)], []);
    var reqs := [ItemRequest("onion", 2)];
    assert db.prices[..0] == [];
    assert Ledger.LatestPrices(db.prices) == [("onion", db.prices[0])];
    assert Ledger.LatestList(db.prices) == [db.prices[0]];
    assert Ledger.PricePairs([db.prices[0]]) == [("onion", 3000)];
    assert [("onion", 3000)][..0] == [];
    assert Reconcile.ServerPriceMap(db.prices) == [("onion", 3000)];
    assert reqs[..0] == [];
    assert RunningTotal(reqs, [("onion", 3000)]) == 10000;
    assert Insertable(db.products, reqs[0]);
  }

  // ---------------------------------------------------------------------------
  // POST /api/partner/set-price

  /** Adds the observation, then reconciles every order that is PLACED,
      PROCURING or ON_THE_WAY against the new ledger. There is no positivity
      check: any number the price column accepts is recorded. */
  function SetPrice(db: Db, productId: string, price: string, obsId: Id, now: int): (r: Reply<PriceObservation>)
    ensures productId == "" || price == "" ==>
      r == Reply(db, Failure(HttpError(400, "Product ID and price are required")))
    ensures r.response.Failure? ==> r.db == db
    ensures r.response.Failure? && productId != "" && price != "" ==>
      r.response.error == HttpError(400, "Invalid price data")
    ensures r.response.Success? <==>
      && productId != "" && price != ""
      && DecimalColumn(Decimal.ToString(Decimal.ParseFloat(price))).Some?
      && Aggregates.FindProduct(db.products, productId).Some?
    ensures r.response.Success? ==>
      var obs := r.response.value;
      && obs == PriceObservation(obsId, productId, obs.price, now)
      && Some(obs.price) == DecimalColumn(Decimal.ToString(Decimal.ParseFloat(price)))
      && r.db == Reconcile.ReconcileAll(db.(prices := db.prices + [obs]), Reconcile.OpenOrderIds(db.orders))
  {
    if productId == "" || price == "" then
      Reply(db, Failure(HttpError(400, "Product ID and price are required")))
    else
      match DecimalColumn(Decimal.ToString(Decimal.ParseFloat(price)))
      case None => Reply(db, Failure(HttpError(400, "Invalid price data")))
      case Some(cents) =>
        if Aggregates.FindProduct(db.products, productId).None? then
          Reply(db, Failure(HttpError(400, "Invalid price data")))
        else
          var obs := PriceObservation(obsId, productId, cents, now);
          var db1 := db.(prices := db.prices + [obs]);
          Reply(Reconcile.ReconcileAll(db1, Reconcile.OpenOrderIds(db1.orders)), Success(obs))
  }

  /** The recorded price is the submitted number rounded to the cent, and
      zero or negative prices are recorded like any other. */
  lemma SetPriceRecordsRoundedValue(db: Db, productId: string, price: string, obsId: Id, now: int)
    requires productId != "" && price != ""
    requires Aggregates.FindProduct(db.products, productId).Some?
    requires Decimal.ParseFloat(price).Finite?
    requires FitsMoney(Decimal.RoundToCents(Decimal.ParseFloat(price)))
    ensures var r := SetPrice(db, productId, price, obsId, now);
      r.response.Success? && r.response.value.price == Decimal.RoundToCents(Decimal.ParseFloat(price))
  {
    Schema.StoredNumberIsRounded(Decimal.ParseFloat(price));
  }

  /** A price of "-5" is accepted and recorded as -5.00. */
  lemma NegativePriceAccepted(db: Db, productId: string, obsId: Id, now: int)
    requires productId != ""
    requires Aggregates.FindProduct(db.products, productId).Some?
    ensures var r := SetPrice(db, productId, "-5", obsId, now);
      r.response.Success? && r.response.value.price == -500
  {
    ParseMinusFive();
    assert Decimal.RoundToCents(Decimal.Finite(-5, 0)) == -500;
    SetPriceRecordsRoundedValue(db, productId, "-5", obsId, now);
  }

  lemma ParseMinusFive()
    ensures Decimal.ParseFloat("-5") == Decimal.Finite(-5, 0)
  {
    assert "-5" == "-" + "5";
    assert Decimal.ParseUnsigned("5") == Decimal.Finite(5, 0) by {
      Decimal.ParseDigitsOnly("5");
      assert Decimal.DigitsValue("5") == 5;
    }
    Decimal.ParseLeadingDigit("5");
  }

  /** The pass leaves DELIVERED orders, and their items, as they were. */
  lemma SetPriceFreezesDelivered(db: Db, productId: string, price: string, obsId: Id, now: int, i: int)
    requires Reconcile.UniqueOrderIds(db.orders)
    requires 0 <= i < |db.orders| && db.orders[i].status == Some(Delivered)
    ensures var r := SetPrice(db, productId, price, obsId, now);
      && |r.db.orders| == |db.orders|
      && r.db.orders[i] == db.orders[i]
      && Reconcile.ItemsOf(r.db.items, db.orders[i].id) == Reconcile.ItemsOf(db.items, db.orders[i].id)
  {
    var r := SetPrice(db, productId, price, obsId, now);
    if r.response.Success? {
      FrozenAfterAppend(db, r.response.value, i);
    }
  }

  lemma FrozenAfterAppend(db: Db, obs: PriceObservation, i: int)
    requires Reconcile.UniqueOrderIds(db.orders)
    requires 0 <= i < |db.orders| && db.orders[i].status == Some(Delivered)
    ensures var r := Reconcile.ReconcileAll(db.(prices := db.prices + [obs]), Reconcile.OpenOrderIds(db.orders));
      && |r.orders| == |db.orders|
      && r.orders[i] == db.orders[i]
      && Reconcile.ItemsOf(r.items, db.orders[i].id) == Reconcile.ItemsOf(db.items, db.orders[i].id)
  {
    var db1 := db.(prices := db.prices + [obs]);
    Reconcile.ClosedOrdersFrozen(db1, i);
  }

  // ---------------------------------------------------------------------------
  // POST /api/partner/mark-delivered

  /** Does some order row have this id. */
  predicate OrderExists(orders: seq<Order>, orderId: Id)
  {
    exists i :: 0 <= i < |orders| && orders[i].id == orderId
  }

  /** Sets the status of the order rows with this id. */
  function SetStatus(orders: seq<Order>, orderId: Id, status: Option<OrderStatus>): (r: seq<Order>)
    ensures |r| == |orders|
    ensures forall i :: 0 <= i < |orders| ==>
      r[i] == if orders[i].id == orderId then orders[i].(status := status) else orders[i]
  {
    if |orders| == 0 then []
    else
      var o := orders[0];
      [if o.id == orderId then o.(status := status) else o] + SetStatus(orders[1..], orderId, status)
  }

  /** The payment text written to the column: the parsed number printed
      again, or "0" when none was sent. */
  function PaymentText(paymentReceived: string): string
  {
    if paymentReceived == "" then "0" else Decimal.ToString(Decimal.ParseFloat(paymentReceived))
  }

  const DeliveryFailed: HttpError := HttpError(400, "Failed to mark as delivered")

  /** Records a delivery for the order and sets it DELIVERED. Neither the
      order's current status nor an earlier delivery is looked at. A partner
      id, when sent, must be a user (foreign key). */
  function MarkDelivered(db: Db, orderId: string, paymentReceived: string, partnerId: Option<Id>, deliveryId: Id, now: int): (r: Reply<Delivery>)
    ensures orderId == "" ==> r == Reply(db, Failure(HttpError(400, "Order ID is required")))
    ensures r.response.Failure? ==> r.db == db
    ensures r.response.Failure? && orderId != "" ==> r.response.error == DeliveryFailed
    ensures r.response.Success? <==>
      && orderId != ""
      && DecimalColumn(PaymentText(paymentReceived)).Some?
      && OrderExists(db.orders, orderId)
      && (partnerId.Some? ==> partnerId.value in db.users)
    ensures r.response.Success? ==>
      var d := r.response.value;
      && d == Delivery(deliveryId, orderId, partnerId, Some(now), DecimalColumn(PaymentText(paymentReceived)))
      && r.db == db.(deliveries := db.deliveries + [d], orders := SetStatus(db.orders, orderId, Some(Delivered)))
  {
    if orderId == "" then Reply(db, Failure(HttpError(400, "Order ID is required")))
    else
      match DecimalColumn(PaymentText(paymentReceived))
      case None => Reply(db, Failure(DeliveryFailed))
      case Some(cents) =>
        if !OrderExists(db.orders, orderId) || (partnerId.Some? && partnerId.value !in db.users) then
          Reply(db, Failure(DeliveryFailed))
        else
          var d := Delivery(deliveryId, orderId, partnerId, Some(now), Some(cents));
          Reply(db.(deliveries := db.deliveries + [d], orders := SetStatus(db.orders, orderId, Some(Delivered))), Success(d))
  }

  /** A missing payment is recorded as 0.00, a given one as its value rounded
      to the cent. */
  lemma DeliveryPaymentRecorded(db: Db, orderId: string, paymentReceived: string, partnerId: Option<Id>, deliveryId: Id, now: int)
    requires MarkDelivered(db, orderId, paymentReceived, partnerId, deliveryId, now).response.Success?
    ensures var d := MarkDelivered(db, orderId, paymentReceived, partnerId, deliveryId, now).response.value;
      && (paymentReceived == "" ==> d.paymentReceived == Some(0))
      && (paymentReceived != "" ==>
            && Decimal.ParseFloat(paymentReceived).Finite?
            && d.paymentReceived == Some(Decimal.RoundToCents(Decimal.ParseFloat(paymentReceived))))
  {
    var r := MarkDelivered(db, orderId, paymentReceived, partnerId, deliveryId, now);
    var text := PaymentText(paymentReceived);
    assert r.response.value.paymentReceived == DecimalColumn(text);
    if paymentReceived == "" {
      ParseZero();
      assert DecimalColumn("0") == Some(0);
    } else {
      var x := Decimal.ParseFloat(paymentReceived);
      Schema.StoredNumberIsRounded(x);
    }
  }

  lemma ParseZero()
    ensures Decimal.ParseFloat("0") == Decimal.Finite(0, 0)
  {
    assert Decimal.ParseUnsigned("0") == Decimal.Finite(0, 0) by {
      Decimal.ParseDigitsOnly("0");
      assert Decimal.DigitsValue("0") == 0;
    }
    Decimal.ParseLeadingDigit("0");
  }

  /** Marking delivered twice succeeds twice and leaves two delivery rows for
      the order: nothing prevents a duplicate delivery, and an already
      DELIVERED order is accepted. */
  lemma DuplicateDeliveryAccepted(db: Db, orderId: string, paymentReceived: string, id1: Id, id2: Id, t1: int, t2: int)
    requires MarkDelivered(db, orderId, paymentReceived, None, id1, t1).response.Success?
    ensures var once := MarkDelivered(db, orderId, paymentReceived, None, id1, t1);
      var twice := MarkDelivered(once.db, orderId, paymentReceived, None, id2, t2);
      && twice.response.Success?
      && |twice.db.deliveries| == |db.deliveries| + 2
      && twice.db.deliveries[|db.deliveries|].orderId == orderId
      && twice.db.deliveries[|db.deliveries| + 1].orderId == orderId
  {
    var once := MarkDelivered(db, orderId, paymentReceived, None, id1, t1);
    var i :| 0 <= i < |db.orders| && db.orders[i].id == orderId;
    assert once.db.orders[i].id == orderId;
  }

  // ---------------------------------------------------------------------------
  // PATCH /api/orders/:id/status

  const StatusUpdateFailed: HttpError := HttpError(500, "Failed to update order status")

  /** The `status` field of the request body: absent, JSON `null`, or a
      value (a non-string value reaches the enum cast as its text). */
  datatype StatusField = Missing | Null | Text(text: string)

  /** The status the update writes: none for an absent field (the update
      then has no column to set), NULL for `null`, or the enum label. An
      unknown label fails the enum cast. */
  function StatusToWrite(status: StatusField): Option<Option<OrderStatus>>
  {
    match status
    case Missing => None
    case Null => Some(None)
    case Text(t) =>
      match ParseStatus(t)
      case Some(s) => Some(Some(s))
      case None => None
  }

  /** Stores whatever enum label is sent, and NULL for a `null` status. An
      absent field or a label outside the enum makes the update itself fail,
      so the answer is 500 even for an unknown order; otherwise an unknown
      order answers 404. */
  function PatchStatus(db: Db, orderId: Id, status: StatusField): (r: Reply<Order>)
    ensures r.response.Failure? ==> r.db == db
    ensures status.Missing? || (status.Text? && ParseStatus(status.text).None?) ==>
      r.response == Failure(StatusUpdateFailed)
    ensures r.response.Success? <==>
      (status.Null? || (status.Text? && ParseStatus(status.text).Some?)) && OrderExists(db.orders, orderId)
    ensures (status.Null? || (status.Text? && ParseStatus(status.text).Some?)) && !OrderExists(db.orders, orderId) ==>
      r.response == Failure(HttpError(404, "Order not found"))
    ensures r.response.Success? ==>
      var written := if status.Null? then None else ParseStatus(status.text);
      && r.db == db.(orders := SetStatus(db.orders, orderId, written))
      && r.response.value.id == orderId
      && r.response.value.status == written
  {
    match StatusToWrite(status)
    case None => Reply(db, Failure(StatusUpdateFailed))
    case Some(s) =>
      if !OrderExists(db.orders, orderId) then Reply(db, Failure(HttpError(404, "Order not found")))
      else
        var orders := SetStatus(db.orders, orderId, s);
        var i := FirstWithId(db.orders, orderId);
        Reply(db.(orders := orders), Success(orders[i]))
  }

  /** A `null` status clears the column of an existing order: the order is
      answered with no status, and afterwards it is neither open nor
      delivered. */
  lemma NullStatusClears(db: Db, i: int)
    requires 0 <= i < |db.orders|
    requires Reconcile.UniqueOrderIds(db.orders)
    ensures var r := PatchStatus(db, db.orders[i].id, Null);
      && r.response.Success?
      && r.response.value.status.None?
      && r.db.orders[i].status.None?
      && r.db.orders[i].id !in Reconcile.OpenOrderIds(r.db.orders)
  {
  }

  function FirstWithId(orders: seq<Order>, orderId: Id): (i: int)
    requires OrderExists(orders, orderId)
    ensures 0 <= i < |orders| && orders[i].id == orderId
    ensures forall j :: 0 <= j < i ==> orders[j].id != orderId
  {
    if orders[0].id == orderId then 0
    else
      assert OrderExists(orders[1..], orderId) by {
        var j :| 0 <= j < |orders| && orders[j].id == orderId;
        assert orders[1..][j - 1] == orders[j];
      }
      1 + FirstWithId(orders[1..], orderId)
  }

  /** The PATCH accepts any move between statuses, including moving a
      DELIVERED order back to PLACED. */
  lemma BackwardTransitionAccepted(db: Db, i: int)
    requires 0 <= i < |db.orders| && db.orders[i].status == Some(Delivered)
    requires Reconcile.UniqueOrderIds(db.orders)
    ensures var r := PatchStatus(db, db.orders[i].id, Text("PLACED"));
      r.response.Success? && r.db.orders[i].status == Some(Placed)
  {
  }
}
