/** The partner's delivery screen (client/src/components/partner/delivery-management.tsx):
    the orders still to deliver, the payment typed per order, and what the
    "mark delivered" button sends. */
module DeliveryManagement {
  import opened Wrappers
  import opened Assoc
  import opened Schema
  import Decimal
  import Routes
  import AmountInput

  /** `activeOrders`: every order not DELIVERED, in list order; an order
      without a status counts as active. */
  function ActiveOrders(orders: seq<OrderWithItems>): (r: seq<OrderWithItems>)
    ensures |r| <= |orders|
    ensures forall o :: o in r <==> o in orders && o.order.status != Some(Delivered)
  {
    if |orders| == 0 then []
    else
      var rest := ActiveOrders(orders[1..]);
      assert forall o :: o in orders <==> o == orders[0] || o in orders[1..];
      if orders[0].order.status != Some(Delivered) then [orders[0]] + rest else rest
  }

  /** Filtering a concatenation filters each part. */
  lemma {:induction false} ActiveOrdersAppend(a: seq<OrderWithItems>, b: seq<OrderWithItems>)
    ensures ActiveOrders(a + b) == ActiveOrders(a) + ActiveOrders(b)
  {
    if |a| > 0 {
      var c := a + b;
      assert c[0] == a[0];
      assert c[1..] == a[1..] + b;
      ActiveOrdersAppend(a[1..], b);
      var head := if a[0].order.status != Some(Delivered) then [a[0]] else [];
      assert ActiveOrders(c) == head + ActiveOrders(c[1..]);
      assert ActiveOrders(a) == head + ActiveOrders(a[1..]);
      assert head + (ActiveOrders(a[1..]) + ActiveOrders(b)) == (head + ActiveOrders(a[1..])) + ActiveOrders(b);
    } else {
      assert a + b == b;
    }
  }

  /** What pressing "mark delivered" does. */
  datatype Submission = Refused | Submit(orderId: Id, paymentReceived: string)

  /** `handleMarkDelivered` followed by the mutation: the amount typed for
      the order (`paymentAmounts`) is refused or re-printed and sent. */
  function HandleMarkDelivered(amounts: AmountInput.Inputs, orderId: Id): (r: Submission)
    ensures r.Refused? <==> AmountInput.Refuses(Get(amounts, orderId))
    ensures r.Submit? ==> r.orderId == orderId && Some(r.paymentReceived) == AmountInput.Submitted(Get(amounts, orderId))
  {
    match AmountInput.Submitted(Get(amounts, orderId))
    case None => Refused
    case Some(text) => Submit(orderId, text)
  }

  /** Round trip through the screen and the server: the server accepts a
      submitted payment exactly when the order exists, the partner (if any)
      is a user and the amount fits the column, and it then stores the typed
      amount rounded to the cent, never a negative one. */
  lemma SubmittedPaymentRecorded(db: Db, amounts: AmountInput.Inputs, orderId: Id, partnerId: Option<Id>, deliveryId: Id, now: int)
    requires HandleMarkDelivered(amounts, orderId).Submit?
    requires Decimal.ParseFloat(Get(amounts, orderId).value).Finite?
    ensures var s := HandleMarkDelivered(amounts, orderId);
      var r := Routes.MarkDelivered(db, orderId, s.paymentReceived, partnerId, deliveryId, now);
      var x := Decimal.ParseFloat(Get(amounts, orderId).value);
      && (r.response.Success? <==>
            orderId != "" && FitsMoney(Decimal.RoundToCents(x)) && Routes.OrderExists(db.orders, orderId)
            && (partnerId.Some? ==> partnerId.value in db.users))
      && (r.response.Success? ==> r.response.value.paymentReceived == Some(Decimal.RoundToCents(x)))
      && Decimal.RoundToCents(x) >= 0
  {
    var text := Get(amounts, orderId).value;
    var x := Decimal.ParseFloat(text);
    var c := Decimal.RoundToCents(x);
    AmountInput.SubmittedAmountStored(text);
    var sent := HandleMarkDelivered(amounts, orderId).paymentReceived;
    assert sent == AmountInput.Submitted(Some(text)).value;
    assert DecimalColumn(sent) == (if FitsMoney(c) then Some(c) else None);
    assert Routes.PaymentText(sent) == sent;
  }

  /** A payment of "0.001" passes the screen's check and is recorded as 0.00. */
  lemma TinyPaymentRecordedAsZero(db: Db, orderId: Id, deliveryId: Id, now: int)
    requires orderId != "" && Routes.OrderExists(db.orders, orderId)
    ensures var s := HandleMarkDelivered([(orderId, "0.001")], orderId);
      && s.Submit?
      && var r := Routes.MarkDelivered(db, orderId, s.paymentReceived, None, deliveryId, now);
      && r.response.Success?
      && r.response.value.paymentReceived == Some(0)
  {
    var amounts: AmountInput.Inputs := [(orderId, "0.001")];
    assert Get(amounts, orderId) == Some("0.001");
    AmountInput.TinyAmountStoredAsZero();
    AmountInput.ParseTiny();
    AmountInput.RoundTiny();
    SubmittedPaymentRecorded(db, amounts, orderId, None, deliveryId, now);
  }

  /** `getStatusBadgeClass`. */
  const OnTheWayBadge := "bg-orange-100 text-orange-800"
  const ProcuringBadge := "bg-yellow-100 text-yellow-800"
  const PlacedBadge := "bg-blue-100 text-blue-800"
  const DefaultBadge := "bg-gray-100 text-gray-800"

  function BadgeClass(name: string): string
  {
    if name == "ON_THE_WAY" then OnTheWayBadge
    else if name == "PROCURING" then ProcuringBadge
    else if name == "PLACED" then PlacedBadge
    else DefaultBadge
  }

  /** The badge drawn for an order, called with `order.status || 'PLACED'`. */
  function OrderBadge(status: Option<OrderStatus>): string
  {
    BadgeClass(StatusName(status.GetOr(Placed)))
  }

  /** Every status the screen can list gets its own colour: the grey default
      is drawn exactly for DELIVERED, which the active list never holds. */
  lemma BadgeDistinguishesStatuses(s: Option<OrderStatus>, t: Option<OrderStatus>)
    ensures OrderBadge(s) == DefaultBadge <==> s == Some(Delivered)
    ensures OrderBadge(s) == OrderBadge(t) <==> s.GetOr(Placed) == t.GetOr(Placed)
  {
  }

  /** No order on the active list is drawn with the grey badge. */
  lemma ActiveOrdersColoured(orders: seq<OrderWithItems>, i: int)
    requires 0 <= i < |ActiveOrders(orders)|
    ensures OrderBadge(ActiveOrders(orders)[i].order.status) != DefaultBadge
  {
    assert ActiveOrders(orders)[i] in ActiveOrders(orders);
    BadgeDistinguishesStatuses(ActiveOrders(orders)[i].order.status, None);
  }
}
