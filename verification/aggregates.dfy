/** The partner-side read queries of server/storage.ts: demand per product
    over PLACED orders (`getAggregatedProcurementList`), the product list with
    current price and demand (`getAllProductsWithPrices`), and the earnings
    summary (`getPartnerEarnings`).

    Order and product ids are primary keys, so an item joins at most one order
    row and one product row; the joins below look the row up by key. */
module Aggregates {
  import opened Wrappers
  import opened Assoc
  import opened Schema
  import Decimal
  import Reconcile

  /** Whether some order row with this id has status PLACED. */
  predicate HasPlacedOrder(orders: seq<Order>, orderId: Id)
  {
    exists i :: 0 <= i < |orders| && orders[i].id == orderId && orders[i].status == Some(Placed)
  }

  function FindProduct(products: seq<Product>, productId: Id): (r: Option<Product>)
    ensures r.Some? ==> r.value in products && r.value.id == productId
    ensures r.None? ==> forall p :: p in products ==> p.id != productId
  {
    if |products| == 0 then None
    else if products[0].id == productId then Some(products[0])
    else FindProduct(products[1..], productId)
  }

  /** Items joined with a PLACED order, in table order. */
  function PlacedItems(items: seq<OrderItem>, orders: seq<Order>): (r: seq<OrderItem>)
    ensures forall it :: it in r <==> it in items && HasPlacedOrder(orders, it.orderId)
  {
    if |items| == 0 then []
    else
      var rest := PlacedItems(items[..|items| - 1], orders);
      var it := items[|items| - 1];
      assert items == items[..|items| - 1] + [it];
      if HasPlacedOrder(orders, it.orderId) then rest + [it] else rest
  }

  /** Reference demand: the total quantity of `productId` over all items of
      PLACED orders. */
  function QuantityOf(items: seq<OrderItem>, productId: Id): int
  {
    if |items| == 0 then 0
    else
      var it := items[|items| - 1];
      QuantityOf(items[..|items| - 1], productId) + (if it.productId == productId then it.quantity else 0)
  }

  function PlacedDemand(db: Db, productId: Id): int
  {
    QuantityOf(PlacedItems(db.items, db.orders), productId)
  }

  /** One joined row of the aggregation query. */
  datatype JoinedRow = JoinedRow(productId: Id, productName: string, quantity: int, unit: string)

  /** The aggregation's value per product. */
  datatype Demand = Demand(productName: string, totalQuantity: int, unit: string)

  /** One row of `/api/partner/procurement-list`'s aggregated form. */
  datatype DemandRow = DemandRow(productId: Id, productName: string, totalQuantity: int, unit: string)

  /** The inner join of PLACED items with products. */
  function JoinedRows(items: seq<OrderItem>, products: seq<Product>): (r: seq<JoinedRow>)
    ensures |r| <= |items|
  {
    if |items| == 0 then []
    else
      var rest := JoinedRows(items[..|items| - 1], products);
      var it := items[|items| - 1];
      match FindProduct(products, it.productId)
      case Some(p) => rest + [JoinedRow(it.productId, p.name, it.quantity, p.unit)]
      case None => rest
  }

  function RowQuantity(rows: seq<JoinedRow>, productId: Id): int
  {
    if |rows| == 0 then 0
    else
      var row := rows[|rows| - 1];
      RowQuantity(rows[..|rows| - 1], productId) + (if row.productId == productId then row.quantity else 0)
  }

  predicate HasRow(rows: seq<JoinedRow>, productId: Id)
  {
    exists i :: 0 <= i < |rows| && rows[i].productId == productId
  }

  /** The `forEach` that adds a row's quantity to its product's entry, or
      starts the entry with the row's name and unit. */
  function Aggregate(rows: seq<JoinedRow>): Assoc<Id, Demand>
  {
    if |rows| == 0 then []
    else
      var acc := Aggregate(rows[..|rows| - 1]);
      var row := rows[|rows| - 1];
      match Get(acc, row.productId)
      case Some(e) => Set(acc, row.productId, e.(totalQuantity := e.totalQuantity + row.quantity))
      case None => Set(acc, row.productId, Demand(row.productName, row.quantity, row.unit))
  }

  /** The aggregation has one entry per product that has a row, and that
      entry's quantity is the sum over the product's rows. */
  lemma AggregateCorrect(rows: seq<JoinedRow>)
    ensures UniqueKeys(Aggregate(rows))
    ensures forall k :: Get(Aggregate(rows), k).Some? <==> HasRow(rows, k)
    ensures forall k :: Get(Aggregate(rows), k).Some? ==> Get(Aggregate(rows), k).value.totalQuantity == RowQuantity(rows, k)
  {
    AggregateKeys(rows);
    AggregateQuantities(rows);
  }

  lemma {:induction false} AggregateKeys(rows: seq<JoinedRow>)
    ensures UniqueKeys(Aggregate(rows))
    ensures forall k :: Get(Aggregate(rows), k).Some? <==> HasRow(rows, k)
  {
    if |rows| > 0 {
      var n := |rows| - 1;
      AggregateKeys(rows[..n]);
      HasRowLast(rows);
    }
  }

  lemma {:induction false} AggregateQuantities(rows: seq<JoinedRow>)
    ensures forall k :: Get(Aggregate(rows), k).Some? ==> Get(Aggregate(rows), k).value.totalQuantity == RowQuantity(rows, k)
  {
    if |rows| > 0 {
      var n := |rows| - 1;
      AggregateQuantities(rows[..n]);
      forall k | Get(Aggregate(rows), k).Some?
        ensures Get(Aggregate(rows), k).value.totalQuantity == RowQuantity(rows, k)
      {
        AggregateStepQuantity(rows, k);
      }
    }
  }

  /** One product's quantity after the last row, from its quantity before. */
  lemma AggregateStepQuantity(rows: seq<JoinedRow>, k: Id)
    requires |rows| > 0
    requires var p := Aggregate(rows[..|rows| - 1]);
      Get(p, k).Some? ==> Get(p, k).value.totalQuantity == RowQuantity(rows[..|rows| - 1], k)
    requires Get(Aggregate(rows), k).Some?
    ensures Get(Aggregate(rows), k).value.totalQuantity == RowQuantity(rows, k)
  {
    var n := |rows| - 1;
    if k == rows[n].productId && Get(Aggregate(rows[..n]), k).None? {
      AggregateKeys(rows[..n]);
      RowQuantityAbsent(rows[..n], k);
    }
  }

  /** Whether a product has a row, in terms of all but the last row. */
  lemma HasRowLast(rows: seq<JoinedRow>)
    requires |rows| > 0
    ensures forall k :: HasRow(rows, k) <==> HasRow(rows[..|rows| - 1], k) || rows[|rows| - 1].productId == k
  {
    var n := |rows| - 1;
    assert rows == rows[..n] + [rows[n]];
    forall k
      ensures HasRow(rows, k) <==> HasRow(rows[..n], k) || rows[n].productId == k
    {
      HasRowAppend(rows[..n], rows[n], k);
    }
  }

  lemma {:induction false} RowQuantityAbsent(rows: seq<JoinedRow>, productId: Id)
    requires !HasRow(rows, productId)
    ensures RowQuantity(rows, productId) == 0
  {
    if |rows| > 0 {
      var n := |rows| - 1;
      assert rows == rows[..n] + [rows[n]];
      HasRowAppend(rows[..n], rows[n], productId);
      RowQuantityAbsent(rows[..n], productId);
    }
  }

  function DemandRows(a: Assoc<Id, Demand>): (r: seq<DemandRow>)
    ensures |r| == |a|
    ensures forall i :: 0 <= i < |a| ==>
      r[i] == DemandRow(a[i].0, a[i].1.productName, a[i].1.totalQuantity, a[i].1.unit)
  {
    if |a| == 0 then []
    else [DemandRow(a[0].0, a[0].1.productName, a[0].1.totalQuantity, a[0].1.unit)] + DemandRows(a[1..])
  }

  /** `getAggregatedProcurementList`. */
  function AggregatedProcurementList(db: Db): (r: seq<DemandRow>)
    ensures forall i, j :: 0 <= i < j < |r| ==> r[i].productId != r[j].productId
  {
    var rows := JoinedRows(PlacedItems(db.items, db.orders), db.products);
    AggregateKeys(rows);
    UniqueKeysDistinctAll(Aggregate(rows));
    DemandRows(Aggregate(rows))
  }

  /** Joining with products drops only items of unknown products, so for a
      known product the joined rows carry its whole demand. */
  lemma JoinKeepsKnownProducts(items: seq<OrderItem>, products: seq<Product>, productId: Id)
    requires FindProduct(products, productId).Some?
    ensures RowQuantity(JoinedRows(items, products), productId) == QuantityOf(items, productId)
    ensures HasRow(JoinedRows(items, products), productId) <==> Mentions(items, productId)
  {
    JoinKeepsQuantity(items, products, productId);
    JoinKeepsPresence(items, products, productId);
  }

  lemma {:induction false} JoinKeepsQuantity(items: seq<OrderItem>, products: seq<Product>, productId: Id)
    requires FindProduct(products, productId).Some?
    ensures RowQuantity(JoinedRows(items, products), productId) == QuantityOf(items, productId)
  {
    if |items| > 0 {
      JoinKeepsQuantity(items[..|items| - 1], products, productId);
      JoinStep(items, products, productId);
    }
  }

  lemma {:induction false} JoinKeepsPresence(items: seq<OrderItem>, products: seq<Product>, productId: Id)
    requires FindProduct(products, productId).Some?
    ensures HasRow(JoinedRows(items, products), productId) <==> Mentions(items, productId)
  {
    if |items| > 0 {
      JoinKeepsPresence(items[..|items| - 1], products, productId);
      JoinStep(items, products, productId);
      MentionsLast(items, productId);
    }
  }

  /** Some item is for this product. */
  predicate Mentions(items: seq<OrderItem>, productId: Id)
  {
    exists it :: it in items && it.productId == productId
  }

  lemma MentionsAppend(items: seq<OrderItem>, x: OrderItem, productId: Id)
    ensures Mentions(items + [x], productId) <==> Mentions(items, productId) || x.productId == productId
  {
    if Mentions(items + [x], productId) && x.productId != productId {
      var it :| it in items + [x] && it.productId == productId;
      assert it in items;
    }
    if Mentions(items, productId) {
      var it :| it in items && it.productId == productId;
      assert it in items + [x];
    }
    if x.productId == productId {
      assert x in items + [x];
    }
  }

  lemma MentionsLast(items: seq<OrderItem>, productId: Id)
    requires |items| > 0
    ensures Mentions(items, productId) <==>
      Mentions(items[..|items| - 1], productId) || items[|items| - 1].productId == productId
  {
    var n := |items| - 1;
    assert items == items[..n] + [items[n]];
    MentionsAppend(items[..n], items[n], productId);
  }

  /** One step of the join: the last item adds a row, when its product is
      known. */
  lemma JoinStep(items: seq<OrderItem>, products: seq<Product>, productId: Id)
    requires |items| > 0
    requires FindProduct(products, productId).Some?
    ensures var n := |items| - 1;
      var it := items[n];
      var rows := JoinedRows(items, products);
      var prev := JoinedRows(items[..n], products);
      && RowQuantity(rows, productId) == RowQuantity(prev, productId) + (if it.productId == productId then it.quantity else 0)
      && (HasRow(rows, productId) <==> HasRow(prev, productId) || it.productId == productId)
  {
    var n := |items| - 1;
    var it := items[n];
    var rows := JoinedRows(items, products);
    var prev := JoinedRows(items[..n], products);
    match FindProduct(products, it.productId)
    case Some(p) =>
      var row := JoinedRow(it.productId, p.name, it.quantity, p.unit);
      assert rows == prev + [row];
      assert rows[..|rows| - 1] == prev;
      HasRowAppend(prev, row, productId);
    case None =>
      assert rows == prev;
      assert it.productId != productId;
  }

  lemma HasRowAppend(rows: seq<JoinedRow>, row: JoinedRow, productId: Id)
    ensures HasRow(rows + [row], productId) <==> HasRow(rows, productId) || row.productId == productId
  {
    if HasRow(rows + [row], productId) && row.productId != productId {
      var i :| 0 <= i < |rows + [row]| && (rows + [row])[i].productId == productId;
      assert rows[i] == (rows + [row])[i];
    }
    if HasRow(rows, productId) {
      var i :| 0 <= i < |rows| && rows[i].productId == productId;
      assert (rows + [row])[i] == rows[i];
    }
    if row.productId == productId {
      assert (rows + [row])[|rows|] == row;
    }
  }

  /** The aggregated list has one row per product that has demand from a
      PLACED order, and that row's quantity is the product's whole demand. */
  lemma AggregatedListIsPlacedDemand(db: Db, productId: Id)
    requires FindProduct(db.products, productId).Some?
    ensures var a := Aggregate(JoinedRows(PlacedItems(db.items, db.orders), db.products));
      && (Get(a, productId).Some? <==>
            exists it :: it in db.items && it.productId == productId && HasPlacedOrder(db.orders, it.orderId))
      && (Get(a, productId).Some? ==> Get(a, productId).value.totalQuantity == PlacedDemand(db, productId))
  {
    var placed := PlacedItems(db.items, db.orders);
    JoinKeepsKnownProducts(placed, db.products, productId);
    AggregateCorrect(JoinedRows(placed, db.products));
  }

  // ---------------------------------------------------------------------------
  // Products with prices

  /** The quantity map: each PLACED item's quantity added to its product's
      running total, a missing entry counting as 0. */
  function QuantityMap(items: seq<OrderItem>): (r: Assoc<Id, int>)
    ensures forall k :: Get(r, k).GetOr(0) == QuantityOf(items, k)
  {
    if |items| == 0 then []
    else
      var acc := QuantityMap(items[..|items| - 1]);
      var it := items[|items| - 1];
      Set(acc, it.productId, Get(acc, it.productId).GetOr(0) + it.quantity)
  }

  datatype ProductRow = ProductRow(productId: Id, productName: string, unit: string,
                                   currentPrice: Option<int>, totalQuantityNeeded: int)

  /** `getAllProductsWithPrices`: one row per product, in table order, with
      the product's current price (absent when never priced) and its demand
      from PLACED orders (0 when none). */
  function AllProductsWithPrices(db: Db): (r: seq<ProductRow>)
    ensures |r| == |db.products|
    ensures forall i :: 0 <= i < |r| ==>
      && r[i].productId == db.products[i].id
      && r[i].productName == db.products[i].name
      && r[i].unit == db.products[i].unit
      && r[i].currentPrice == Get(Reconcile.ServerPriceMap(db.prices), db.products[i].id)
      && r[i].totalQuantityNeeded == PlacedDemand(db, db.products[i].id)
  {
    ProductRows(db.products, Reconcile.ServerPriceMap(db.prices), QuantityMap(PlacedItems(db.items, db.orders)))
  }

  function ProductRows(products: seq<Product>, priceMap: Assoc<Id, int>, quantityMap: Assoc<Id, int>): (r: seq<ProductRow>)
    ensures |r| == |products|
    ensures forall i :: 0 <= i < |r| ==>
      r[i] == ProductRow(products[i].id, products[i].name, products[i].unit,
                         Get(priceMap, products[i].id), Get(quantityMap, products[i].id).GetOr(0))
  {
    if |products| == 0 then []
    else
      var p := products[0];
      [ProductRow(p.id, p.name, p.unit, Get(priceMap, p.id), Get(quantityMap, p.id).GetOr(0))]
        + ProductRows(products[1..], priceMap, quantityMap)
  }

  /** The two partner views agree: a product listed in the aggregated list
      needs exactly the quantity shown there, and a product missing from it
      needs none. */
  lemma ProductViewsAgree(db: Db, i: int)
    requires 0 <= i < |db.products|
    ensures var pid := db.products[i].id;
      var a := Aggregate(JoinedRows(PlacedItems(db.items, db.orders), db.products));
      var row := AllProductsWithPrices(db)[i];
      && (Get(a, pid).Some? ==> row.totalQuantityNeeded == Get(a, pid).value.totalQuantity)
      && (Get(a, pid).None? ==> row.totalQuantityNeeded == 0)
  {
    var pid := db.products[i].id;
    assert FindProduct(db.products, pid).Some? by {
      FindProductFinds(db.products, i);
    }
    AggregatedListIsPlacedDemand(db, pid);
    var placed := PlacedItems(db.items, db.orders);
    if Get(Aggregate(JoinedRows(placed, db.products)), pid).None? {
      assert forall it :: it in placed ==> it.productId != pid;
      QuantityOfAbsent(placed, pid);
    }
  }

  lemma {:induction false} FindProductFinds(products: seq<Product>, i: int)
    requires 0 <= i < |products|
    ensures FindProduct(products, products[i].id).Some?
  {
    if i > 0 && products[0].id != products[i].id {
      FindProductFinds(products[1..], i - 1);
    }
  }

  lemma {:induction false} QuantityOfAbsent(items: seq<OrderItem>, productId: Id)
    requires forall it :: it in items ==> it.productId != productId
    ensures QuantityOf(items, productId) == 0
  {
    if |items| > 0 {
      var n := |items| - 1;
      assert forall it :: it in items[..n] ==> it in items;
      QuantityOfAbsent(items[..n], productId);
    }
  }

  // ---------------------------------------------------------------------------
  // Earnings

  datatype Earnings = Earnings(totalDeliveries: nat, totalEarnings: int)

  function PaymentSum(deliveries: seq<Delivery>): int
  {
    if |deliveries| == 0 then 0
    else PaymentSum(deliveries[..|deliveries| - 1]) + deliveries[|deliveries| - 1].paymentReceived.GetOr(0)
  }

  /** `getPartnerEarnings(partnerId)`: the number of delivery rows and a tenth
      of all payments (a null payment counting as 0), rounded to the cent with
      ties going up. The partner id is accepted and not used. */
  function PartnerEarnings(deliveries: seq<Delivery>, partnerId: Option<Id>): (r: Earnings)
    ensures r.totalDeliveries == |deliveries|
    ensures -10 <= 2 * (PaymentSum(deliveries) - 10 * r.totalEarnings) < 10
  {
    Earnings(|deliveries|, Decimal.RoundHalfUp(PaymentSum(deliveries), 10))
  }

  /** Every partner sees the same figures: another partner's deliveries count. */
  lemma EarningsIgnorePartner(deliveries: seq<Delivery>, a: Option<Id>, b: Option<Id>)
    ensures PartnerEarnings(deliveries, a) == PartnerEarnings(deliveries, b)
  {
  }

  /** Payments of 100.00 and 50.00 (one by someone else, one unpaid row) earn
      15.00 over three deliveries. */
  lemma EarningsExample()
    ensures PartnerEarnings([Delivery("d1", "o1", Some("p1"), Some(1), Some(10000)),
                             Delivery("d2", "o2", Some("p2"), Some(2), Some(5000)),
                             Delivery("d3", "o3", None, None, None)], Some("p1"))
            == Earnings(3, 1500)
  {
    var ds := [Delivery("d1", "o1", Some("p1"), Some(1), Some(10000)),
               Delivery("d2", "o2", Some("p2"), Some(2), Some(5000)),
               Delivery("d3", "o3", None, None, None)];
    assert ds[..2] == [ds[0], ds[1]];
    assert ds[..2][..1] == [ds[0]];
    assert PaymentSum(ds[..1]) == 10000;
    assert PaymentSum(ds[..2]) == 15000;
  }
}
