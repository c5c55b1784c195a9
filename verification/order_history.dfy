/** The vendor's order history card (client/src/components/vendor/order-history.tsx):
    the market total shown next to what was paid, the newest-first list of at
    most ten orders, and the reorder action. */
module OrderHistory {
  import opened Wrappers
  import opened Assoc
  import opened Schema
  import Ledger
  import Reconcile
  import Routes

  /** `calculateMarketTotal`: the fee plus each item's quantity at today's
      price, an unpriced product (or a price of 0) counting as 0. */
  function MarketTotal(items: seq<OrderItem>, latest: seq<PriceObservation>): (t: int)
    ensures |items| == 0 ==> t == Reconcile.ConvenienceFee
    ensures |items| == 1 ==>
      t == Reconcile.ConvenienceFee + Get(Ledger.PriceMap(latest), items[0].productId).GetOr(0) * items[0].quantity
  {
    var m := Ledger.PriceMap(latest);
    assert |items| == 1 ==> MarketLines(items, m) == MarketLines(items[..0], m) + Get(m, items[0].productId).GetOr(0) * items[0].quantity;
    Reconcile.ConvenienceFee + MarketLines(items, m)
  }

  function MarketLines(items: seq<OrderItem>, priceMap: Assoc<Id, int>): int
  {
    if |items| == 0 then 0
    else MarketLines(items[..|items| - 1], priceMap)
         + Get(priceMap, items[|items| - 1].productId).GetOr(0) * items[|items| - 1].quantity
  }

  /** The market total of two item lists together charges the fee once. */
  lemma {:induction false} MarketTotalAppend(a: seq<OrderItem>, b: seq<OrderItem>, latest: seq<PriceObservation>)
    ensures MarketTotal(a + b, latest) == MarketTotal(a, latest) + MarketTotal(b, latest) - Reconcile.ConvenienceFee
  {
    MarketLinesAppend(a, b, Ledger.PriceMap(latest));
  }

  lemma {:induction false} MarketLinesAppend(a: seq<OrderItem>, b: seq<OrderItem>, m: Assoc<Id, int>)
    ensures MarketLines(a + b, m) == MarketLines(a, m) + MarketLines(b, m)
  {
    if |b| > 0 {
      var n := |b| - 1;
      MarketLinesAppend(a, b[..n], m);
      assert (a + b)[..|a + b| - 1] == a + b[..n];
    } else {
      assert a + b == a;
    }
  }

  /** An item whose product has no current price adds nothing. */
  lemma UnpricedItemAddsNothing(items: seq<OrderItem>, item: OrderItem, latest: seq<PriceObservation>)
    requires Get(Ledger.PriceMap(latest), item.productId).None?
    ensures MarketTotal(items + [item], latest) == MarketTotal(items, latest)
  {
    assert (items + [item])[..|items|] == items;
  }

  // ---------------------------------------------------------------------------
  // Newest first, at most ten

  /** `new Date(createdAt!).getTime()`: a missing timestamp reads as 0. */
  function CreatedKey(o: OrderWithItems): int
  {
    o.order.createdAt.GetOr(0)
  }

  predicate NewestFirst(s: seq<OrderWithItems>)
  {
    forall i, j :: 0 <= i < j < |s| ==> CreatedKey(s[i]) >= CreatedKey(s[j])
  }

  /** The orders whose timestamp is `k`, in sequence order. */
  function WithKey(s: seq<OrderWithItems>, k: int): seq<OrderWithItems>
  {
    if |s| == 0 then []
    else WithKey(s[..|s| - 1], k) + (if CreatedKey(s[|s| - 1]) == k then [s[|s| - 1]] else [])
  }

  /** Inserts `x` into a newest-first list after every order at least as new,
      so orders with equal timestamps keep their relative order. */
  function Insert(sorted: seq<OrderWithItems>, x: OrderWithItems): (r: seq<OrderWithItems>)
    ensures |r| == |sorted| + 1
  {
    if |sorted| == 0 then [x]
    else
      var n := |sorted| - 1;
      if CreatedKey(sorted[n]) >= CreatedKey(x) then sorted + [x]
      else Insert(sorted[..n], x) + [sorted[n]]
  }

  /** Insertion adds `x` and loses nothing. */
  lemma {:induction false} InsertPermutes(sorted: seq<OrderWithItems>, x: OrderWithItems)
    ensures multiset(Insert(sorted, x)) == multiset(sorted) + multiset{x}
  {
    if |sorted| > 0 {
      var n := |sorted| - 1;
      if CreatedKey(sorted[n]) < CreatedKey(x) {
        InsertPermutes(sorted[..n], x);
        InsertBeforeLast(sorted, x);
        BeforeLastPermutes(sorted, Insert(sorted[..n], x), x);
      } else {
        InsertAtEnd(sorted, x);
      }
    }
  }

  lemma InsertBeforeLast(sorted: seq<OrderWithItems>, x: OrderWithItems)
    requires |sorted| > 0 && CreatedKey(sorted[|sorted| - 1]) < CreatedKey(x)
    ensures Insert(sorted, x) == Insert(sorted[..|sorted| - 1], x) + [sorted[|sorted| - 1]]
  {
  }

  lemma BeforeLastPermutes(sorted: seq<OrderWithItems>, front: seq<OrderWithItems>, x: OrderWithItems)
    requires |sorted| > 0
    requires multiset(front) == multiset(sorted[..|sorted| - 1]) + multiset{x}
    ensures multiset(front + [sorted[|sorted| - 1]]) == multiset(sorted) + multiset{x}
  {
    var n := |sorted| - 1;
    var last := sorted[n];
    assert multiset(front + [last]) == multiset(front) + multiset{last};
    assert sorted == sorted[..n] + [last];
    assert multiset(sorted) == multiset(sorted[..n]) + multiset{last};
    AddTwo(multiset(sorted[..n]), x, last);
  }

  lemma InsertAtEnd(sorted: seq<OrderWithItems>, x: OrderWithItems)
    requires |sorted| > 0 && CreatedKey(sorted[|sorted| - 1]) >= CreatedKey(x)
    ensures multiset(Insert(sorted, x)) == multiset(sorted) + multiset{x}
  {
    assert Insert(sorted, x) == sorted + [x];
  }

  lemma AddTwo<T>(a: multiset<T>, x: T, y: T)
    ensures (a + multiset{x}) + multiset{y} == (a + multiset{y}) + multiset{x}
  {
  }

  /** A lower bound on timestamps survives rearranging the list. */
  lemma NoOlderThan(s: seq<OrderWithItems>, t: seq<OrderWithItems>, x: OrderWithItems, bound: int)
    requires multiset(t) == multiset(s) + multiset{x}
    requires CreatedKey(x) >= bound
    requires forall i :: 0 <= i < |s| ==> CreatedKey(s[i]) >= bound
    ensures forall i :: 0 <= i < |t| ==> CreatedKey(t[i]) >= bound
  {
    forall i | 0 <= i < |t| ensures CreatedKey(t[i]) >= bound {
      assert t[i] in multiset(t);
      if t[i] != x {
        assert t[i] in multiset(s);
      }
    }
  }

  /** Insertion keeps a newest-first list newest-first. */
  lemma {:induction false} InsertNewestFirst(sorted: seq<OrderWithItems>, x: OrderWithItems)
    requires NewestFirst(sorted)
    ensures NewestFirst(Insert(sorted, x))
  {
    if |sorted| > 0 {
      var n := |sorted| - 1;
      var last := sorted[n];
      if CreatedKey(last) < CreatedKey(x) {
        var front := Insert(sorted[..n], x);
        InsertPermutes(sorted[..n], x);
        InsertNewestFirst(sorted[..n], x);
        NoOlderThan(sorted[..n], front, x, CreatedKey(last));
        assert Insert(sorted, x) == front + [last];
        AppendOldest(front, last);
      } else {
        assert forall i :: 0 <= i < |sorted| ==> CreatedKey(sorted[i]) >= CreatedKey(last);
        AppendOldest(sorted, x);
      }
    }
  }

  /** An order no newer than any in a newest-first list may go at its end. */
  lemma AppendOldest(s: seq<OrderWithItems>, y: OrderWithItems)
    requires NewestFirst(s)
    requires forall i :: 0 <= i < |s| ==> CreatedKey(s[i]) >= CreatedKey(y)
    ensures NewestFirst(s + [y])
  {
    var t := s + [y];
    forall i, j | 0 <= i < j < |t|
      ensures CreatedKey(t[i]) >= CreatedKey(t[j])
    {
      assert t[i] == s[i];
      if j < |s| {
        assert t[j] == s[j];
      }
    }
  }

  /** Insertion is stable: among orders with timestamp `k`, `x` comes last
      and the others keep their order. */
  lemma {:induction false} InsertWithKey(sorted: seq<OrderWithItems>, x: OrderWithItems, k: int)
    ensures WithKey(Insert(sorted, x), k) == WithKey(sorted, k) + (if CreatedKey(x) == k then [x] else [])
  {
    if |sorted| == 0 {
      assert [x][..0] == [];
    } else {
      var n := |sorted| - 1;
      var last := sorted[n];
      if CreatedKey(last) >= CreatedKey(x) {
        var r := sorted + [x];
        assert r[..|r| - 1] == sorted;
      } else {
        var front := Insert(sorted[..n], x);
        var r := front + [last];
        assert r[..|r| - 1] == front;
        InsertWithKey(sorted[..n], x, k);
      }
    }
  }

  /** The `sort` with comparator `b.createdAt - a.createdAt`; JavaScript's
      sort is stable. */
  function SortNewestFirst(s: seq<OrderWithItems>): (r: seq<OrderWithItems>)
    ensures multiset(r) == multiset(s)
  {
    if |s| == 0 then []
    else
      var n := |s| - 1;
      assert s == s[..n] + [s[n]];
      InsertPermutes(SortNewestFirst(s[..n]), s[n]);
      Insert(SortNewestFirst(s[..n]), s[n])
  }

  /** The sort orders newest first and keeps orders with equal timestamps in
      their original order. */
  lemma {:induction false} SortIsStable(s: seq<OrderWithItems>)
    ensures NewestFirst(SortNewestFirst(s))
    ensures forall k :: WithKey(SortNewestFirst(s), k) == WithKey(s, k)
  {
    if |s| > 0 {
      var n := |s| - 1;
      SortIsStable(s[..n]);
      InsertNewestFirst(SortNewestFirst(s[..n]), s[n]);
      forall k ensures WithKey(SortNewestFirst(s), k) == WithKey(s, k) {
        InsertWithKey(SortNewestFirst(s[..n]), s[n], k);
      }
    }
  }

  /** `previousOrders`: the newest ten. */
  function PreviousOrders(orders: seq<OrderWithItems>): (r: seq<OrderWithItems>)
    ensures |r| == if |orders| < 10 then |orders| else 10
    ensures NewestFirst(r)
    ensures forall o :: o in r ==> o in orders
    ensures forall o :: o in orders && o !in r ==> forall i :: 0 <= i < |r| ==> CreatedKey(r[i]) >= CreatedKey(o)
  {
    var sorted := SortNewestFirst(orders);
    SortIsStable(orders);
    assert |sorted| == |orders| by {
      assert |multiset(sorted)| == |multiset(orders)|;
    }
    var k := if |sorted| < 10 then |sorted| else 10;
    NewestPrefix(sorted, orders, k);
    sorted[..k]
  }

  /** The first `k` orders of a newest-first rearrangement of `orders` come
      from `orders`, and none of the rest is newer than any of them. */
  lemma NewestPrefix(sorted: seq<OrderWithItems>, orders: seq<OrderWithItems>, k: nat)
    requires multiset(sorted) == multiset(orders) && NewestFirst(sorted) && k <= |sorted|
    ensures NewestFirst(sorted[..k])
    ensures forall o :: o in sorted[..k] ==> o in orders
    ensures forall o :: o in orders && o !in sorted[..k] ==>
      forall i :: 0 <= i < k ==> CreatedKey(sorted[..k][i]) >= CreatedKey(o)
  {
    var r := sorted[..k];
    forall o | o in r ensures o in orders {
      assert o in multiset(sorted);
    }
    forall o | o in orders && o !in r
      ensures forall i :: 0 <= i < k ==> CreatedKey(r[i]) >= CreatedKey(o)
    {
      assert o in multiset(sorted);
      var p :| 0 <= p < |sorted| && sorted[p] == o;
      assert p >= k;
    }
  }

  // ---------------------------------------------------------------------------
  // Reorder

  /** `handleReorder`: the order's (product, quantity) pairs, in item order. */
  function ReorderItems(order: OrderWithItems): (r: seq<Routes.ItemRequest>)
    ensures |r| == |order.items|
    ensures forall i :: 0 <= i < |r| ==>
      r[i].productId == order.items[i].productId && r[i].quantity == order.items[i].quantity
  {
    Requests(order.items)
  }

  function Requests(items: seq<OrderItem>): (r: seq<Routes.ItemRequest>)
    ensures |r| == |items|
    ensures forall i :: 0 <= i < |r| ==>
      r[i].productId == items[i].productId && r[i].quantity == items[i].quantity
  {
    if |items| == 0 then []
    else [Routes.ItemRequest(items[0].productId, items[0].quantity)] + Requests(items[1..])
  }

  /** The reorder button: shown for DELIVERED orders only, and pressing it
      submits the order's lines. */
  function Reorder(order: OrderWithItems): (r: Option<seq<Routes.ItemRequest>>)
    ensures r.Some? <==> order.order.status == Some(Delivered)
    ensures r.Some? ==> |r.value| == |order.items| && forall i :: 0 <= i < |r.value| ==>
      r.value[i].productId == order.items[i].productId && r.value[i].quantity == order.items[i].quantity
  {
    if order.order.status == Some(Delivered) then Some(ReorderItems(order)) else None
  }

  /** A reorder that the server accepts recreates the original lines: same
      products, same quantities, same order, each at today's price. */
  lemma ReorderRecreatesLines(db: Db, order: OrderWithItems, userId: string, orderId: Id, itemIds: seq<Id>, now: int, i: int)
    requires |itemIds| == |order.items|
    requires Routes.CreateOrder(db, ReorderItems(order), userId, orderId, itemIds, now).response.Success?
    requires 0 <= i < |order.items|
    ensures var r := Routes.CreateOrder(db, ReorderItems(order), userId, orderId, itemIds, now);
      && |r.db.items| == |db.items| + |order.items|
      && r.db.items[|db.items| + i].productId == order.items[i].productId
      && r.db.items[|db.items| + i].quantity == order.items[i].quantity
  {
    var reqs := ReorderItems(order);
    var r := Routes.CreateOrder(db, reqs, userId, orderId, itemIds, now);
    var created := Routes.CreatedItems(orderId, reqs, itemIds, Reconcile.ServerPriceMap(db.prices));
    assert r.db.items == db.items + created;
    assert r.db.items[|db.items| + i] == created[i];
    assert created[i].productId == reqs[i].productId && created[i].quantity == reqs[i].quantity;
  }
}
