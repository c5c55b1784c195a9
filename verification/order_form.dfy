/** The vendor's order form (client/src/components/vendor/order-form.tsx):
    per-product quantities adjusted with the +/- buttons, and the items array
    the form submits. */
module OrderForm {
  import opened Wrappers
  import opened Assoc
  import opened Schema
  import Routes

  /** The `quantities` record, product id to count, in key-insertion order. */
  type Quantities = Assoc<Id, int>

  ghost predicate NonNegative(q: Quantities)
  {
    forall k :: k in Keys(q) ==> Get(q, k).value >= 0
  }

  /** `updateQuantity`: a missing entry counts as 0 and the new count never
      drops below 0. */
  function UpdateQuantity(q: Quantities, productId: Id, change: int): (r: Quantities)
    ensures Get(r, productId).Some? && Get(r, productId).value >= 0
    ensures Get(q, productId).GetOr(0) + change >= 0 ==>
      Get(r, productId).value == Get(q, productId).GetOr(0) + change
    ensures Get(q, productId).GetOr(0) + change < 0 ==> Get(r, productId) == Some(0)
    ensures forall k :: k != productId ==> Get(r, k) == Get(q, k)
    ensures NonNegative(q) ==> NonNegative(r)
    ensures UniqueKeys(q) ==> UniqueKeys(r)
  {
    var current := Get(q, productId).GetOr(0);
    Set(q, productId, if current + change > 0 then current + change else 0)
  }

  /** A "+" followed by a "-" leaves the count as it was. */
  lemma IncrementThenDecrement(q: Quantities, productId: Id)
    requires NonNegative(q)
    ensures Get(UpdateQuantity(UpdateQuantity(q, productId, 1), productId, -1), productId).value
      == Get(q, productId).GetOr(0)
  {
    if productId in Keys(q) {
      assert Get(q, productId).value >= 0;
    }
  }

  /** A "-" on a product at 0 keeps it at 0. */
  lemma DecrementAtZero(q: Quantities, productId: Id)
    requires Get(q, productId).GetOr(0) == 0
    ensures Get(UpdateQuantity(q, productId, -1), productId) == Some(0)
  {
  }

  /** `handlePlaceOrder`'s items: the entries with a positive count, as
      `{productId, quantity}` in the record's key order. */
  function PlaceOrderItems(q: Quantities): (r: seq<Routes.ItemRequest>)
    ensures forall i :: 0 <= i < |r| ==> r[i].quantity > 0 && (r[i].productId, r[i].quantity) in q
    ensures forall i :: 0 <= i < |q| && q[i].1 > 0 ==> Routes.ItemRequest(q[i].0, q[i].1) in r
  {
    if |q| == 0 then []
    else
      var rest := PlaceOrderItems(q[1..]);
      assert forall i :: 1 <= i < |q| ==> q[i] == q[1..][i - 1];
      if q[0].1 > 0 then [Routes.ItemRequest(q[0].0, q[0].1)] + rest else rest
  }

  /** The filter and map work entry by entry: the items of two records laid
      end to end are the items of the first followed by those of the second. */
  lemma {:induction false} PlaceOrderItemsAppend(a: Quantities, b: Quantities)
    ensures PlaceOrderItems(a + b) == PlaceOrderItems(a) + PlaceOrderItems(b)
  {
    if |a| > 0 {
      assert (a + b)[0] == a[0];
      assert (a + b)[1..] == a[1..] + b;
      PlaceOrderItemsAppend(a[1..], b);
    } else {
      assert a + b == b;
    }
  }

  /** A single entry gives one item when its count is positive and none
      otherwise; with PlaceOrderItemsAppend this fixes the items and their
      order. */
  lemma PlaceOrderItemsSingle(productId: Id, quantity: int)
    ensures PlaceOrderItems([(productId, quantity)]) ==
      if quantity > 0 then [Routes.ItemRequest(productId, quantity)] else []
  {
  }

  /** A record with unique keys gives at most one item per product. */
  lemma {:induction false} PlaceOrderItemsDistinct(q: Quantities)
    requires UniqueKeys(q)
    ensures forall i, j :: 0 <= i < j < |PlaceOrderItems(q)| ==>
      PlaceOrderItems(q)[i].productId != PlaceOrderItems(q)[j].productId
  {
    if |q| > 0 {
      var rest := PlaceOrderItems(q[1..]);
      PlaceOrderItemsDistinct(q[1..]);
      if q[0].1 > 0 {
        forall j | 0 <= j < |rest|
          ensures rest[j].productId != q[0].0
        {
          assert (rest[j].productId, rest[j].quantity) in q[1..];
          var m :| 0 <= m < |q[1..]| && q[1..][m] == (rest[j].productId, rest[j].quantity);
          KeyInTail(q, m);
        }
      }
    }
  }

  lemma KeyInTail(q: Quantities, m: int)
    requires UniqueKeys(q) && |q| > 0 && 0 <= m < |q| - 1
    ensures q[1..][m].0 != q[0].0
  {
    KeyListKeys(q[1..], m);
  }

  /** The form submits nothing (it shows "No Items Selected") when no count is
      positive; otherwise it submits the positive entries. */
  function HandlePlaceOrder(q: Quantities): (r: Option<seq<Routes.ItemRequest>>)
    ensures r.None? <==> forall i :: 0 <= i < |q| ==> q[i].1 <= 0
    ensures r.Some? ==> r.value == PlaceOrderItems(q) && |r.value| > 0
  {
    var items := PlaceOrderItems(q);
    if |items| == 0 then
      None
    else
      assert items[0].quantity > 0 && (items[0].productId, items[0].quantity) in q;
      Some(items)
  }

  /** Whatever the form submits passes the server's `createOrderSchema`, and
      each item carries exactly the count the record holds for its product. */
  lemma SubmittedItemsValid(q: Quantities)
    requires UniqueKeys(q)
    ensures Routes.QuantitiesValid(PlaceOrderItems(q))
    ensures forall i :: 0 <= i < |PlaceOrderItems(q)| ==>
      Get(q, PlaceOrderItems(q)[i].productId) == Some(PlaceOrderItems(q)[i].quantity)
  {
    var r := PlaceOrderItems(q);
    forall i | 0 <= i < |r|
      ensures Get(q, r[i].productId) == Some(r[i].quantity)
    {
      var j :| 0 <= j < |q| && q[j] == (r[i].productId, r[i].quantity);
      GetOfUnique(q, j);
    }
  }

  /** A product the vendor has just set above 0 is submitted with that
      count. */
  lemma TouchedProductSubmitted(q: Quantities, productId: Id, change: int)
    requires Get(q, productId).GetOr(0) + change > 0
    ensures var q' := UpdateQuantity(q, productId, change);
      Routes.ItemRequest(productId, Get(q', productId).value) in PlaceOrderItems(q')
  {
    var q' := UpdateQuantity(q, productId, change);
    var j := IndexOfKey(q', productId);
  }

  /** Where a present key sits. */
  lemma {:induction false} IndexOfKey(a: Quantities, k: Id) returns (j: int)
    requires k in Keys(a)
    ensures 0 <= j < |a| && a[j] == (k, Get(a, k).value)
  {
    if a[0].0 == k {
      j := 0;
    } else {
      var j' := IndexOfKey(a[1..], k);
      j := j' + 1;
    }
  }
}
