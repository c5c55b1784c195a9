/** The vendor's order tracker (client/src/components/vendor/order-status.tsx):
    which order it follows and how it draws the four lifecycle steps. */
module OrderTracker {
  import opened Wrappers
  import opened Schema

  /** `statusOrder`: the lifecycle as the tracker lists it. */
  const StatusLabels: seq<string> := [StatusName(Placed), StatusName(Procuring), StatusName(OnTheWay), StatusName(Delivered)]

  /** Position in the lifecycle. */
  function Rank(s: OrderStatus): (n: nat)
    ensures n < |StatusLabels|
    ensures StatusLabels[n] == StatusName(s)
  {
    match s
    case Placed => 0
    case Procuring => 1
    case OnTheWay => 2
    case Delivered => 3
  }

  /** `Array.prototype.indexOf`: the first position of `x`, or -1. */
  function IndexOf(xs: seq<string>, x: string): (i: int)
    ensures -1 <= i < |xs|
    ensures i >= 0 ==> xs[i] == x && forall j :: 0 <= j < i ==> xs[j] != x
    ensures i == -1 <==> x !in xs
  {
    if |xs| == 0 then -1
    else if xs[0] == x then 0
    else
      var i := IndexOf(xs[1..], x);
      if i == -1 then -1 else i + 1
  }

  /** `statusOrder.indexOf(currentOrder.status || 'PLACED')`. */
  function StatusIndex(status: Option<OrderStatus>): int
  {
    IndexOf(StatusLabels, StatusName(status.GetOr(Placed)))
  }

  /** The index the tracker computes is the status's lifecycle position, so it
      is never -1; an order without a status is drawn as PLACED. */
  lemma StatusIndexIsRank(status: Option<OrderStatus>)
    ensures StatusIndex(status) == Rank(status.GetOr(Placed))
  {
    var s := status.GetOr(Placed);
    var i := StatusIndex(status);
    assert StatusLabels[Rank(s)] == StatusName(s);
    if i != Rank(s) {
      assert StatusLabels[i] == StatusName(s);
      StatusNameInjective(i, Rank(s));
    }
  }

  /** The four labels are distinct. */
  lemma StatusNameInjective(i: int, j: int)
    requires 0 <= i < |StatusLabels| && 0 <= j < |StatusLabels|
    requires StatusLabels[i] == StatusLabels[j]
    ensures i == j
  {
  }

  /** Position of the first order that is not DELIVERED (an order without a
      status counts as not delivered), or the length when there is none. */
  function FirstActive(orders: seq<OrderWithItems>): (i: nat)
    ensures i <= |orders|
    ensures forall j :: 0 <= j < i ==> orders[j].order.status == Some(Delivered)
    ensures i < |orders| ==> orders[i].order.status != Some(Delivered)
  {
    if |orders| == 0 || orders[0].order.status != Some(Delivered) then 0
    else 1 + FirstActive(orders[1..])
  }

  /** `orders.find(order => order.status !== 'DELIVERED')`; `None` is the
      "No active orders" card. */
  function CurrentOrder(orders: seq<OrderWithItems>): (r: Option<OrderWithItems>)
    ensures r.None? <==> forall j :: 0 <= j < |orders| ==> orders[j].order.status == Some(Delivered)
    ensures r.Some? ==> r.value in orders && r.value.order.status != Some(Delivered)
    ensures r.Some? ==>
      exists k :: 0 <= k < |orders| && r.value == orders[k] && forall j :: 0 <= j < k ==> orders[j].order.status == Some(Delivered)
  {
    var i := FirstActive(orders);
    if i < |orders| then Some(orders[i]) else None
  }

  /** How one step of the tracker is drawn. */
  datatype Step = Completed | Current | Pending

  /** `isActive`/`isCurrent` for step `index` when the order is at `current`. */
  function StepAt(index: int, current: int): (r: Step)
    ensures r == Completed <==> index < current
    ensures r == Current <==> index == current
    ensures r == Pending <==> index > current
  {
    if index == current then Current
    else if index <= current then Completed
    else Pending
  }

  function Steps(current: int): (r: seq<Step>)
    ensures |r| == |StatusLabels|
    ensures forall i :: 0 <= i < |r| ==> r[i] == StepAt(i, current)
  {
    [StepAt(0, current), StepAt(1, current), StepAt(2, current), StepAt(3, current)]
  }

  /** For the tracked order, exactly the steps before its status are ticked,
      its own step is the current one, the rest are pending, and the
      DELIVERED step is never reached. */
  lemma TrackedOrderSteps(orders: seq<OrderWithItems>)
    requires CurrentOrder(orders).Some?
    ensures var o := CurrentOrder(orders).value.order;
      var steps := Steps(StatusIndex(o.status));
      var n := Rank(o.status.GetOr(Placed));
      && n < 3
      && (forall i :: 0 <= i < |steps| ==>
            (steps[i] == Completed <==> i < n) && (steps[i] == Current <==> i == n))
      && steps[3] == Pending
  {
    StatusIndexIsRank(CurrentOrder(orders).value.order.status);
  }
}
