/** Read-side queries over the append-only procurement price ledger
    (server/storage.ts): the latest observation per product, the price map
    built from it, and the average price over one day. */
module Ledger {
  import opened Wrappers
  import opened Assoc
  import opened Schema
  import Decimal

  /** `getLatestProcurementPrices`: rows are scanned in table order and a
      product's entry is replaced only by a row with a strictly later date, so
      among rows with the greatest date the first one is kept. */
  function LatestPrices(rows: seq<PriceObservation>): (r: Assoc<Id, PriceObservation>)
    ensures UniqueKeys(r)
  {
    if |rows| == 0 then []
    else
      var acc := LatestPrices(rows[..|rows| - 1]);
      var p := rows[|rows| - 1];
      match Get(acc, p.productId)
      case None => Set(acc, p.productId, p)
      case Some(e) => if p.date > e.date then Set(acc, p.productId, p) else acc
  }

  /** Row `i` is its product's latest: no row of the product is dated later,
      and every earlier row of the product is dated strictly earlier. */
  ghost predicate IsLatestAt(rows: seq<PriceObservation>, i: int)
    requires 0 <= i < |rows|
  {
    forall j :: 0 <= j < |rows| && rows[j].productId == rows[i].productId ==>
      rows[j].date <= rows[i].date && (j < i ==> rows[j].date < rows[i].date)
  }

  /** Every product with at least one observation has an entry. */
  lemma {:induction false} LatestCoversObserved(rows: seq<PriceObservation>, i: int)
    requires 0 <= i < |rows|
    ensures rows[i].productId in Keys(LatestPrices(rows))
  {
    var n := |rows| - 1;
    LatestKeysGrow(rows);
    if i < n {
      LatestCoversObserved(rows[..n], i);
      assert rows[..n][i] == rows[i];
    }
  }

  /** Scanning one more row adds its product to the keys and drops none. */
  lemma LatestKeysGrow(rows: seq<PriceObservation>)
    requires |rows| > 0
    ensures Keys(LatestPrices(rows)) == Keys(LatestPrices(rows[..|rows| - 1])) + {rows[|rows| - 1].productId}
  {
    var acc := LatestPrices(rows[..|rows| - 1]);
    var p := rows[|rows| - 1];
    if Get(acc, p.productId).Some? {
      assert p.productId in Keys(acc);
    }
  }

  /** The entry kept for a product is one of its rows, and that row is the
      product's latest in the sense of `IsLatestAt`. */
  lemma {:induction false} LatestIsLatestRow(rows: seq<PriceObservation>, k: Id) returns (i: int)
    requires k in Keys(LatestPrices(rows))
    ensures 0 <= i < |rows|
    ensures rows[i] == Get(LatestPrices(rows), k).value
    ensures rows[i].productId == k
    ensures IsLatestAt(rows, i)
  {
    var n := |rows| - 1;
    var prefix := rows[..n];
    var acc := LatestPrices(prefix);
    var p := rows[n];
    if k in Keys(acc) {
      var i0 := LatestIsLatestRow(prefix, k);
      assert prefix[i0] == rows[i0];
      var e := Get(acc, k).value;
      if p.productId == k && p.date > e.date {
        i := n;
        forall j | 0 <= j < n && rows[j].productId == k
          ensures rows[j].date < p.date
        {
          assert prefix[j] == rows[j];
        }
        NewLatest(rows);
      } else {
        i := i0;
        KeepLatest(rows, i0);
      }
    } else {
      assert p.productId == k;
      i := n;
      NotObserved(prefix, k);
      assert forall j :: 0 <= j < n ==> rows[j] == prefix[j];
      NewLatest(rows);
    }
  }

  /** A product without an entry has no observation. */
  lemma NotObserved(rows: seq<PriceObservation>, k: Id)
    requires k !in Keys(LatestPrices(rows))
    ensures forall j :: 0 <= j < |rows| ==> rows[j].productId != k
  {
    forall j | 0 <= j < |rows|
      ensures rows[j].productId != k
    {
      LatestCoversObserved(rows, j);
    }
  }

  /** A last row dated after every earlier row of its product is its latest. */
  lemma NewLatest(rows: seq<PriceObservation>)
    requires |rows| > 0
    requires forall j :: 0 <= j < |rows| - 1 && rows[j].productId == rows[|rows| - 1].productId ==>
      rows[j].date < rows[|rows| - 1].date
    ensures IsLatestAt(rows, |rows| - 1)
  {
  }

  /** The latest row of the prefix stays the latest when the last row is of
      another product or not dated later. */
  lemma KeepLatest(rows: seq<PriceObservation>, i: int)
    requires 0 <= i < |rows| - 1
    requires IsLatestAt(rows[..|rows| - 1], i)
    requires rows[|rows| - 1].productId != rows[i].productId || rows[|rows| - 1].date <= rows[i].date
    ensures IsLatestAt(rows, i)
  {
    var n := |rows| - 1;
    forall j | 0 <= j < |rows| && rows[j].productId == rows[i].productId
      ensures rows[j].date <= rows[i].date && (j < i ==> rows[j].date < rows[i].date)
    {
      if j < n {
        assert rows[..n][j] == rows[j] && rows[..n][i] == rows[i];
      }
    }
  }

  /** At most one row per product is the latest. */
  lemma LatestRowUnique(rows: seq<PriceObservation>, i: int, j: int)
    requires 0 <= i < |rows| && 0 <= j < |rows|
    requires rows[i].productId == rows[j].productId
    requires IsLatestAt(rows, i) && IsLatestAt(rows, j)
    ensures i == j
  {
  }

  /** `new Map(list.map(p => [p.productId, parseFloat(p.price)]))`. */
  function PriceMap(list: seq<PriceObservation>): (m: Assoc<Id, int>)
    ensures UniqueKeys(m)
    ensures forall k :: Get(m, k) == LastValue(PricePairs(list), k)
  {
    FromEntries(PricePairs(list))
  }

  function PricePairs(list: seq<PriceObservation>): (r: seq<(Id, int)>)
    ensures |r| == |list|
    ensures forall i :: 0 <= i < |list| ==> r[i] == (list[i].productId, list[i].price)
  {
    if |list| == 0 then [] else [(list[0].productId, list[0].price)] + PricePairs(list[1..])
  }

  /** The list `/api/procurement-prices` returns. */
  function LatestList(rows: seq<PriceObservation>): seq<PriceObservation>
  {
    Values(LatestPrices(rows))
  }

  /** The price a product currently has on the server: the price of its
      latest observation, or none when it was never priced. */
  function CurrentPrice(rows: seq<PriceObservation>, productId: Id): Option<int>
  {
    Get(PriceMap(LatestList(rows)), productId)
  }

  /** The price map built from the latest list loses nothing: a product's
      entry is exactly the price of the latest row of that product, and a
      product has an entry exactly when it has been observed. */
  lemma CurrentPriceIsLatest(rows: seq<PriceObservation>, productId: Id)
    ensures CurrentPrice(rows, productId).Some? <==> productId in Keys(LatestPrices(rows))
    ensures CurrentPrice(rows, productId).Some? ==>
      CurrentPrice(rows, productId).value == Get(LatestPrices(rows), productId).value.price
  {
    var latest := LatestPrices(rows);
    var pairs := PricePairs(Values(latest));
    assert KeyList(pairs) == KeyList(latest) by {
      forall i | 0 <= i < |latest|
        ensures pairs[i].0 == latest[i].0
      {
        GetOfUnique(latest, i);
        KeyListKeys(latest, i);
        var i0 := LatestIsLatestRow(rows, latest[i].0);
      }
    }
    UniqueKeysByKeyList(pairs, latest);
    LastValueOfUnique(pairs, productId);
    GetByKeyList(pairs, latest, productId);
  }

  lemma {:induction false} UniqueKeysByKeyList(a: Assoc<Id, int>, b: Assoc<Id, PriceObservation>)
    requires KeyList(a) == KeyList(b)
    requires UniqueKeys(b)
    ensures UniqueKeys(a)
    ensures Keys(a) == Keys(b)
  {
    if |a| > 0 {
      assert KeyList(a[1..]) == KeyList(a)[1..];
      assert KeyList(b[1..]) == KeyList(b)[1..];
      UniqueKeysByKeyList(a[1..], b[1..]);
    }
  }

  lemma {:induction false} GetByKeyList(a: Assoc<Id, int>, b: Assoc<Id, PriceObservation>, k: Id)
    requires KeyList(a) == KeyList(b)
    requires forall i :: 0 <= i < |a| ==> a[i].1 == b[i].1.price
    ensures Get(a, k).Some? <==> Get(b, k).Some?
    ensures Get(a, k).Some? ==> Get(a, k).value == Get(b, k).value.price
  {
    if |a| > 0 {
      assert KeyList(a[1..]) == KeyList(a)[1..];
      assert KeyList(b[1..]) == KeyList(b)[1..];
      assert a[0].0 == b[0].0;
      GetByKeyList(a[1..], b[1..], k);
    }
  }

  // ---------------------------------------------------------------------------
  // Average price for a day

  /** Prices of `productId`'s rows dated inside [startOfDay, endOfDay], both
      ends included. */
  function DayPrices(rows: seq<PriceObservation>, productId: Id, startOfDay: int, endOfDay: int): (r: seq<int>)
    ensures |r| <= |rows|
  {
    if |rows| == 0 then []
    else
      var p := rows[|rows| - 1];
      var earlier := DayPrices(rows[..|rows| - 1], productId, startOfDay, endOfDay);
      if p.productId == productId && startOfDay <= p.date <= endOfDay then earlier + [p.price] else earlier
  }

  function Sum(xs: seq<int>): int
  {
    if |xs| == 0 then 0 else Sum(xs[..|xs| - 1]) + xs[|xs| - 1]
  }

  /** `getAveragePriceForDay`: 0 when the window holds no observation of the
      product, otherwise the mean price rounded to the cent as `Math.round`
      rounds (a tie goes up). */
  function AveragePriceForDay(rows: seq<PriceObservation>, productId: Id, startOfDay: int, endOfDay: int): (avg: int)
    ensures |DayPrices(rows, productId, startOfDay, endOfDay)| == 0 ==> avg == 0
    ensures var w := DayPrices(rows, productId, startOfDay, endOfDay);
      |w| > 0 ==> -|w| <= 2 * (Sum(w) - |w| * avg) < |w|
  {
    var w := DayPrices(rows, productId, startOfDay, endOfDay);
    if |w| == 0 then 0 else Decimal.RoundHalfUp(Sum(w), |w|)
  }

  /** The average lies between the least and the greatest price of the day. */
  lemma AverageWithinDayRange(rows: seq<PriceObservation>, productId: Id, startOfDay: int, endOfDay: int, lo: int, hi: int)
    requires var w := DayPrices(rows, productId, startOfDay, endOfDay);
      |w| > 0 && forall i :: 0 <= i < |w| ==> lo <= w[i] <= hi
    ensures lo <= AveragePriceForDay(rows, productId, startOfDay, endOfDay) <= hi
  {
    var w := DayPrices(rows, productId, startOfDay, endOfDay);
    SumBounds(w, lo, hi);
    RoundedMeanBounds(Sum(w), |w|, AveragePriceForDay(rows, productId, startOfDay, endOfDay), lo, hi);
  }

  lemma RoundedMeanBounds(total: int, n: int, avg: int, lo: int, hi: int)
    requires n > 0
    requires n * lo <= total <= n * hi
    requires -n <= 2 * (total - n * avg) < n
    ensures lo <= avg <= hi
  {
    if avg > hi {
      MulMono(n, hi + 1, avg);
    }
    if avg < lo {
      MulMono(n, avg, lo - 1);
    }
  }

  lemma MulMono(n: int, a: int, b: int)
    requires n > 0 && a <= b
    ensures n * a <= n * b
  {
    assert n * b - n * a == n * (b - a);
  }

  lemma {:induction false} SumBounds(xs: seq<int>, lo: int, hi: int)
    requires forall i :: 0 <= i < |xs| ==> lo <= xs[i] <= hi
    ensures |xs| * lo <= Sum(xs) <= |xs| * hi
  {
    if |xs| > 0 {
      var n := |xs| - 1;
      SumBounds(xs[..n], lo, hi);
      assert lo <= xs[n] <= hi;
      assert |xs| * lo == n * lo + lo && |xs| * hi == n * hi + hi;
    }
  }

  /** Three observations of one product on the first day of the epoch. */
  const ExampleRows: seq<PriceObservation> :=
    [PriceObservation("a", "onion", 1000, 5), PriceObservation("b", "onion", 2000, 6),
     PriceObservation("c", "onion", 3000, 7)]

  /** Three observations of 10.00, 20.00 and 30.00 in one day average 20.00;
      a day without observations averages 0. */
  lemma AverageExample()
    ensures AveragePriceForDay(ExampleRows, "onion", 0, 86_399_999) == 2000
    ensures AveragePriceForDay(ExampleRows, "onion", 86_400_000, 172_799_999) == 0
  {
    ExampleDays();
    ExampleSum();
    ExampleRound();
  }

  lemma ExampleDays()
    ensures DayPrices(ExampleRows, "onion", 0, 86_399_999) == [1000, 2000, 3000]
    ensures DayPrices(ExampleRows, "onion", 86_400_000, 172_799_999) == []
  {
    var rows := ExampleRows;
    assert rows[..2] == [rows[0], rows[1]];
    assert rows[..2][..1] == [rows[0]];
    assert [rows[0]][..0] == [];
    assert DayPrices([rows[0]], "onion", 0, 86_399_999) == [1000];
    assert DayPrices(rows[..2], "onion", 0, 86_399_999) == [1000, 2000];
    assert DayPrices([rows[0]], "onion", 86_400_000, 172_799_999) == [];
    assert DayPrices(rows[..2], "onion", 86_400_000, 172_799_999) == [];
  }

  lemma ExampleSum()
    ensures Sum([1000, 2000, 3000]) == 6000
  {
    assert [1000, 2000, 3000][..2] == [1000, 2000];
    assert [1000, 2000][..1] == [1000];
    assert [1000][..0] == [];
  }

  lemma ExampleRound()
    ensures Decimal.RoundHalfUp(6000, 3) == 2000
  {
    assert (2 * 6000 + 3) / (2 * 3) == 2000;
  }
}
