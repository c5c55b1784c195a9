/** The partner's procurement screen (client/src/components/partner/procurement-list.tsx):
    the "Current" price shown per product and what the "update" button
    sends. */
module ProcurementList {
  import opened Wrappers
  import opened Assoc
  import opened Schema
  import Decimal
  import Ledger
  import Aggregates
  import Routes
  import AmountInput

  /** `priceMap[productId] &&`: the price map the screen builds from
      `/api/procurement-prices` has an entry. The stored price text is
      never empty, so an entry is always shown. */
  predicate ShowsCurrent(rows: seq<PriceObservation>, productId: Id)
  {
    Ledger.CurrentPrice(rows, productId).Some?
  }

  /** The "Current" label appears exactly for products that were ever priced,
      and shows the price of the product's latest observation. */
  lemma CurrentLabelShowsLatest(rows: seq<PriceObservation>, productId: Id)
    ensures ShowsCurrent(rows, productId) <==> exists i :: 0 <= i < |rows| && rows[i].productId == productId
    ensures ShowsCurrent(rows, productId) ==>
      exists i :: 0 <= i < |rows| && rows[i].productId == productId && Ledger.IsLatestAt(rows, i)
        && Ledger.CurrentPrice(rows, productId) == Some(rows[i].price)
  {
    Ledger.CurrentPriceIsLatest(rows, productId);
    if ShowsCurrent(rows, productId) {
      var i := Ledger.LatestIsLatestRow(rows, productId);
    }
    if exists i :: 0 <= i < |rows| && rows[i].productId == productId {
      var i :| 0 <= i < |rows| && rows[i].productId == productId;
      Ledger.LatestCoversObserved(rows, i);
    }
  }

  /** `handleUpdatePrice` followed by the mutation: the text typed for the
      product is refused or re-printed and sent with the product id. */
  function HandleUpdatePrice(inputs: AmountInput.Inputs, productId: Id): (r: Option<(Id, string)>)
    ensures r.None? <==> AmountInput.Refuses(Get(inputs, productId))
    ensures r.Some? ==> r.value.0 == productId && Some(r.value.1) == AmountInput.Submitted(Get(inputs, productId))
  {
    match AmountInput.Submitted(Get(inputs, productId))
    case None => None
    case Some(text) => Some((productId, text))
  }

  /** An observation dated after every earlier one of its product becomes
      that product's latest. */
  lemma {:induction false} NewerObservationIsLatest(rows: seq<PriceObservation>, obs: PriceObservation)
    requires forall i :: 0 <= i < |rows| && rows[i].productId == obs.productId ==> rows[i].date < obs.date
    ensures Get(Ledger.LatestPrices(rows + [obs]), obs.productId) == Some(obs)
  {
    var all := rows + [obs];
    assert all[..|all| - 1] == rows;
    var acc := Ledger.LatestPrices(rows);
    if obs.productId in Keys(acc) {
      var i := Ledger.LatestIsLatestRow(rows, obs.productId);
    }
  }

  /** Round trip through the screen and the server: the server accepts a
      submitted price exactly when the product exists and the amount fits
      the column, records the typed price rounded to the cent (never a
      negative one), and when the new observation is the product's newest
      the "Current" label then shows that price. */
  lemma SubmittedPriceRecorded(db: Db, inputs: AmountInput.Inputs, productId: Id, obsId: Id, now: int)
    requires HandleUpdatePrice(inputs, productId).Some?
    requires productId != ""
    requires Decimal.ParseFloat(Get(inputs, productId).value).Finite?
    ensures var sent := HandleUpdatePrice(inputs, productId).value.1;
      var r := Routes.SetPrice(db, productId, sent, obsId, now);
      var c := Decimal.RoundToCents(Decimal.ParseFloat(Get(inputs, productId).value));
      && c >= 0
      && (r.response.Success? <==> FitsMoney(c) && Aggregates.FindProduct(db.products, productId).Some?)
      && (r.response.Success? ==> r.response.value.price == c)
      && (r.response.Success?
          && (forall i :: 0 <= i < |db.prices| && db.prices[i].productId == productId ==> db.prices[i].date < now)
          ==> Ledger.CurrentPrice(r.db.prices, productId) == Some(c))
  {
    var text := Get(inputs, productId).value;
    AmountInput.SubmittedAmountStored(text);
    var sent := HandleUpdatePrice(inputs, productId).value.1;
    var r := Routes.SetPrice(db, productId, sent, obsId, now);
    assert sent == AmountInput.Submitted(Some(text)).value;
    if r.response.Success? && (forall i :: 0 <= i < |db.prices| && db.prices[i].productId == productId ==> db.prices[i].date < now) {
      var obs := r.response.value;
      NewerObservationIsLatest(db.prices, obs);
      Ledger.CurrentPriceIsLatest(r.db.prices, productId);
    }
  }

  /** A price of "0.001" passes the screen's check and is recorded as 0.00 —
      a price the reconciliation of open orders then ignores. */
  lemma TinyPriceRecordedAsZero(db: Db, productId: Id, obsId: Id, now: int)
    requires productId != "" && Aggregates.FindProduct(db.products, productId).Some?
    ensures var s := HandleUpdatePrice([(productId, "0.001")], productId);
      && s.Some?
      && var r := Routes.SetPrice(db, productId, s.value.1, obsId, now);
      && r.response.Success?
      && r.response.value.price == 0
  {
    var inputs: AmountInput.Inputs := [(productId, "0.001")];
    assert Get(inputs, productId) == Some("0.001");
    AmountInput.TinyAmountStoredAsZero();
    AmountInput.ParseTiny();
    AmountInput.RoundTiny();
    SubmittedPriceRecorded(db, inputs, productId, obsId, now);
  }
}
