/** The amount text fields the partner screens share: a record of typed
    text per row id, the refusal test applied before submitting, and the
    re-printing `parseFloat(text).toString()` of what is submitted
    (client/src/components/partner/delivery-management.tsx and
    client/src/components/partner/procurement-list.tsx). */
module AmountInput {
  import opened Wrappers
  import opened Assoc
  import opened Schema
  import Decimal

  /** Row id to the text typed for it. */
  type Inputs = Assoc<Id, string>

  /** The `onChange` handler: only that row's text changes. */
  function Change(inputs: Inputs, id: Id, value: string): (r: Inputs)
    ensures Get(r, id) == Some(value)
    ensures forall k :: k != id ==> Get(r, k) == Get(inputs, k)
  {
    Set(inputs, id, value)
  }

  /** The refusal test `!text || parseFloat(text) <= 0`. A text that is not
      a number parses to NaN, and `NaN <= 0` is false, so it is not
      refused. */
  predicate Refuses(amount: Option<string>)
  {
    || amount.None?
    || amount.value == ""
    || (Decimal.ParseFloat(amount.value).Finite? && Decimal.ParseFloat(amount.value).mantissa <= 0)
  }

  /** The text sent to the server, or `None` when the screen refuses. */
  function Submitted(amount: Option<string>): (r: Option<string>)
    ensures r.None? <==> Refuses(amount)
  {
    if Refuses(amount) then None
    else Some(Decimal.ToString(Decimal.ParseFloat(amount.value)))
  }

  lemma ToStringNonEmpty(x: Decimal.Number)
    ensures Decimal.ToString(x) != ""
  {
    match Decimal.Normalize(x)
    case NaN =>
    case Finite(m, sc) =>
      var ds := Decimal.PadLeft(Decimal.NatToDigits(Decimal.Abs(m)), sc + 1);
      assert |Decimal.PointDigits(ds, sc)| > 0;
  }

  /** What a decimal(10,2) column makes of a submitted amount: the typed
      number rounded to the cent, which is never negative because the screen
      only submits positive numbers. The server parses and prints the text
      once more, which leaves it as it is. */
  lemma SubmittedAmountStored(text: string)
    requires Submitted(Some(text)).Some?
    requires Decimal.ParseFloat(text).Finite?
    ensures var x := Decimal.ParseFloat(text);
      var sent := Submitted(Some(text)).value;
      && sent != ""
      && Decimal.ToString(Decimal.ParseFloat(sent)) == sent
      && DecimalColumn(sent) == (if FitsMoney(Decimal.RoundToCents(x)) then Some(Decimal.RoundToCents(x)) else None)
      && Decimal.RoundToCents(x) >= 0
  {
    var x := Decimal.ParseFloat(text);
    ToStringNonEmpty(x);
    Decimal.ToStringStable(x);
    Decimal.ParseToStringRoundTrip(x);
    Decimal.RoundToCentsNormalize(x);
    Schema.StoredNumberIsRounded(x);
    PositiveRoundsNonNegative(x);
  }

  lemma PositiveRoundsNonNegative(x: Decimal.Number)
    requires x.Finite? && x.mantissa > 0
    ensures Decimal.RoundToCents(x) >= 0
  {
    NegativeTimes(Decimal.RoundToCents(x), Decimal.Pow10(x.scale));
  }

  lemma NegativeTimes(c: int, p: int)
    requires p >= 1
    ensures c <= -1 ==> c * p <= -p
  {
    if c <= -1 {
      Decimal.MulAtLeast(-c, p);
    }
  }

  /** The screen's test and the column disagree on tiny amounts: "0.001" is
      positive, so it is submitted, and the column stores 0.00. */
  lemma TinyAmountStoredAsZero()
    ensures Submitted(Some("0.001")).Some?
    ensures DecimalColumn(Submitted(Some("0.001")).value) == Some(0)
  {
    ParseTiny();
    RoundTiny();
    SubmittedAmountStored("0.001");
  }

  lemma RoundTiny()
    ensures Decimal.RoundToCents(Decimal.Finite(1, 3)) == 0
  {
    assert Decimal.Pow10(3) == 1000;
  }

  lemma ParseTiny()
    ensures Decimal.ParseFloat("0.001") == Decimal.Finite(1, 3)
  {
    var u := "0.001";
    assert u[..1] == "0" && u[1..] == "." + "001";
    TinyDigits();
    Decimal.ParseSplitAt(u, 1, "001");
    Decimal.ParseLeadingDigit(u);
  }

  lemma TinyDigits()
    ensures Decimal.AllDigits("0") && Decimal.AllDigits("001")
    ensures Decimal.DigitsValue("0") == 0 && Decimal.DigitsValue("001") == 1
  {
    assert "001"[..2] == "00";
    assert "00"[..1] == "0";
    assert "0"[..0] == "";
  }
}
