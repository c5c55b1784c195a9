/** Decimal text and rounding, as the source relies on them.

    - `ParseFloat` is JavaScript's `parseFloat` restricted to plain decimal
      literals: leading white space, an optional sign, digits, an optional
      point and fraction digits; the longest such prefix is read and the rest
      ignored, and no digits at all gives NaN.
    - `ToString` is `Number.prototype.toString` for the values `ParseFloat`
      produces: the shortest plain decimal (no trailing fraction zeros, no
      leading zeros, "0" for minus zero).
    - `RoundToCents` is how a PostgreSQL `decimal(p, 2)` column stores a value:
      to the nearest hundredth, ties away from zero.
    - `RoundHalfUp` is `Math.round(a / d)`: ties toward +infinity.

    Values are exact: a `Finite(m, s)` denotes m / 10^s. */
module Decimal {

  datatype Number = Finite(mantissa: int, scale: nat) | NaN

  function Pow10(n: nat): (r: int)
    ensures r >= 1
  {
    if n == 0 then 1 else 10 * Pow10(n - 1)
  }

  lemma {:induction false} Pow10Add(a: nat, b: nat)
    ensures Pow10(a + b) == Pow10(a) * Pow10(b)
  {
    if a > 0 {
      Pow10Add(a - 1, b);
      assert Pow10(a + b) == 10 * Pow10(a - 1 + b);
    }
  }

  function Abs(x: int): nat
  {
    if x < 0 then -x else x
  }

  // ---------------------------------------------------------------------------
  // Digits

  predicate IsDigit(c: char)
  {
    '0' <= c <= '9'
  }

  predicate AllDigits(s: string)
  {
    forall i :: 0 <= i < |s| ==> IsDigit(s[i])
  }

  function DigitValue(c: char): nat
    requires IsDigit(c)
  {
    c as int - '0' as int
  }

  function DigitChar(d: nat): (c: char)
    requires d < 10
    ensures IsDigit(c) && DigitValue(c) == d
  {
    ('0' as int + d) as char
  }

  /** The value of a digit string read as a decimal natural number. */
  function DigitsValue(s: string): nat
    requires AllDigits(s)
  {
    if |s| == 0 then 0 else 10 * DigitsValue(s[..|s| - 1]) + DigitValue(s[|s| - 1])
  }

  /** Length of the longest all-digit prefix of `s`. */
  function DigitRun(s: string): (n: nat)
    ensures n <= |s|
    ensures AllDigits(s[..n])
    ensures n < |s| ==> !IsDigit(s[n])
  {
    if |s| == 0 || !IsDigit(s[0]) then 0 else 1 + DigitRun(s[1..])
  }

  /** Decimal representation of a natural number, without leading zeros. */
  function NatToDigits(n: nat): (s: string)
    ensures |s| >= 1 && AllDigits(s)
    ensures DigitsValue(s) == n
    ensures n > 0 ==> s[0] != '0'
  {
    if n < 10 then [DigitChar(n)]
    else
      var prefix := NatToDigits(n / 10);
      var s := prefix + [DigitChar(n % 10)];
      assert s[..|s| - 1] == prefix;
      s
  }

  function Zeros(k: nat): (s: string)
    ensures |s| == k && AllDigits(s)
  {
    if k == 0 then "" else "0" + Zeros(k - 1)
  }

  /** Left-pads a digit string with zeros to at least `width` characters. */
  function PadLeft(s: string, width: nat): (r: string)
    requires AllDigits(s)
    ensures AllDigits(r) && |r| >= width && |r| >= |s|
    ensures DigitsValue(r) == DigitsValue(s)
  {
    if |s| >= width then s
    else
      var z := Zeros(width - |s|);
      DigitsValueConcat(z, s);
      ZerosValue(width - |s|);
      z + s
  }

  lemma {:induction false} DigitsValueConcat(a: string, b: string)
    requires AllDigits(a) && AllDigits(b)
    ensures AllDigits(a + b)
    ensures DigitsValue(a + b) == DigitsValue(a) * Pow10(|b|) + DigitsValue(b)
  {
    if |b| > 0 {
      var b' := b[..|b| - 1];
      assert (a + b)[..|a + b| - 1] == a + b';
      DigitsValueConcat(a, b');
      var d := DigitValue(b[|b| - 1]);
      assert (a + b)[|a + b| - 1] == b[|b| - 1];
      assert DigitsValue(a + b) == 10 * DigitsValue(a + b') + d;
      assert DigitsValue(b) == 10 * DigitsValue(b') + d;
      assert Pow10(|b|) == 10 * Pow10(|b'|);
      ScaleStep(DigitsValue(a), Pow10(|b'|), DigitsValue(b'), d);
    } else {
      assert a + b == a;
    }
  }

  lemma ScaleStep(a: int, p: int, b: int, d: int)
    ensures 10 * (a * p + b) + d == a * (10 * p) + (10 * b + d)
  {
  }

  lemma {:induction false} ZerosValue(k: nat)
    ensures DigitsValue(Zeros(k)) == 0
  {
    if k > 0 {
      DigitsValueConcat("0", Zeros(k - 1));
      ZerosValue(k - 1);
    }
  }

  // ---------------------------------------------------------------------------
  // parseFloat

  /** The JavaScript white-space and line-terminator characters `parseFloat`
      skips (the Unicode space separators beyond U+00A0 are not listed). */
  predicate IsJsSpace(c: char)
  {
    c == ' ' || c == '\t' || c == '\n' || c == '\r' || c == '\U{B}' || c == '\U{C}'
    || c == '\U{A0}' || c == '\U{FEFF}' || c == '\U{2028}' || c == '\U{2029}'
  }

  function TrimStart(s: string): (r: string)
    ensures |r| <= |s| && r == s[|s| - |r|..]
    ensures |r| == 0 || !IsJsSpace(r[0])
    ensures forall i :: 0 <= i < |s| - |r| ==> IsJsSpace(s[i])
  {
    if |s| > 0 && IsJsSpace(s[0]) then TrimStart(s[1..]) else s
  }

  /** Reads digits, then an optional point with fraction digits, at the front
      of `u`; NaN when neither part has a digit. */
  function ParseUnsigned(u: string): (x: Number)
    ensures x.Finite? ==> x.mantissa >= 0
  {
    var n := DigitRun(u);
    var frac := FractionDigits(u[n..]);
    if n == 0 && |frac| == 0 then NaN
    else Finite(DigitsValue(u[..n]) * Pow10(|frac|) + DigitsValue(frac), |frac|)
  }

  /** The digits after a leading point, up to the first non-digit. */
  function FractionDigits(rest: string): (f: string)
    ensures AllDigits(f)
  {
    if |rest| > 0 && rest[0] == '.' then rest[1..][..DigitRun(rest[1..])] else ""
  }

  function Negate(x: Number): Number
  {
    match x
    case NaN => NaN
    case Finite(m, s) => Finite(-m, s)
  }

  function ParseFloat(s: string): Number
  {
    var t := TrimStart(s);
    if |t| > 0 && t[0] == '-' then Negate(ParseUnsigned(t[1..]))
    else if |t| > 0 && t[0] == '+' then ParseUnsigned(t[1..])
    else ParseUnsigned(t)
  }

  // ---------------------------------------------------------------------------
  // Number.prototype.toString

  /** Drops trailing zero fraction digits: the same value with the least scale. */
  function Normalize(x: Number): (r: Number)
    ensures x.NaN? <==> r.NaN?
    ensures x.Finite? ==> r.scale <= x.scale && x.mantissa == r.mantissa * Pow10(x.scale - r.scale)
    ensures r.Finite? ==> r.scale == 0 || r.mantissa % 10 != 0
    decreases if x.Finite? then x.scale else 0
  {
    match x
    case NaN => NaN
    case Finite(m, s) =>
      if s > 0 && m % 10 == 0 then
        var r := Normalize(Finite(m / 10, s - 1));
        assert m == 10 * (m / 10);
        assert Pow10(s - r.scale) == 10 * Pow10(s - 1 - r.scale);
        r
      else x
  }

  function ToString(x: Number): string
  {
    match Normalize(x)
    case NaN => "NaN"
    case Finite(m, sc) => PrintFinite(m, sc)
  }

  /** The digits of |m| with a point before the last `sc` of them (at least
      one digit before the point), and a minus sign when m is negative. */
  function PrintFinite(m: int, sc: nat): string
  {
    var body := PointDigits(PadLeft(NatToDigits(Abs(m)), sc + 1), sc);
    if m < 0 then "-" + body else body
  }

  /** Places a decimal point before the last `sc` digits of `ds`. */
  function PointDigits(ds: string, sc: nat): string
    requires |ds| > sc
  {
    if sc == 0 then ds else ds[..|ds| - sc] + "." + ds[|ds| - sc..]
  }

  lemma {:induction false} DigitRunAll(a: string)
    requires AllDigits(a)
    ensures DigitRun(a) == |a|
  {
    if |a| > 0 {
      DigitRunAll(a[1..]);
    }
  }

  lemma {:induction false} DigitRunStops(a: string, b: string)
    requires AllDigits(a)
    requires |b| > 0 && !IsDigit(b[0])
    ensures DigitRun(a + b) == |a|
  {
    if |a| > 0 {
      assert (a + b)[1..] == a[1..] + b;
      DigitRunStops(a[1..], b);
    }
  }

  /** A digit string with a point placed in it reads back as its value at
      that scale. */
  lemma {:induction false} ParsePointDigits(ds: string, sc: nat)
    requires AllDigits(ds) && |ds| > sc
    ensures ParseUnsigned(PointDigits(ds, sc)) == Finite(DigitsValue(ds), sc)
  {
    if sc == 0 {
      ParseDigitsOnly(ds);
    } else {
      var n := |ds| - sc;
      PointDigitsParts(ds, sc);
      assert ds == ds[..n] + ds[n..];
      DigitsValueConcat(ds[..n], ds[n..]);
      ParseSplitAt(PointDigits(ds, sc), n, ds[n..]);
    }
  }

  lemma ParseDigitsOnly(ds: string)
    requires AllDigits(ds) && |ds| > 0
    ensures ParseUnsigned(ds) == Finite(DigitsValue(ds), 0)
  {
    var n := |ds|;
    DigitRunAll(ds);
    assert ds[n..] == "";
    assert FractionDigits("") == "";
    ParseUnsignedParts(ds, n, "");
    assert ds[..n] == ds;
    assert Pow10(0) == 1 && DigitsValue("") == 0;
    var v := DigitsValue(ds);
    assert v * 1 + 0 == v;
  }

  /** A digit run of length `n` followed by a point and fraction digits. */
  lemma ParseSplitAt(u: string, n: nat, f: string)
    requires 0 < n < |u| && AllDigits(u[..n]) && AllDigits(f)
    requires u[n..] == "." + f
    ensures ParseUnsigned(u) == Finite(DigitsValue(u[..n]) * Pow10(|f|) + DigitsValue(f), |f|)
  {
    assert u[n] == u[n..][0];
    FractionOfPoint(f);
    DigitRunStopsAt(u, n);
    ParseUnsignedParts(u, n, f);
  }

  /** Where the digits and the point of `PointDigits` sit. */
  lemma PointDigitsParts(ds: string, sc: nat)
    requires 0 < sc < |ds|
    ensures var u := PointDigits(ds, sc);
      u[..|ds| - sc] == ds[..|ds| - sc] && u[|ds| - sc..] == "." + ds[|ds| - sc..]
  {
  }

  /** The digit run ends where the first non-digit is. */
  lemma DigitRunStopsAt(s: string, n: nat)
    requires n < |s| && AllDigits(s[..n]) && !IsDigit(s[n])
    ensures DigitRun(s) == n
  {
    assert s == s[..n] + s[n..];
    DigitRunStops(s[..n], s[n..]);
  }

  /** `ParseUnsigned` in terms of the digit run and the fraction it finds. */
  lemma ParseUnsignedParts(u: string, n: nat, frac: string)
    requires n == DigitRun(u) && frac == FractionDigits(u[n..])
    requires n > 0
    ensures ParseUnsigned(u) == Finite(DigitsValue(u[..n]) * Pow10(|frac|) + DigitsValue(frac), |frac|)
  {
  }

  lemma FractionOfPoint(f: string)
    requires AllDigits(f)
    ensures FractionDigits("." + f) == f
  {
    DigitRunAll(f);
    assert ("." + f)[1..] == f;
    assert f[..|f|] == f;
  }

  lemma ParseLeadingDigit(body: string)
    requires |body| > 0 && IsDigit(body[0])
    ensures ParseFloat(body) == ParseUnsigned(body)
    ensures ParseFloat("-" + body) == Negate(ParseUnsigned(body))
  {
    assert TrimStart(body) == body;
    var t := "-" + body;
    assert TrimStart(t) == t;
    assert t[1..] == body;
  }

  /** Reading back a printed number gives its normalized form: printing loses
      only trailing fraction zeros and the sign of zero. */
  lemma ParseToStringRoundTrip(x: Number)
    ensures ParseFloat(ToString(x)) == Normalize(x)
  {
    match Normalize(x)
    case NaN =>
      ParseNaNText();
    case Finite(m, sc) =>
      ParsePrintFinite(m, sc);
  }

  lemma ParseNaNText()
    ensures ParseFloat("NaN") == NaN
  {
    assert !IsJsSpace('N') && !IsDigit('N');
    assert TrimStart("NaN") == "NaN";
    assert DigitRun("NaN") == 0;
    assert "NaN"[0..] == "NaN";
    assert FractionDigits("NaN") == "";
  }

  lemma ParsePrintFinite(m: int, sc: nat)
    ensures ParseFloat(PrintFinite(m, sc)) == Finite(m, sc)
  {
    var ds := PadLeft(NatToDigits(Abs(m)), sc + 1);
    var body := PointDigits(ds, sc);
    var x := Finite(Abs(m), sc);
    ParsePointDigits(ds, sc);
    PointDigitsFirst(ds, sc);
    assert DigitsValue(ds) == Abs(m);
    ParseDigitLed(body, x);
    var printed := PrintFinite(m, sc);
    if m < 0 {
      assert printed == "-" + body;
      NegateAbs(x, m, sc);
    } else {
      assert printed == body;
    }
  }

  /** A text starting with a digit, with or without a minus sign in front,
      reads as what its unsigned part reads. */
  lemma ParseDigitLed(body: string, x: Number)
    requires |body| > 0 && IsDigit(body[0])
    requires ParseUnsigned(body) == x
    ensures ParseFloat(body) == x
    ensures ParseFloat("-" + body) == Negate(x)
  {
    ParseLeadingDigit(body);
  }

  lemma NegateAbs(x: Number, m: int, sc: nat)
    requires m < 0 && x == Finite(Abs(m), sc)
    ensures Negate(x) == Finite(m, sc)
  {
  }

  lemma PointDigitsFirst(ds: string, sc: nat)
    requires AllDigits(ds) && |ds| > sc
    ensures |PointDigits(ds, sc)| > 0 && IsDigit(PointDigits(ds, sc)[0])
  {
    if sc > 0 {
      assert PointDigits(ds, sc)[0] == ds[..|ds| - sc][0] == ds[0];
    }
  }

  lemma NormalizeIdempotent(x: Number)
    ensures Normalize(Normalize(x)) == Normalize(x)
  {
  }

  /** Printing what `parseFloat` read back from a printed number reproduces the
      print: the client's and the server's `parseFloat(p).toString()` agree. */
  lemma ToStringStable(x: Number)
    ensures ToString(ParseFloat(ToString(x))) == ToString(x)
  {
    ParseToStringRoundTrip(x);
    NormalizeIdempotent(x);
  }

  // ---------------------------------------------------------------------------
  // Rounding

  /** Two exact values denote the same number. */
  ghost predicate SameValue(x: Number, y: Number)
    requires x.Finite? && y.Finite?
  {
    x.mantissa * Pow10(y.scale) == y.mantissa * Pow10(x.scale)
  }

  /** A decimal(p, 2) column's rounding of m / 10^sc to a whole number of
      hundredths: the nearest one, a tie going away from zero. */
  function RoundToCents(x: Number): (c: int)
    requires x.Finite?
    ensures x.mantissa >= 0 ==> -Pow10(x.scale) <= 2 * (100 * x.mantissa - c * Pow10(x.scale)) < Pow10(x.scale)
    ensures x.mantissa < 0 ==> -Pow10(x.scale) < 2 * (100 * x.mantissa - c * Pow10(x.scale)) <= Pow10(x.scale)
  {
    var m := x.mantissa;
    var sc := x.scale;
    if sc <= 2 then
      var c := m * Pow10(2 - sc);
      ExactCents(m, sc, c);
      c
    else
      var q := Pow10(sc - 2);
      var a := (Abs(m) + q / 2) / q;
      ScaledRound(Abs(m), sc, q, a);
      if m < 0 then
        assert 100 * m - (-a) * Pow10(sc) == -(100 * Abs(m) - a * Pow10(sc));
        -a
      else a
  }

  lemma ExactCents(m: int, sc: nat, c: int)
    requires sc <= 2 && c == m * Pow10(2 - sc)
    ensures c * Pow10(sc) == 100 * m
  {
    Pow10Add(2 - sc, sc);
    assert Pow10(2) == 100;
    assert c * Pow10(sc) == m * (Pow10(2 - sc) * Pow10(sc));
  }

  lemma HalfRound(n: nat, q: int, a: int)
    requires q > 0 && q % 2 == 0
    requires a == (n + q / 2) / q
    ensures -q <= 2 * (n - a * q) < q
  {
    var r := (n + q / 2) % q;
    assert n + q / 2 == a * q + r;
  }

  lemma ScaledRound(n: nat, sc: nat, q: int, a: int)
    requires sc > 2 && q == Pow10(sc - 2)
    requires a == (n + q / 2) / q
    ensures -Pow10(sc) <= 2 * (100 * n - a * Pow10(sc)) < Pow10(sc)
  {
    Pow10Split(sc);
    HalfRound(n, q, a);
    ScaleBy100(n, q, a, Pow10(sc));
  }

  lemma Pow10Split(sc: nat)
    requires sc > 2
    ensures Pow10(sc) == 100 * Pow10(sc - 2)
    ensures Pow10(sc - 2) % 2 == 0
  {
    assert Pow10(sc) == 10 * (10 * Pow10(sc - 2));
    var t := Pow10(sc - 3);
    assert Pow10(sc - 2) == 10 * t;
    assert 10 * t == 2 * (5 * t);
  }

  lemma ScaleBy100(n: int, q: int, a: int, p: int)
    requires p == 100 * q
    requires -q <= 2 * (n - a * q) < q
    ensures -p <= 2 * (100 * n - a * p) < p
  {
    assert a * p == 100 * (a * q);
  }

  /** Rounding to the cent depends on the value only: dropping trailing zeros
      does not change it. */
  lemma RoundToCentsNormalize(x: Number)
    requires x.Finite?
    ensures RoundToCents(Normalize(x)) == RoundToCents(x)
  {
    var y := Normalize(x);
    var mx, my, sx, sy := x.mantissa, y.mantissa, x.scale, y.scale;
    var k := Pow10(sx - sy);
    var q := Pow10(sy);
    var p := Pow10(sx);
    var c := RoundToCents(x);
    var d := RoundToCents(y);
    assert mx == my * k;
    Pow10Add(sy, sx - sy);
    assert p == q * k;
    ScaledError(mx, my, sx, sy, c);
    assert mx >= 0 ==> -p <= 2 * (100 * mx - c * p) < p;
    assert mx < 0 ==> -p < 2 * (100 * mx - c * p) <= p;
    assert my >= 0 ==> -q <= 2 * (100 * my - d * q) < q;
    assert my < 0 ==> -q < 2 * (100 * my - d * q) <= q;
    SameRound(mx, my, k, q, p, c, d);
  }

  lemma SameRound(mx: int, my: int, k: int, q: int, p: int, c: int, d: int)
    requires k >= 1 && q >= 1 && mx == my * k
    requires 2 * (100 * mx - c * p) == k * (2 * (100 * my - c * q))
    requires p == q * k
    requires mx >= 0 ==> -p <= 2 * (100 * mx - c * p) < p
    requires mx < 0 ==> -p < 2 * (100 * mx - c * p) <= p
    requires my >= 0 ==> -q <= 2 * (100 * my - d * q) < q
    requires my < 0 ==> -q < 2 * (100 * my - d * q) <= q
    ensures c == d
  {
    MulSign(my, k);
    if my >= 0 {
      ScaleDown(k, 2 * (100 * my - c * q), q);
      RoundUnique(100 * my, q, c, d);
    } else {
      NegatedRound(my, k, q, p, c, d, 2 * (100 * mx - c * p), 2 * (100 * my - c * q));
    }
  }

  lemma NegatedRound(my: int, k: int, q: int, p: int, c: int, d: int, big: int, e: int)
    requires k >= 1 && q >= 1 && p == q * k
    requires e == 2 * (100 * my - c * q) && big == k * e
    requires -p < big <= p
    requires -q < 2 * (100 * my - d * q) <= q
    ensures c == d
  {
    assert k * -e == -big;
    ScaleDown(k, -e, q);
    assert -e == 2 * (-100 * my - (-c) * q);
    assert -(2 * (100 * my - d * q)) == 2 * (-100 * my - (-d) * q);
    RoundUnique(-100 * my, q, -c, -d);
  }

  lemma ScaledError(m: int, m': int, s: nat, s': nat, c: int)
    requires s' <= s && m == m' * Pow10(s - s')
    ensures 2 * (100 * m - c * Pow10(s)) == Pow10(s - s') * (2 * (100 * m' - c * Pow10(s')))
  {
    var k := Pow10(s - s');
    Pow10Add(s', s - s');
    ScaleIdentity(m, m', Pow10(s), Pow10(s'), k, c);
  }

  lemma ScaleIdentity(m: int, m': int, p: int, q: int, k: int, c: int)
    requires m == m' * k && p == q * k
    ensures 2 * (100 * m - c * p) == k * (2 * (100 * m' - c * q))
  {
    assert 100 * m == k * (100 * m');
    assert c * p == k * (c * q);
  }

  lemma MulSign(a: int, k: int)
    requires k >= 1
    ensures a >= 0 <==> a * k >= 0
  {
    if a < 0 {
      assert a * k - a == a * (k - 1);
    }
  }

  lemma ScaleDown(k: int, e: int, q: int)
    requires k >= 1 && q >= 1
    requires -(k * q) <= k * e < k * q
    ensures -q <= e < q
  {
  }

  /** At most one whole number of units `q` lies within half a unit of `v`
      on the half-open side. */
  lemma RoundUnique(v: int, q: int, c: int, d: int)
    requires q >= 1
    requires -q <= 2 * (v - c * q) < q
    requires -q <= 2 * (v - d * q) < q
    ensures c == d
  {
    if c != d {
      var t := if c > d then c - d else d - c;
      MulAtLeast(t, q);
    }
  }

  lemma MulAtLeast(t: int, q: int)
    requires t >= 1 && q >= 1
    ensures t * q >= q
  {
    assert t * q == (t - 1) * q + q;
  }

  /** `Math.round(a / d)` for an integer quotient: the nearest integer, a tie
      going toward +infinity. */
  function RoundHalfUp(a: int, d: int): (r: int)
    requires d > 0
    ensures -d <= 2 * (a - d * r) < d
  {
    var r := (2 * a + d) / (2 * d);
    var rem := (2 * a + d) % (2 * d);
    assert 2 * a + d == r * (2 * d) + rem;
    r
  }
}
