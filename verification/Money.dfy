/** Exact decimal amounts, half-even rounding and currency conversion. */
module Money {
  import opened Sequences
  import opened Timestamps

  datatype Amount = Amount(unscaled: nat, scale: nat, currency: string)

  datatype Rate = Rate(currency: string, unscaled: nat, scale: nat, effectiveDate: string, asOf: string)

  /** dated: the policy carries a rate selection, so rates apply by event date and watermark. */
  datatype FxPolicy = FxPolicy(rates: seq<Rate>, targetScale: nat, dated: bool)

  function Pow10(n: nat): (p: nat)
    ensures p > 0
  {
    if n == 0 then 1 else 10 * Pow10(n - 1)
  }

  /** The amount as an integer count of 10^-scale units. */
  function ExactAt(m: Amount, scale: nat): nat
    requires m.scale <= scale
  {
    m.unscaled * Pow10(scale - m.scale)
  }

  function RoundHalfEven(numerator: int, denominator: int): int
    requires denominator > 0
  {
    var absolute := if numerator < 0 then -numerator else numerator;
    var quotient, remainder := absolute / denominator, absolute % denominator;
    var twice := remainder * 2;
    var rounded :=
      if twice > denominator || (twice == denominator && quotient % 2 == 1) then quotient + 1 else quotient;
    if numerator < 0 then -rounded else rounded
  }

  /** Distance at most one half, and a tie only at an even value. */
  ghost predicate NearestTiesToEven(numerator: int, denominator: int, q: int) {
    && -denominator <= 2 * (numerator - q * denominator) <= denominator
    && (2 * (numerator - q * denominator) == denominator || 2 * (numerator - q * denominator) == -denominator
        ==> q % 2 == 0)
  }

  lemma RoundIsNearest(n: int, d: int)
    requires d > 0
    ensures NearestTiesToEven(n, d, RoundHalfEven(n, d))
  {
    var absolute := if n < 0 then -n else n;
    DivisionParts(absolute, d);
    PartsAreNearest(absolute / d, absolute % d, d);
    if n < 0 { NearestNegates(absolute, d, -RoundHalfEven(n, d)); }
  }

  lemma DivisionParts(n: int, d: int)
    requires d > 0
    ensures n == (n / d) * d + n % d && 0 <= n % d < d
  { }

  lemma PartsAreNearest(q: int, r: int, d: int)
    requires 0 <= r < d
    ensures NearestTiesToEven(q * d + r, d, if r * 2 > d || (r * 2 == d && q % 2 == 1) then q + 1 else q)
  {
    assert (q + 1) * d == q * d + d;
  }

  lemma NearestNegates(n: int, d: int, q: int)
    requires d > 0 && NearestTiesToEven(n, d, q)
    ensures NearestTiesToEven(-n, d, -q)
  {
    assert (-q) * d == -(q * d);
  }

  lemma NearestUnique(n: int, d: int, x: int, y: int)
    requires d > 0 && NearestTiesToEven(n, d, x) && NearestTiesToEven(n, d, y)
    ensures x == y
  {
    var gap := y - x;
    assert y * d == x * d + gap * d;
    WithinOne(gap, d);
    OneStep(gap, d);
  }

  lemma WithinOne(k: int, d: int)
    requires d > 0 && -d <= k * d <= d
    ensures -1 <= k <= 1
  { }

  lemma OneStep(k: int, d: int)
    requires -1 <= k <= 1
    ensures k * d == if k == 1 then d else if k == 0 then 0 else -d
  { }

  /** The rounded value is the one integer nearest to the quotient, ties to even; so rounding is
      odd-symmetric and depends only on the quotient, not on how it is written. */
  lemma RoundHalfEvenMeaning(n: int, d: int, q: int, k: int)
    requires d > 0 && k > 0
    ensures q == RoundHalfEven(n, d) <==> NearestTiesToEven(n, d, q)
    ensures RoundHalfEven(-n, d) == -RoundHalfEven(n, d)
    ensures k * d > 0 && RoundHalfEven(k * n, k * d) == RoundHalfEven(n, d)
  {
    RoundIsNearest(n, d);
    if NearestTiesToEven(n, d, q) { NearestUnique(n, d, q, RoundHalfEven(n, d)); }
    var x := RoundHalfEven(n, d);
    MulPositive(k, d);
    NearestScales(n, d, x, k);
    RoundIsNearest(k * n, k * d);
    NearestUnique(k * n, k * d, x, RoundHalfEven(k * n, k * d));
  }

  /** A quotient that is whole is left alone. */
  lemma WholeQuotient(q: int, d: int)
    requires d > 0
    ensures RoundHalfEven(q * d, d) == q
  {
    RoundHalfEvenMeaning(q * d, d, q, 1);
  }

  lemma MulPositive(k: int, d: int)
    requires k > 0 && d > 0
    ensures k * d > 0
  { }

  lemma MulMonotone(k: int, a: int, b: int)
    requires k > 0
    ensures a <= b <==> k * a <= k * b
    ensures a == b <==> k * a == k * b
  { }

  lemma NearestScales(n: int, d: int, q: int, k: int)
    requires d > 0 && k > 0 && NearestTiesToEven(n, d, q)
    ensures NearestTiesToEven(k * n, k * d, q)
  {
    var e := 2 * (n - q * d);
    assert 2 * (k * n - q * (k * d)) == k * e by {
      assert q * (k * d) == k * (q * d);
      assert k * e == 2 * (k * n - k * (q * d));
    }
    MulMonotone(k, e, d);
    MulMonotone(k, -d, e);
    assert k * -d == -(k * d);
  }

  // ----- Scales

  lemma {:induction false} Pow10Adds(a: nat, b: nat)
    ensures Pow10(a + b) == Pow10(a) * Pow10(b)
    ensures Pow10(1) == 10
  {
    if a > 0 {
      Pow10Adds(a - 1, b);
      assert a + b - 1 == (a - 1) + b;
      TenTimes(Pow10(a - 1), Pow10(b));
    }
  }

  lemma TenTimes(x: int, y: int)
    ensures 10 * (x * y) == (10 * x) * y
  { }

  lemma ExactScalesUp(m: Amount, scale: nat, k: nat)
    requires m.scale <= scale
    ensures ExactAt(m, scale + k) == Pow10(k) * ExactAt(m, scale)
  {
    var gap := scale - m.scale;
    assert scale + k - m.scale == gap + k;
    Pow10Adds(gap, k);
    Regroup(m.unscaled, Pow10(gap), Pow10(k));
  }

  lemma Regroup(u: int, p: int, q: int)
    ensures u * (p * q) == q * (u * p)
  { }

  // ----- Conversion

  predicate RateApplies(rate: Rate, m: Amount, policy: FxPolicy, date: string, watermark: string) {
    rate.currency == m.currency
    && (policy.dated ==>
          && rate.effectiveDate == date
          && Parse(rate.asOf).Some? && Parse(watermark).Some?
          && Parse(rate.asOf).value <= Parse(watermark).value)
  }

  function Applies(m: Amount, policy: FxPolicy, date: string, watermark: string): Rate -> bool {
    rate => RateApplies(rate, m, policy, date, watermark)
  }

  /** None where no rate applies. */
  function ConvertMoney(m: Amount, policy: FxPolicy, date: string, watermark: string): Option<int> {
    var rate := FirstOf(policy.rates, Applies(m, policy, date, watermark));
    if rate.None? then None else Some(ConvertAt(m, rate.value, policy.targetScale))
  }

  function ConvertAt(m: Amount, rate: Rate, targetScale: nat): int {
    RoundHalfEven(m.unscaled * rate.unscaled * Pow10(targetScale), Pow10(m.scale + rate.scale))
  }

  /** Conversion depends on the exact value of the amount, never on the scale it is written at:
      at any scale that can hold the amount it is the same rounded quotient. */
  lemma ConvertAtScale(m: Amount, rate: Rate, targetScale: nat, scale: nat)
    requires m.scale <= scale
    ensures ConvertAt(m, rate, targetScale)
         == RoundHalfEven(ExactAt(m, scale) * (rate.unscaled * Pow10(targetScale)), Pow10(scale + rate.scale))
  {
    var gap := scale - m.scale;
    assert gap + (m.scale + rate.scale) == scale + rate.scale;
    Pow10Adds(gap, m.scale + rate.scale);
    RescaleQuotient(m.unscaled, rate.unscaled, Pow10(targetScale), Pow10(m.scale + rate.scale), Pow10(gap));
  }

  lemma RescaleQuotient(u: int, r: int, t: int, d: int, p: int)
    requires d > 0 && p > 0
    ensures p * d > 0 && RoundHalfEven(u * r * t, d) == RoundHalfEven((u * p) * (r * t), p * d)
  {
    Reorder(u, r, t, p);
    RoundHalfEvenMeaning(u * r * t, d, 0, p);
  }

  lemma Reorder(u: int, r: int, t: int, p: int)
    ensures (u * p) * (r * t) == p * (u * r * t)
  {
    var k := r * t;
    assert u * r * t == u * k;
    assert (u * p) * k == p * (u * k);
  }

  /** The rate is of the amount's currency; a dated policy also asks for the date, and for a rate published
      by the watermark. */
  function Usable(m: Amount, policy: FxPolicy, date: string, watermark: string): Rate -> bool {
    (rate: Rate) =>
      if policy.dated then
        && rate.currency == m.currency && rate.effectiveDate == date
        && Parse(rate.asOf).Some? && Parse(watermark).Some? && Parse(watermark).value >= Parse(rate.asOf).value
      else rate.currency == m.currency
  }

  /** An amount converts at the first usable rate, to the nearest unit of the target scale, a tie to the
      even one; and not at all exactly if no rate is usable. */
  lemma ConversionFollowsRules(m: Amount, policy: FxPolicy, date: string, watermark: string, units: int)
    ensures ConvertMoney(m, policy, date, watermark) == Some(units) <==>
      exists rate :: FirstWith(policy.rates, Usable(m, policy, date, watermark), rate)
        && NearestTiesToEven(m.unscaled * rate.unscaled * Pow10(policy.targetScale), Pow10(m.scale + rate.scale), units)
    ensures ConvertMoney(m, policy, date, watermark) == None <==>
      forall rate :: rate in policy.rates ==> !Usable(m, policy, date, watermark)(rate)
  {
    var f, g := Applies(m, policy, date, watermark), Usable(m, policy, date, watermark);
    FirstExt(policy.rates, f, g);
    FirstFound(policy.rates, g);
    forall rate
      ensures FirstOf(policy.rates, g) == Some(rate) <==> FirstWith(policy.rates, g, rate)
      ensures ConvertAt(m, rate, policy.targetScale) == units <==>
        NearestTiesToEven(m.unscaled * rate.unscaled * Pow10(policy.targetScale), Pow10(m.scale + rate.scale), units)
    {
      FirstMeaning(policy.rates, g, rate);
      ConvertAtNearest(m, rate, policy.targetScale, units);
    }
  }

  lemma ConvertAtNearest(m: Amount, rate: Rate, targetScale: nat, units: int)
    ensures ConvertAt(m, rate, targetScale) == units <==>
      NearestTiesToEven(m.unscaled * rate.unscaled * Pow10(targetScale), Pow10(m.scale + rate.scale), units)
  {
    RoundHalfEvenMeaning(m.unscaled * rate.unscaled * Pow10(targetScale), Pow10(m.scale + rate.scale), units, 1);
  }

  lemma EqualValuesConvertEqually(a: Amount, b: Amount, policy: FxPolicy, date: string, watermark: string, scale: nat)
    requires a.currency == b.currency && a.scale <= scale && b.scale <= scale
    requires ExactAt(a, scale) == ExactAt(b, scale)
    ensures ConvertMoney(a, policy, date, watermark) == ConvertMoney(b, policy, date, watermark)
  {
    FirstExt(policy.rates, Applies(a, policy, date, watermark), Applies(b, policy, date, watermark));
    var rate := FirstOf(policy.rates, Applies(a, policy, date, watermark));
    if rate.Some? {
      ConvertAtScale(a, rate.value, policy.targetScale, scale);
      ConvertAtScale(b, rate.value, policy.targetScale, scale);
    }
  }
}
