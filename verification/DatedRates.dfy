/** Dated rates and rounded net revenue: what must hold of a table of rates for a purchase, less its
    refunds, to stay above the error of rounding. */
module DatedRates {
  import opened Sequences
  import opened Ordering
  import opened Timestamps
  import opened Money
  import opened Ledger
  import opened NetRevenue

  // ----- The table of rates

  /** The rate is the one selected for amounts of its currency on its date. */
  predicate InForce(policy: FxPolicy, x: Rate, watermark: string) {
    Datable(x.effectiveDate)
    && FirstOf(policy.rates, Applies(Amount(0, 0, x.currency), policy, x.effectiveDate, watermark)) == Some(x)
  }

  /** No rate in force is higher than one of the same currency in force on an earlier date. */
  predicate NeverRises(policy: FxPolicy, watermark: string) {
    forall y, x :: y in policy.rates && x in policy.rates && Follows(policy, watermark, y, x) ==> RateAtMost(x, y)
  }

  /** Both rates are in force, for one currency, and x no earlier than y. */
  predicate Follows(policy: FxPolicy, watermark: string, y: Rate, x: Rate) {
    InForce(policy, y, watermark) && InForce(policy, x, watermark)
    && y.currency == x.currency && TextAtMost(y.effectiveDate, x.effectiveDate)
  }

  /** What a valid table promises: one rate per currency and date. */
  ghost predicate OneRatePerDate(rates: seq<Rate>) {
    forall i, j :: 0 <= i < j < |rates| ==>
      rates[i].currency != rates[j].currency || rates[i].effectiveDate != rates[j].effectiveDate
  }

  predicate PublishedBy(rate: Rate, watermark: string) {
    Parse(rate.asOf).Some? && Parse(watermark).Some? && Parse(rate.asOf).value <= Parse(watermark).value
  }

  /** In a valid table the rates in force are those published by the watermark, on dates there are. */
  lemma InForceOnTable(policy: FxPolicy, x: Rate, watermark: string)
    requires policy.dated && OneRatePerDate(policy.rates)
    ensures InForce(policy, x, watermark) <==>
              x in policy.rates && Datable(x.effectiveDate) && PublishedBy(x, watermark)
  {
    var applies := Applies(Amount(0, 0, x.currency), policy, x.effectiveDate, watermark);
    FirstFound(policy.rates, applies);
    if x in policy.rates && PublishedBy(x, watermark) {
      assert applies(x);
      OneOnTable(policy.rates, x, FirstOf(policy.rates, applies).value);
    }
  }

  lemma OneOnTable(rates: seq<Rate>, x: Rate, z: Rate)
    requires OneRatePerDate(rates) && x in rates && z in rates
    requires x.currency == z.currency && x.effectiveDate == z.effectiveDate
    ensures x == z
  { }

  /** The rate an amount is converted at is in force, on the day of its delivery. */
  lemma SelectedIsInForce(policy: FxPolicy, watermark: string, a: Attempt)
    requires policy.dated && Priced(policy, watermark, a) && Valid(a.record.occurredAt)
    ensures var x := RateFor(policy, watermark)(a);
      && x in policy.rates && InForce(policy, x, watermark)
      && x.currency == a.Body().amount.currency && x.effectiveDate == a.record.occurredAt[..10]
  {
    var applies := Applies(a.Body().amount, policy, EventDate(a), watermark);
    var x := FirstOf(policy.rates, applies).value;
    FirstFound(policy.rates, applies);
    FirstExt(policy.rates, applies, Applies(Amount(0, 0, x.currency), policy, x.effectiveDate, watermark));
    DateOfTimestamp(a.record.occurredAt);
  }

  // ----- Enough: rates that never rise

  lemma DeductedLater(metric: Metric, visible: seq<Attempt>, p: Attempt, r: Attempt)
    requires r in RefundsOf(metric, visible, p)
    ensures MatchesRefund(r, p)
  {
    FilterMember(visible, DeductedFrom(metric, visible, p), r);
    assert DeductedFrom(metric, visible, p)(r);
    TargetIsVisible(r, visible);
  }

  lemma RefundAtNoHigherRate(policy: FxPolicy, watermark: string, p: Attempt, r: Attempt)
    requires policy.dated && NeverRises(policy, watermark)
    requires MatchesRefund(r, p) && Priced(policy, watermark, p)
    ensures RateAtMost(RateFor(policy, watermark)(r), RateFor(policy, watermark)(p))
  {
    if Priced(policy, watermark, r) {
      SelectedIsInForce(policy, watermark, p);
      SelectedIsInForce(policy, watermark, r);
      DatesFollowInstants(p.record.occurredAt, r.record.occurredAt);
      assert Follows(policy, watermark, RateFor(policy, watermark)(p), RateFor(policy, watermark)(r));
    }
  }

  /** A purchase that has a rate is refunded at no higher rate, if the table is not dated or never
      rises. */
  lemma TableKeepsRates(metric: Metric, visible: seq<Attempt>, p: Attempt, policy: FxPolicy, watermark: string)
    requires policy.dated ==> NeverRises(policy, watermark) && Priced(policy, watermark, p)
    ensures NoHigherRates(metric, visible, p, RateFor(policy, watermark))
  {
    if policy.dated {
      forall r | r in RefundsOf(metric, visible, p)
        ensures RateAtMost(RateFor(policy, watermark)(r), RateFor(policy, watermark)(p))
      {
        DeductedLater(metric, visible, p, r);
        RefundAtNoHigherRate(policy, watermark, p, r);
      }
    } else {
      UndatedRatesAgree(metric, visible, p, policy, watermark);
    }
  }

  lemma {:induction false} SomeScales(visible: seq<Attempt>, rate: Attempt -> Rate) returns (scale: nat, rateScale: nat)
    ensures AllScalesFit(visible, scale) && RatesFit(visible, rate, rateScale)
  {
    scale, rateScale := 0, 0;
    if visible != [] {
      var front, last := visible[..|visible| - 1], visible[|visible| - 1];
      assert visible == front + [last];
      scale, rateScale := SomeScales(front, rate);
      scale, rateScale := Larger(scale, last.Body().amount.scale), Larger(rateScale, rate(last).scale);
    }
  }

  /** The rounded contribution of p is at least minus half a unit per amount converted. */
  ghost predicate Bounded(metric: Metric, visible: seq<Attempt>, p: Attempt, policy: FxPolicy, watermark: string) {
    2 * NetOf(metric, visible, MoneyOf(policy, watermark))(p) >= -(|RefundsOf(metric, visible, p)| + 1)
  }

  /** Rounded net is at least minus half a unit per amount converted. */
  ghost predicate BoundedInAll(metric: Metric, visible: seq<Attempt>, policy: FxPolicy, watermark: string) {
    2 * Net(metric, visible, MoneyOf(policy, watermark))
      >= -(|Refunds(metric, visible)| + |Purchases(metric, visible)|)
  }

  /** Under a table that is not dated or never rises, a counted purchase that has a rate is bounded,
      over every list of deliveries, whatever reversals and refunds without a rate are in it. */
  lemma TableBounds(metric: Metric, visible: seq<Attempt>, p: Attempt, policy: FxPolicy, watermark: string)
    requires InOrder(visible) && p in visible && Counts(metric, p)
    requires policy.dated ==> NeverRises(policy, watermark) && Priced(policy, watermark, p)
    ensures Bounded(metric, visible, p, policy, watermark)
  {
    var rate := RateFor(policy, watermark);
    var scale, rateScale := SomeScales(visible, rate);
    TableKeepsRates(metric, visible, p, policy, watermark);
    RoundedNetBound(metric, visible, p, rate, policy.targetScale, scale, rateScale);
    NetOfMoney(metric, visible, p, policy, watermark);
  }

  /** Refunds deduct only from counted purchases, and those have rates. */
  ghost predicate CoveredAndPriced(metric: Metric, visible: seq<Attempt>, policy: FxPolicy, watermark: string) {
    forall p :: p in visible ==>
      Covered(metric, visible, p) && (Counts(metric, p) ==> Priced(policy, watermark, p))
  }

  lemma NoRefundsNoHigherRates(metric: Metric, visible: seq<Attempt>, p: Attempt, rate: Attempt -> Rate)
    requires Covered(metric, visible, p) && !Counts(metric, p)
    ensures NoHigherRates(metric, visible, p, rate)
  { }

  /** And so is the whole metric. */
  lemma TableBoundsAll(metric: Metric, visible: seq<Attempt>, policy: FxPolicy, watermark: string)
    requires InOrder(visible) && forall a :: a in visible ==> BaseAccepted(a, visible)
    requires CoveredAndPriced(metric, visible, policy, watermark)
    requires policy.dated ==> NeverRises(policy, watermark)
    ensures BoundedInAll(metric, visible, policy, watermark)
  {
    var rate := RateFor(policy, watermark);
    var scale, rateScale := SomeScales(visible, rate);
    forall p | p in visible ensures Covered(metric, visible, p) && NoHigherRates(metric, visible, p, rate) {
      if Counts(metric, p) {
        TableKeepsRates(metric, visible, p, policy, watermark);
      } else {
        NoRefundsNoHigherRates(metric, visible, p, rate);
      }
    }
    RoundedTotalBound(metric, visible, rate, policy.targetScale, scale, rateScale);
    NetMoney(metric, visible, policy, watermark);
  }
}
