/** Purchase-net revenue, stated on the fields of the visible deliveries and on the admitted refunds. */
module RevenueRules {
  import opened Sequences
  import opened Timestamps
  import opened Money
  import opened Ledger
  import opened Decisions
  import opened NetRevenue
  import opened EngagementRules
  import E = Engagement
  import P = PolicyNet

  // ----- What adds to net revenue, and what reduces it

  ghost predicate Adds(metric: Metric, p: Attempt) {
    p.record.event == Purchase && p.record.payload.status == Settled && metric.verified(p) && metric.counts(p)
  }

  /** A verified reversal in view names the refund on the same server. */
  ghost predicate Undone(metric: Metric, visible: seq<Attempt>, r: Attempt) {
    exists d :: d in visible && Undoes(metric, d, r)
  }

  ghost predicate Undoes(metric: Metric, d: Attempt, r: Attempt) {
    && d.record.event == Refund && d.record.payload.status == Reversed && metric.verified(d)
    && d.server.tenantId == r.server.tenantId && d.server.appId == r.server.appId
    && d.record.payload.reverses == Some(r.record.recordId)
  }

  /** r is settled, was admitted against p, and still stands. */
  ghost predicate Reduces(metric: Metric, visible: seq<Attempt>, r: Attempt, p: Attempt) {
    && r.record.event == Refund && r.record.payload.status == Settled && metric.verified(r)
    && Admission(r, p) in AdmittedLog(visible)
    && (metric.linked ==> Adds(metric, p)) && metric.deducts(r, p)
    && (metric.cancels ==> !Undone(metric, visible, r))
  }

  ghost predicate ReducesSome(metric: Metric, visible: seq<Attempt>, r: Attempt) {
    exists p :: Reduces(metric, visible, r, p)
  }

  /** What one delivery adds, less what it takes away. */
  ghost function Effect(metric: Metric, visible: seq<Attempt>, a: Attempt, money: Attempt -> int): int {
    (if Adds(metric, a) then money(a) else 0) - (if ReducesSome(metric, visible, a) then money(a) else 0)
  }

  ghost function NetOfFirst(metric: Metric, visible: seq<Attempt>, n: nat, money: Attempt -> int): int
    requires n <= |visible|
  {
    if n == 0 then 0
    else NetOfFirst(metric, visible, n - 1, money) + Effect(metric, visible, visible[n - 1], money)
  }

  /** The target of a visible refund is the one it was admitted against. */
  lemma TargetMeaning(visible: seq<Attempt>, r: Attempt, p: Attempt)
    requires r in visible
    ensures TargetOf(r, visible) == Some(p) <==> Admission(r, p) in AdmittedLog(visible)
    ensures TargetOf(r, visible) == Some(p) ==> p in visible
  {
    WinnerMeaning(r, visible);
    if TargetOf(r, visible) == Some(p) {
      TargetMeansEntry(r, visible);
      TargetIsVisible(r, visible);
      var e :| e in AdmittedLog(visible) && e.refund == r;
      assert e == Admission(r, p);
    }
  }

  lemma DeductsMeaning(metric: Metric, visible: seq<Attempt>, r: Attempt, p: Attempt)
    requires r in visible
    ensures Deducts(metric, visible, r, p) <==> Reduces(metric, visible, r, p)
  {
    TargetMeaning(visible, r, p);
    forall d ensures CancelsRefund(metric, r)(d) <==> Undoes(metric, d, r) { }
  }

  lemma DeductedMeaning(metric: Metric, visible: seq<Attempt>, r: Attempt)
    requires r in visible
    ensures Deducted(metric, visible)(r) <==> ReducesSome(metric, visible, r)
  {
    if TargetOf(r, visible).Some? { DeductsMeaning(metric, visible, r, TargetOf(r, visible).value); }
    if p :| Reduces(metric, visible, r, p) { TargetMeaning(visible, r, p); }
  }

  function NetAmong(metric: Metric, visible: seq<Attempt>, some: seq<Attempt>, money: Attempt -> int): int {
    Sum(Filter(some, Counted(metric)), money) - Sum(Filter(some, Deducted(metric, visible)), money)
  }

  lemma OneDelivery(metric: Metric, visible: seq<Attempt>, some: seq<Attempt>, a: Attempt, money: Attempt -> int)
    requires a in visible
    ensures NetAmong(metric, visible, some + [a], money)
         == NetAmong(metric, visible, some, money) + Effect(metric, visible, a, money)
  {
    SumOneMore(some, a, Counted(metric), money);
    SumOneMore(some, a, Deducted(metric, visible), money);
    DeductedMeaning(metric, visible, a);
  }

  lemma {:induction false} FirstDeliveries(metric: Metric, visible: seq<Attempt>, n: nat, money: Attempt -> int)
    requires n <= |visible|
    ensures NetAmong(metric, visible, visible[..n], money) == NetOfFirst(metric, visible, n, money)
  {
    if n > 0 {
      FirstDeliveries(metric, visible, n - 1, money);
      assert visible[..n] == visible[..n - 1] + [visible[n - 1]];
      OneDelivery(metric, visible, visible[..n - 1], visible[n - 1], money);
    }
  }

  /** Net revenue: every verified settled purchase that counts adds its money; every verified settled refund
      admitted against a purchase it may reduce takes its money away, unless a reversal undoes it. */
  lemma NetFollowsRules(metric: Metric, visible: seq<Attempt>, money: Attempt -> int)
    ensures Net(metric, visible, money) == NetOfFirst(metric, visible, |visible|, money)
  {
    assert visible[..|visible|] == visible;
    FirstDeliveries(metric, visible, |visible|, money);
  }

  /** What is added for a delivery: its amount at the first usable rate of its currency and UTC date, to the
      nearest unit, and nothing where no rate is usable. */
  lemma MoneyFollowsRules(policy: FxPolicy, watermark: string, a: Attempt, units: int)
    requires Parse(a.record.occurredAt).Some?
    ensures var m, usable := a.record.payload.amount,
                             Usable(a.record.payload.amount, policy, a.record.occurredAt[..10], watermark);
      MoneyOf(policy, watermark)(a) == units <==>
        || (units == 0 && forall rate :: rate in policy.rates ==> !usable(rate))
        || exists rate :: FirstWith(policy.rates, usable, rate)
             && NearestTiesToEven(m.unscaled * rate.unscaled * Pow10(policy.targetScale),
                                  Pow10(m.scale + rate.scale), units)
  {
    ConversionFollowsRules(a.record.payload.amount, policy, a.record.occurredAt[..10], watermark, units);
    FirstIsListed(policy.rates, Usable(a.record.payload.amount, policy, a.record.occurredAt[..10], watermark));
  }

  lemma FirstIsListed(rates: seq<Rate>, f: Rate -> bool)
    ensures forall rate :: FirstWith(rates, f, rate) ==> rate in rates && f(rate)
  { }

  // ----- The metric of the engagement policy

  /** The item has the installation and the instant of the delivery. */
  ghost predicate Stands(a: Attempt, item: E.Item) {
    && item.scope.tenantId == a.server.tenantId && item.scope.appId == a.server.appId
    && item.scope.installationId == a.record.payload.installationId
    && Parse(a.record.occurredAt) == Some(item.at)
  }

  ghost predicate FromAdapter(a: Attempt) {
    && (exists name :: a.record.producer == "adapter:" + name)
    && a.server.policyDigest in {"verified-commerce-v1", "google-play-product-verification-v1"}
  }

  /** The open that wins the purchase earns the outcome. */
  ghost predicate WonAndEarned(rule: E.Rule, view: E.View, opens: seq<E.Open>, purchase: E.Item, outcome: E.Item) {
    exists i :: WonAt(rule, view, opens, i, purchase, outcome)
  }

  ghost predicate WonAt(rule: E.Rule, view: E.View, opens: seq<E.Open>, i: int, purchase: E.Item, outcome: E.Item) {
    WinsAt(opens, i, purchase) && EarnsFor(rule.window, rule.eligible, view, opens[i], outcome)
  }

  lemma SamePlaceWins(opens: seq<E.Open>, i: int, item: E.Item, other: E.Item)
    requires item.scope == other.scope && item.at == other.at
    ensures WinsAt(opens, i, item) <==> WinsAt(opens, i, other)
  {
    forall o ensures MayWin(o, item) <==> MayWin(o, other) { }
  }

  lemma AsItemMeaning(a: Attempt, item: E.Item)
    requires Stands(a, item)
    ensures P.AsItem(a).scope == item.scope && P.AsItem(a).at == item.at == P.Instant(a)
  { }

  lemma CreditedToMeaning(rule: E.Rule, view: E.View, opens: seq<E.Open>, p: Attempt, a: Attempt,
                          purchase: E.Item, outcome: E.Item)
    requires Stands(p, purchase) && Stands(a, outcome)
    ensures P.CreditedTo(rule, view, E.Winner(opens, P.AsItem(p)), P.AsItem(a))
       <==> WonAndEarned(rule, view, opens, purchase, outcome)
  {
    var item, winner := P.AsItem(p), E.Winner(opens, P.AsItem(p));
    AsItemMeaning(p, purchase);
    AsItemMeaning(a, outcome);
    if winner.Some? {
      var i := WinnerWins(opens, item, winner.value);
      SamePlaceWins(opens, i, item, purchase);
      AskedMeaning(view, winner.value);
      assert P.CreditedTo(rule, view, winner, P.AsItem(a)) ==> WonAt(rule, view, opens, i, purchase, outcome);
    }
    if i :| WonAt(rule, view, opens, i, purchase, outcome) {
      SamePlaceWins(opens, i, item, purchase);
      WinningPlace(opens, i, item);
      AskedMeaning(view, opens[i]);
    }
  }

  lemma FromAdapterMeaning(a: Attempt)
    ensures P.Verified(a) <==> FromAdapter(a)
  {
    var producer := a.record.producer;
    if "adapter:" <= producer { assert producer == "adapter:" + producer[|"adapter:"|..]; }
  }

  /** Under the policy a purchase counts exactly if the open that wins it earns it, and a refund reduces
      it exactly if it is no earlier and that same open earns it too. */
  lemma PolicyMetricFollowsRules(rule: E.Rule, view: E.View, opens: seq<E.Open>, p: Attempt, r: Attempt,
                                 purchase: E.Item, refund: E.Item)
    requires Stands(p, purchase) && Stands(r, refund)
    ensures var metric := P.PolicyMetric(rule, view, opens);
      && metric.linked && metric.cancels
      && (forall a :: metric.verified(a) <==> FromAdapter(a))
      && (metric.counts(p) <==> WonAndEarned(rule, view, opens, purchase, purchase))
      && (metric.deducts(r, p) <==> purchase.at <= refund.at && WonAndEarned(rule, view, opens, purchase, refund))
  {
    CreditedToMeaning(rule, view, opens, p, p, purchase, purchase);
    CreditedToMeaning(rule, view, opens, p, r, purchase, refund);
    AsItemMeaning(p, purchase);
    AsItemMeaning(r, refund);
    forall a ensures P.Verified(a) <==> FromAdapter(a) { FromAdapterMeaning(a); }
  }
}
