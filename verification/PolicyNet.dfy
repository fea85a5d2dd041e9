/** Purchase-net revenue under the engagement policy: a purchase is credited to its winning open,
    and a refund follows the open of its purchase, never a later one. */
module PolicyNet {
  import opened Sequences
  import opened Timestamps
  import opened Money
  import opened Ledger
  import E = Engagement
  import N = NetRevenue
  import A = AdmissionLoop
  import R = Restriction

  function Instant(a: Attempt): int {
    var t := Parse(a.record.occurredAt);
    if t.Some? then t.value else 0
  }

  /** The part of a delivery that decides which open it belongs to. */
  function AsItem(a: Attempt): E.Item {
    E.Item(E.Scope(a.server.tenantId, a.server.appId, a.Body().installationId), a.Id(),
           Instant(a), E.OtherKind, false, true, 0)
  }

  predicate Verified(a: Attempt) {
    "adapter:" <= a.record.producer
    && (a.server.policyDigest == "verified-commerce-v1"
        || a.server.policyDigest == "google-play-product-verification-v1")
  }

  /** The open is selected and eligible, and the item falls in its window. */
  predicate CreditedTo(rule: E.Rule, view: E.View, open: Option<E.Open>, item: E.Item) {
    open.Some? && E.Selected(view, open.value) && rule.eligible(open.value) && item.at < open.value.at + rule.window
  }

  /** Refunds deduct only from purchases that count, and reversals cancel them. */
  function PolicyMetric(rule: E.Rule, view: E.View, opens: seq<E.Open>): N.Metric {
    N.Metric(
      (p: Attempt) => CreditedTo(rule, view, E.Winner(opens, AsItem(p)), AsItem(p)),
      (r: Attempt, p: Attempt) =>
        Instant(p) <= Instant(r) && CreditedTo(rule, view, E.Winner(opens, AsItem(p)), AsItem(r)),
      (a: Attempt) => Verified(a),
      true, true)
  }

  /** The policy value where the metric is purchase-net revenue: undefined while a selected open is
      unknown or none is eligible, else the net of the policy. */
  method PolicyNetValue(opens: seq<E.Open>, included: seq<E.Item>, visible: seq<Attempt>, view: E.View,
                        window: int, days: nat, money: Attempt -> int) returns (result: E.PolicyResult)
    ensures result == if E.SomeUnknown(opens, included, days, view) then E.InsufficientHistory
                      else if !E.SomeEligible(opens, included, days, view) then E.EmptyCohort
                      else E.Value(N.Net(PolicyMetric(E.PolicyRule(window, included, days, view), view, opens),
                                         visible, money))
  {
    var unknown, eligible := E.PolicyPopulation(opens, included, view, days);
    if unknown { return E.InsufficientHistory; }
    if !eligible { return E.EmptyCohort; }
    var net := N.PurchaseNet(PolicyMetric(E.PolicyRule(window, included, days, view), view, opens), visible, money);
    result := E.Value(net);
  }

  /** A deducted refund and its purchase lie in the window of one and the same open, the latest one
      before the purchase, even if the installation opened another link before the refund. */
  lemma RefundFollowsItsPurchase(rule: E.Rule, view: E.View, opens: seq<E.Open>, visible: seq<Attempt>, r: Attempt)
    requires r in N.Refunds(PolicyMetric(rule, view, opens), visible)
    ensures TargetOf(r, visible).Some?
    ensures var p := TargetOf(r, visible).value;
            var open := E.Winner(opens, AsItem(p));
            && p in N.Purchases(PolicyMetric(rule, view, opens), visible)
            && open.Some? && open.value in opens && E.Selected(view, open.value) && rule.eligible(open.value)
            && open.value.at <= Instant(p) <= Instant(r) < open.value.at + rule.window
            && forall o :: o in opens && E.Precedes(AsItem(p))(o) ==> o.at <= open.value.at
  {
    var metric := PolicyMetric(rule, view, opens);
    FilterMember(visible, N.Deducted(metric, visible), r);
    assert N.Deducted(metric, visible)(r);
    var p := TargetOf(r, visible).value;
    assert N.Deducts(metric, visible, r, p);
    FilterMember(visible, N.Counted(metric), p);
    E.WinnerIsLatest(opens, AsItem(p));
  }

  /** Under the policy, over whatever facts are still visible, unrounded net is never negative and
      never above the counted purchases; and rounded net, where no refund converts at a higher rate
      than its purchase, is at least minus half a unit per counted purchase and deducted refund. */
  lemma PolicyNetBounds(rule: E.Rule, view: E.View, opens: seq<E.Open>, ledger: seq<Attempt>, keep: Attempt -> bool,
                        rate: Attempt -> Rate, targetScale: nat, scale: nat, rateScale: nat)
    requires InOrder(ledger) && N.AllScalesFit(ledger, scale) && N.RatesFit(ledger, rate, rateScale)
    ensures var metric, visible := PolicyMetric(rule, view, opens), R.Kept(ledger, keep);
      && 0 <= N.Net(metric, visible, A.UnitsAt(scale)) <= Sum(N.Purchases(metric, visible), A.UnitsAt(scale))
      && ((forall p :: p in visible ==> N.NoHigherRates(metric, visible, p, rate)) ==>
            2 * N.Net(metric, visible, N.Converted(rate, targetScale))
              >= -(|N.Refunds(metric, visible)| + |N.Purchases(metric, visible)|))
  {
    var metric, visible := PolicyMetric(rule, view, opens), R.Kept(ledger, keep);
    R.KeptIsFilter(ledger, keep);
    forall a | a in visible ensures BaseAccepted(a, visible) { R.KeptIsBase(ledger, keep, a); }
    forall p ensures N.Covered(metric, visible, p) { N.LinkedIsCovered(metric, visible, p); }
    ExactPolicyNet(metric, visible, scale);
    if forall p :: p in visible ==> N.NoHigherRates(metric, visible, p, rate) {
      N.RoundedTotalBound(metric, visible, rate, targetScale, scale, rateScale);
    }
  }

  lemma ExactPolicyNet(metric: N.Metric, visible: seq<Attempt>, scale: nat)
    requires InOrder(visible) && N.AllScalesFit(visible, scale)
    requires forall a :: a in visible ==> BaseAccepted(a, visible) && N.Covered(metric, visible, a)
    ensures 0 <= N.Net(metric, visible, A.UnitsAt(scale)) <= Sum(N.Purchases(metric, visible), A.UnitsAt(scale))
  {
    var units := A.UnitsAt(scale);
    N.NetByPurchase(metric, visible, units);
    FilterMembers(visible, N.IsPurchase());
    forall p | p in N.AllPurchases(visible) ensures N.NetOf(metric, visible, units)(p) >= 0 {
      N.ExactNetBounds(metric, visible, p, scale);
    }
    SumNonNegative(N.AllPurchases(visible), N.NetOf(metric, visible, units));
    SumNonNegative(N.Refunds(metric, visible), units);
  }
}
