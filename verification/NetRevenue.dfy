/** Purchase-net revenue over the visible facts: counted purchases minus the settled refunds that
    deduct, unless the definition cancels reversed refunds and a reversal names the refund. */
module NetRevenue {
  import opened Sequences
  import opened Money
  import opened Ledger
  import opened Caps
  import opened Decisions
  import opened AdmissionLoop

  /** What a metric definition decides: which settled purchases count, which settled refunds deduct
      from a purchase, which projections are verified, whether a refund deducts only from a purchase
      that counts (linked), and whether reversals cancel refunds (cancels). */
  datatype Metric = Metric(counts: Attempt -> bool, deducts: (Attempt, Attempt) -> bool, verified: Attempt -> bool,
                           linked: bool, cancels: bool)

  predicate Counts(metric: Metric, p: Attempt) {
    p.record.event.Purchase? && p.Body().status.Settled? && metric.verified(p) && metric.counts(p)
  }

  function Counted(metric: Metric): Attempt -> bool { (p: Attempt) => Counts(metric, p) }

  function CancelsRefund(metric: Metric, r: Attempt): Attempt -> bool {
    (d: Attempt) => d.record.event.Refund? && d.Body().status.Reversed? && metric.verified(d)
                    && d.SameTenant(r) && d.Body().reverses == Some(r.Id())
  }

  predicate Cancelled(metric: Metric, visible: seq<Attempt>, r: Attempt) {
    metric.cancels && exists d :: d in visible && CancelsRefund(metric, r)(d)
  }

  /** The refund counts against the purchase. */
  predicate Deducts(metric: Metric, visible: seq<Attempt>, r: Attempt, p: Attempt) {
    && r.record.event.Refund? && r.Body().status.Settled? && metric.verified(r)
    && TargetOf(r, visible) == Some(p) && p in visible && (metric.linked ==> Counts(metric, p)) && metric.deducts(r, p)
    && !Cancelled(metric, visible, r)
  }

  function DeductedFrom(metric: Metric, visible: seq<Attempt>, p: Attempt): Attempt -> bool {
    (r: Attempt) => Deducts(metric, visible, r, p)
  }

  function Deducted(metric: Metric, visible: seq<Attempt>): Attempt -> bool {
    (r: Attempt) => TargetOf(r, visible).Some? && Deducts(metric, visible, r, TargetOf(r, visible).value)
  }

  function Purchases(metric: Metric, visible: seq<Attempt>): seq<Attempt> { Filter(visible, Counted(metric)) }

  function Refunds(metric: Metric, visible: seq<Attempt>): seq<Attempt> { Filter(visible, Deducted(metric, visible)) }

  function Net(metric: Metric, visible: seq<Attempt>, money: Attempt -> int): int {
    Sum(Purchases(metric, visible), money) - Sum(Refunds(metric, visible), money)
  }

  function RefundsOf(metric: Metric, visible: seq<Attempt>, p: Attempt): seq<Attempt> {
    Filter(visible, DeductedFrom(metric, visible, p))
  }

  /** What a purchase adds by itself. */
  function GrossOf(metric: Metric, money: Attempt -> int, p: Attempt): int { if Counts(metric, p) then money(p) else 0 }

  function Gross(metric: Metric, money: Attempt -> int): Attempt -> int { (p: Attempt) => GrossOf(metric, money, p) }

  function RefundSum(metric: Metric, visible: seq<Attempt>, money: Attempt -> int): Attempt -> int {
    (p: Attempt) => Sum(RefundsOf(metric, visible, p), money)
  }

  /** The net contribution of one purchase, counted or not. */
  function NetOf(metric: Metric, visible: seq<Attempt>, money: Attempt -> int): Attempt -> int {
    (p: Attempt) => GrossOf(metric, money, p) - Sum(RefundsOf(metric, visible, p), money)
  }

  function IsPurchase(): Attempt -> bool { (p: Attempt) => p.record.event.Purchase? }

  function AllPurchases(visible: seq<Attempt>): seq<Attempt> { Filter(visible, IsPurchase()) }

  // ----- The loops

  datatype PurchaseKey = PurchaseKey(tenantId: string, appId: string, recordId: string)

  function KeyOfPurchase(a: Attempt): PurchaseKey { PurchaseKey(a.server.tenantId, a.server.appId, a.Id()) }

  ghost predicate Remembers(purchases: map<PurchaseKey, Attempt>, metric: Metric, seen: seq<Attempt>) {
    && (forall k :: k in purchases ==>
          purchases[k] in seen && Counted(metric)(purchases[k]) && KeyOfPurchase(purchases[k]) == k)
    && (forall p :: p in seen && Counted(metric)(p) ==> KeyOfPurchase(p) in purchases)
  }

  lemma RememberMore(purchases: map<PurchaseKey, Attempt>, metric: Metric, seen: seq<Attempt>, a: Attempt)
    requires Remembers(purchases, metric, seen)
    ensures Counted(metric)(a) ==> Remembers(purchases[KeyOfPurchase(a) := a], metric, seen + [a])
    ensures !Counted(metric)(a) ==> Remembers(purchases, metric, seen + [a])
  {
    forall x ensures x in seen + [a] <==> x in seen || x == a { }
  }

  /** First pass: count purchases and remember them by key. */
  method CountPurchases(metric: Metric, visible: seq<Attempt>, money: Attempt -> int)
    returns (purchases: map<PurchaseKey, Attempt>, value: int)
    ensures Remembers(purchases, metric, visible)
    ensures value == Sum(Purchases(metric, visible), money)
  {
    purchases, value := map[], 0;
    for i := 0 to |visible|
      invariant value == Sum(Filter(visible[..i], Counted(metric)), money)
      invariant Remembers(purchases, metric, visible[..i])
    {
      assert visible[..i + 1] == visible[..i] + [visible[i]];
      SumOneMore(visible[..i], visible[i], Counted(metric), money);
      RememberMore(purchases, metric, visible[..i], visible[i]);
      if Counted(metric)(visible[i]) {
        purchases := purchases[KeyOfPurchase(visible[i]) := visible[i]];
        value := value + money(visible[i]);
      }
    }
    assert visible[..|visible|] == visible;
  }

  /** Remembering a purchase by key is as good as testing it. */
  lemma RememberedIsCounted(metric: Metric, visible: seq<Attempt>, purchases: map<PurchaseKey, Attempt>, t: Attempt)
    requires Remembers(purchases, metric, visible) && t in visible && BaseAccepted(t, visible)
    ensures KeyOfPurchase(t) in purchases <==> Counted(metric)(t)
  {
    if KeyOfPurchase(t) in purchases { BaseById(t, purchases[KeyOfPurchase(t)], visible); }
  }

  method IsDeducted(metric: Metric, visible: seq<Attempt>, purchases: map<PurchaseKey, Attempt>, r: Attempt)
    returns (deducted: bool)
    requires Remembers(purchases, metric, visible)
    ensures deducted == Deducted(metric, visible)(r)
  {
    var target := ResolveRefundTarget(r, visible);
    if target.None? {
      assert !Deducted(metric, visible)(r);
      return false;
    }
    TargetIsVisible(r, visible);
    RememberedIsCounted(metric, visible, purchases, target.value);
    deducted := r.record.event.Refund? && r.Body().status.Settled? && metric.verified(r)
      && (metric.linked ==> KeyOfPurchase(target.value) in purchases)
      && metric.deducts(r, target.value) && !Cancelled(metric, visible, r);
    assert deducted == Deducts(metric, visible, r, target.value);
  }

  /** Both passes: the accumulated value is the net of the definition. */
  method PurchaseNet(metric: Metric, visible: seq<Attempt>, money: Attempt -> int) returns (value: int)
    ensures value == Net(metric, visible, money)
  {
    var purchases, gross := CountPurchases(metric, visible, money);
    value := gross;
    ghost var deducts := Deducted(metric, visible);
    for i := 0 to |visible|
      invariant value == gross - Sum(Filter(visible[..i], deducts), money)
    {
      assert visible[..i + 1] == visible[..i] + [visible[i]];
      SumOneMore(visible[..i], visible[i], deducts, money);
      var deducted := IsDeducted(metric, visible, purchases, visible[i]);
      if deducted { value := value - money(visible[i]); }
    }
    assert visible[..|visible|] == visible;
  }

  lemma TargetIsVisible(r: Attempt, visible: seq<Attempt>)
    requires TargetOf(r, visible).Some?
    ensures TargetOf(r, visible).value in visible && BaseAccepted(TargetOf(r, visible).value, visible)
    ensures MatchesRefund(r, TargetOf(r, visible).value) || r !in visible
  {
    var log := AdmittedLog(visible);
    FirstFound(log, ForAttempt(r));
    var e := FirstOf(log, ForAttempt(r)).value;
    LogEntry(e, visible);
    ResolvedTarget(e.refund, visible);
    if r in visible { BaseById(e.refund, r, visible); }
  }

  // ----- Net by purchase

  function TargetClass(visible: seq<Attempt>): Attempt -> Option<Attempt> { (r: Attempt) => TargetOf(r, visible) }

  lemma RefundsOfIsClass(metric: Metric, visible: seq<Attempt>, p: Attempt)
    ensures RefundsOf(metric, visible, p) == Filter(Refunds(metric, visible), OfClass(TargetClass(visible), Some(p)))
  {
    FilterFilter(visible, Deducted(metric, visible), OfClass(TargetClass(visible), Some(p)),
                 DeductedFrom(metric, visible, p));
  }

  lemma PurchasesDistinct(visible: seq<Attempt>)
    requires forall a :: a in visible ==> BaseAccepted(a, visible)
    ensures Distinct(AllPurchases(visible))
  {
    OnceEach(visible, IsPurchase());
  }

  function Wrap(s: seq<Attempt>): seq<Option<Attempt>> { seq(|s|, i requires 0 <= i < |s| => Some(s[i])) }

  lemma {:induction false} SumWrap(s: seq<Attempt>, g: Attempt -> int, h: Option<Attempt> -> int)
    requires forall a :: a in s ==> h(Some(a)) == g(a)
    ensures Sum(Wrap(s), h) == Sum(s, g)
  {
    if s != [] {
      SumWrap(s[..|s| - 1], g, h);
      assert Wrap(s)[..|s| - 1] == Wrap(s[..|s| - 1]);
    }
  }

  lemma TargetsArePurchases(metric: Metric, visible: seq<Attempt>, r: Attempt)
    requires r in Refunds(metric, visible)
    ensures TargetClass(visible)(r) in Wrap(AllPurchases(visible))
  {
    var purchases := AllPurchases(visible);
    FilterMember(visible, Deducted(metric, visible), r);
    assert Deducted(metric, visible)(r);
    TargetIsVisible(r, visible);
    var p := TargetOf(r, visible).value;
    FilterMember(visible, IsPurchase(), p);
    var i :| 0 <= i < |purchases| && purchases[i] == p;
    assert Wrap(purchases)[i] == Some(p);
  }

  /** Every deducted refund is deducted from exactly one purchase. */
  lemma RefundsByPurchase(metric: Metric, visible: seq<Attempt>, money: Attempt -> int)
    requires forall a :: a in visible ==> BaseAccepted(a, visible)
    ensures Sum(Refunds(metric, visible), money) == Sum(AllPurchases(visible), RefundSum(metric, visible, money))
  {
    var refunds, purchases, kind := Refunds(metric, visible), AllPurchases(visible), TargetClass(visible);
    PurchasesDistinct(visible);
    forall r | r in refunds ensures kind(r) in Wrap(purchases) { TargetsArePurchases(metric, visible, r); }
    SumByClass(refunds, Wrap(purchases), kind, money);
    forall p ensures ClassSum(refunds, kind, money)(Some(p)) == RefundSum(metric, visible, money)(p) {
      RefundsOfIsClass(metric, visible, p);
    }
    SumWrap(purchases, RefundSum(metric, visible, money), ClassSum(refunds, kind, money));
  }

  lemma {:induction false} GrossByPurchase(metric: Metric, visible: seq<Attempt>, money: Attempt -> int)
    ensures Sum(Purchases(metric, visible), money) == Sum(AllPurchases(visible), Gross(metric, money))
  {
    if visible != [] {
      var front, last := visible[..|visible| - 1], visible[|visible| - 1];
      assert visible == front + [last];
      GrossByPurchase(metric, front, money);
      SumOneMore(front, last, Counted(metric), money);
      SumOneMore(front, last, IsPurchase(), Gross(metric, money));
    }
  }

  lemma {:induction false} SumDifference<T>(s: seq<T>, f: T -> int, g: T -> int, h: T -> int)
    requires forall x :: x in s ==> h(x) == f(x) - g(x)
    ensures Sum(s, h) == Sum(s, f) - Sum(s, g)
  {
    if s != [] {
      SumDifference(s[..|s| - 1], f, g, h);
      assert s[|s| - 1] in s;
    }
  }

  /** Net revenue is the sum of the net contributions of the visible purchases. */
  lemma NetByPurchase(metric: Metric, visible: seq<Attempt>, money: Attempt -> int)
    requires forall a :: a in visible ==> BaseAccepted(a, visible)
    ensures Net(metric, visible, money) == Sum(AllPurchases(visible), NetOf(metric, visible, money))
  {
    RefundsByPurchase(metric, visible, money);
    GrossByPurchase(metric, visible, money);
    SumDifference(AllPurchases(visible), Gross(metric, money), RefundSum(metric, visible, money),
                  NetOf(metric, visible, money));
  }

  // ----- Unrounded net lies between zero and the purchase

  lemma RefundedMore(log: Log, news: Log, p: Attempt, scale: nat)
    ensures Refunded(log + news, p, scale) == Refunded(log, p, scale) + Refunded(news, p, scale)
    ensures Refunded(news, p, scale) >= 0
  {
    FilterConcat(log, news, SettledOn(p));
    SumConcat(Filter(log, SettledOn(p)), Filter(news, SettledOn(p)), RefundUnits(scale));
    SumNonNegative(Filter(news, SettledOn(p)), RefundUnits(scale));
  }

  lemma RefundedOne(r: Attempt, p: Attempt, scale: nat)
    requires r.Body().status.Settled?
    ensures Refunded([Admission(r, p)], p, scale) == Units(r, scale)
  {
    var e := Admission(r, p);
    FilterOne(e, SettledOn(p));
    assert Filter([e], SettledOn(p)) == [e] && [e][..0] == [];
    assert Sum([e], RefundUnits(scale)) == Sum([], RefundUnits(scale)) + RefundUnits(scale)(e);
  }

  /** Refunds with a settled entry against p are worth no more than those entries. */
  lemma {:induction false} WithinLog(refunds: seq<Attempt>, ledger: seq<Attempt>, p: Attempt, d: Attempt -> bool,
                                     scale: nat)
    requires DistinctIds(refunds)
    requires Logged(refunds, Admit(refunds, ledger), p, d)
    ensures Sum(Filter(refunds, d), UnitsAt(scale)) <= Refunded(Admit(refunds, ledger), p, scale)
  {
    if refunds != [] {
      var front, last := refunds[..|refunds| - 1], refunds[|refunds| - 1];
      assert refunds == front + [last];
      var news := OneMore(front, last, ledger);
      LastIsNew(front, last);
      AdmitLog(front, ledger);
      FrontLogged(front, last, Admit(front, ledger), news, p, d);
      WithinLog(front, ledger, p, d, scale);
      RefundedMore(Admit(front, ledger), news, p, scale);
      if d(last) {
        LastLogged(front, last, Admit(front, ledger), news, p, d);
        RefundedOne(last, p, scale);
      }
    }
  }

  /** Every refund that passes d has a settled entry against p. */
  ghost predicate Logged(refunds: seq<Attempt>, log: Log, p: Attempt, d: Attempt -> bool) {
    forall r :: r in refunds && d(r) ==> r.Body().status.Settled? && Admission(r, p) in log
  }

  lemma FrontLogged(front: seq<Attempt>, last: Attempt, before: Log, news: Log, p: Attempt, d: Attempt -> bool)
    requires Logged(front + [last], before + news, p, d)
    requires last !in front && forall e :: e in news ==> e.refund == last
    ensures Logged(front, before, p, d)
  { }

  lemma LastLogged(front: seq<Attempt>, last: Attempt, before: Log, news: Log, p: Attempt, d: Attempt -> bool)
    requires Logged(front + [last], before + news, p, d) && d(last)
    requires |news| <= 1 && forall e :: e in before ==> e.refund != last
    ensures last.Body().status.Settled? && news == [Admission(last, p)]
  { }

  lemma LastIsNew(front: seq<Attempt>, last: Attempt)
    requires DistinctIds(front + [last])
    ensures last !in front && DistinctIds(front)
  {
    var all := front + [last];
    forall i, j | 0 <= i < j < |front|
      ensures front[i].Id() != front[j].Id()
    {
      assert all[i] == front[i] && all[j] == front[j];
    }
    forall i | 0 <= i < |front| ensures front[i] != last { assert all[i].Id() != all[|front|].Id(); }
  }

  lemma OneMore(front: seq<Attempt>, r: Attempt, ledger: seq<Attempt>) returns (news: Log)
    ensures Admit(front + [r], ledger) == Admit(front, ledger) + news && |news| <= 1
    ensures forall e :: e in news ==> e.refund == r
  {
    AdmitLast(front, r, ledger);
    var target := Resolve(r, ledger);
    news := if target.Some? && Admissible(r, target.value, Admit(front, ledger)) then [Admission(r, target.value)]
            else [];
  }

  lemma DeductedIsLogged(metric: Metric, visible: seq<Attempt>, p: Attempt, r: Attempt)
    requires r in visible && DeductedFrom(metric, visible, p)(r)
    ensures RefundCandidate(visible)(r) && Admission(r, p) in AdmittedLog(visible)
  {
    TargetMeansEntry(r, visible);
    var e :| e in AdmittedLog(visible) && e.refund == r;
    LogEntry(e, visible);
    WinnerMeaning(r, visible);
    assert e == Admission(r, p);
  }

  /** What is deducted from a purchase is within what was admitted against it. */
  lemma DeductedWithinAdmitted(metric: Metric, visible: seq<Attempt>, p: Attempt, scale: nat)
    requires InOrder(visible)
    ensures Sum(RefundsOf(metric, visible, p), UnitsAt(scale)) <= Refunded(AdmittedLog(visible), p, scale)
  {
    var d := DeductedFrom(metric, visible, p);
    OfferedInOrder(visible);
    OfferedOnce(visible);
    OfferedMembers(visible);
    forall r | r in visible && d(r) ensures RefundCandidate(visible)(r) && Admission(r, p) in AdmittedLog(visible) {
      DeductedIsLogged(metric, visible, p, r);
    }
    FilterFilter(visible, RefundCandidate(visible), d, d);
    WithinLog(Offered(visible), visible, p, d, scale);
  }

  ghost predicate AllScalesFit(ledger: seq<Attempt>, scale: nat) {
    forall a :: a in ledger ==> a.Body().amount.scale <= scale
  }

  /** Refunds never take more off a purchase than it was worth: at any scale that holds the purchase
      and what deducts from it. */
  lemma RefundsWithinPurchase(metric: Metric, visible: seq<Attempt>, p: Attempt, scale: nat)
    requires InOrder(visible) && AllScalesFit(visible, scale) && p in visible
    ensures 0 <= RefundSum(metric, visible, UnitsAt(scale))(p) <= Units(p, scale)
  {
    DeductedWithinAdmitted(metric, visible, p, scale);
    AdmitLog(Offered(visible), visible);
    OfferedMembers(visible);
    FilterMembers(AdmittedLog(visible), SettledOn(p));
    CumulativeCap(Offered(visible), visible, p, scale);
    SumNonNegative(RefundsOf(metric, visible, p), UnitsAt(scale));
  }

  /** A refund deducts only from a counted purchase. */
  ghost predicate Covered(metric: Metric, visible: seq<Attempt>, p: Attempt) {
    Counts(metric, p) || RefundsOf(metric, visible, p) == []
  }

  lemma LinkedIsCovered(metric: Metric, visible: seq<Attempt>, p: Attempt)
    requires metric.linked
    ensures Covered(metric, visible, p)
  {
    if !Counts(metric, p) { FilterNone(visible, DeductedFrom(metric, visible, p)); }
  }

  /** Unrounded net per purchase: over any ledger, whatever the metric counts and however many
      reversals name a refund, a purchase contributes at most its amount; and it contributes less
      than nothing exactly if it does not count itself but money is deducted from it. */
  lemma ExactNetBounds(metric: Metric, visible: seq<Attempt>, p: Attempt, scale: nat)
    requires InOrder(visible) && p in visible && AllScalesFit(visible, scale)
    ensures NetOf(metric, visible, UnitsAt(scale))(p) <= Units(p, scale)
    ensures NetOf(metric, visible, UnitsAt(scale))(p) < 0
       <==> !Counts(metric, p) && RefundSum(metric, visible, UnitsAt(scale))(p) > 0
    ensures Covered(metric, visible, p) ==> NetOf(metric, visible, UnitsAt(scale))(p) >= 0
  {
    RefundsWithinPurchase(metric, visible, p, scale);
  }

  // ----- Rounded net

  /** Every delivery converted on its own, at the rate that applies to it. */
  function Converted(rate: Attempt -> Rate, targetScale: nat): Attempt -> int {
    (a: Attempt) => ConvertAt(a.Body().amount, rate(a), targetScale)
  }

  /** The rate `convert_money` selects for a delivery, and a rate of zero where there is none. Then an
      evaluation under dated rates adds nothing and leaves the value undefined, and one under undated
      rates stops. */
  function RateFor(policy: FxPolicy, watermark: string): Attempt -> Rate {
    (a: Attempt) =>
      var rate := FirstOf(policy.rates, Applies(a.Body().amount, policy, EventDate(a), watermark));
      if rate.Some? then rate.value else Rate("", 0, 0, "", "")
  }

  function EventDate(a: Attempt): string { if |a.record.occurredAt| < 10 then "" else a.record.occurredAt[..10] }

  /** A rate applies to the delivery. */
  predicate Priced(policy: FxPolicy, watermark: string, a: Attempt) {
    ConvertMoney(a.Body().amount, policy, EventDate(a), watermark).Some?
  }

  /** What the evaluation adds for a delivery: what `convert_money` returns, or nothing. */
  function MoneyOf(policy: FxPolicy, watermark: string): Attempt -> int {
    (a: Attempt) =>
      if Priced(policy, watermark, a) then ConvertMoney(a.Body().amount, policy, EventDate(a), watermark).value else 0
  }

  lemma ZeroRate(m: Amount, targetScale: nat)
    ensures ConvertAt(m, Rate("", 0, 0, "", ""), targetScale) == 0
  {
    WholeQuotient(0, Pow10(m.scale));
  }

  lemma MoneyIsConverted(policy: FxPolicy, watermark: string, a: Attempt)
    ensures MoneyOf(policy, watermark)(a) == Converted(RateFor(policy, watermark), policy.targetScale)(a)
  {
    if !Priced(policy, watermark, a) { ZeroRate(a.Body().amount, policy.targetScale); }
  }

  lemma NetOfMoney(metric: Metric, visible: seq<Attempt>, p: Attempt, policy: FxPolicy, watermark: string)
    ensures NetOf(metric, visible, MoneyOf(policy, watermark))(p)
         == NetOf(metric, visible, Converted(RateFor(policy, watermark), policy.targetScale))(p)
  {
    var money, converted := MoneyOf(policy, watermark), Converted(RateFor(policy, watermark), policy.targetScale);
    forall a ensures money(a) == converted(a) { MoneyIsConverted(policy, watermark, a); }
    SumExt(RefundsOf(metric, visible, p), money, converted);
  }

  lemma NetMoney(metric: Metric, visible: seq<Attempt>, policy: FxPolicy, watermark: string)
    ensures Net(metric, visible, MoneyOf(policy, watermark))
         == Net(metric, visible, Converted(RateFor(policy, watermark), policy.targetScale))
  {
    var money, converted := MoneyOf(policy, watermark), Converted(RateFor(policy, watermark), policy.targetScale);
    forall a ensures money(a) == converted(a) { MoneyIsConverted(policy, watermark, a); }
    SumExt(Purchases(metric, visible), money, converted);
    SumExt(Refunds(metric, visible), money, converted);
  }

  lemma OneRatePerCurrency(policy: FxPolicy, watermark: string, a: Attempt, b: Attempt)
    requires !policy.dated && a.Body().amount.currency == b.Body().amount.currency
    ensures RateFor(policy, watermark)(a) == RateFor(policy, watermark)(b)
  {
    FirstExt(policy.rates, Applies(a.Body().amount, policy, EventDate(a), watermark),
              Applies(b.Body().amount, policy, EventDate(b), watermark));
  }

  lemma DeductedInCurrency(metric: Metric, visible: seq<Attempt>, p: Attempt, r: Attempt)
    requires r in RefundsOf(metric, visible, p)
    ensures r.Body().amount.currency == p.Body().amount.currency
  {
    FilterMember(visible, DeductedFrom(metric, visible, p), r);
    assert DeductedFrom(metric, visible, p)(r);
    TargetIsVisible(r, visible);
  }

  /** Without dated rates every deducted refund converts at the rate of its purchase, because it is in
      the same currency. */
  lemma UndatedRatesAgree(metric: Metric, visible: seq<Attempt>, p: Attempt, policy: FxPolicy, watermark: string)
    requires !policy.dated
    ensures forall r :: r in RefundsOf(metric, visible, p) ==>
              RateFor(policy, watermark)(r) == RateFor(policy, watermark)(p)
    ensures NoHigherRates(metric, visible, p, RateFor(policy, watermark))
  {
    forall r | r in RefundsOf(metric, visible, p)
      ensures RateFor(policy, watermark)(r) == RateFor(policy, watermark)(p)
    {
      DeductedInCurrency(metric, visible, p, r);
      OneRatePerCurrency(policy, watermark, r, p);
    }
  }

  ghost predicate RatesFit(visible: seq<Attempt>, rate: Attempt -> Rate, rateScale: nat) {
    forall a :: a in visible ==> rate(a).scale <= rateScale
  }

  /** The exact converted value, in units of 10^-(scale + rateScale) target units. */
  function Exactly(rate: Attempt -> Rate, targetScale: nat, scale: nat, rateScale: nat): Attempt -> int {
    (a: Attempt) => Units(a, scale) * Factor(rate(a), targetScale, rateScale)
  }

  function Factor(rate: Rate, targetScale: nat, rateScale: nat): int {
    if rate.scale <= rateScale then RateUnits(rate, rateScale) * Pow10(targetScale) else 0
  }

  function RateUnits(rate: Rate, rateScale: nat): int
    requires rate.scale <= rateScale
  {
    rate.unscaled * Pow10(rateScale - rate.scale)
  }

  /** x rounded units stand for the exact value v / d up to n half units. */
  ghost predicate Near(v: int, x: int, d: int, n: int) { -(n * d) <= 2 * (v - x * d) <= n * d }

  lemma ConversionError(a: Attempt, rate: Attempt -> Rate, targetScale: nat, scale: nat, rateScale: nat)
    requires a.Body().amount.scale <= scale && rate(a).scale <= rateScale
    ensures Near(Exactly(rate, targetScale, scale, rateScale)(a), Converted(rate, targetScale)(a),
                 Pow10(scale + rateScale), 1)
  {
    var u, x, gap := Units(a, scale), rate(a), rateScale - rate(a).scale;
    ConvertAtScale(a.Body().amount, x, targetScale, scale);
    assert gap + (scale + x.scale) == scale + rateScale;
    Pow10Adds(gap, scale + x.scale);
    RoundHalfEvenMeaning(u * (x.unscaled * Pow10(targetScale)), Pow10(scale + x.scale), 0, Pow10(gap));
    Rearrange(u, x.unscaled, Pow10(targetScale), Pow10(gap));
    RoundIsNearest(u * Factor(x, targetScale, rateScale), Pow10(scale + rateScale));
  }

  lemma Rearrange(u: int, r: int, t: int, p: int)
    ensures p * (u * (r * t)) == u * ((r * p) * t)
  {
    assert (r * p) * t == p * (r * t);
    assert p * (u * (r * t)) == u * (p * (r * t));
  }

  lemma NearAdds(v: int, w: int, x: int, y: int, d: int, n: int)
    requires Near(v, x, d, n) && Near(w, y, d, 1)
    ensures Near(v + w, x + y, d, n + 1)
  { }

  lemma {:induction false} SumConversionError(s: seq<Attempt>, rate: Attempt -> Rate, targetScale: nat, scale: nat,
                                              rateScale: nat)
    requires AllScalesFit(s, scale) && RatesFit(s, rate, rateScale)
    ensures Near(Sum(s, Exactly(rate, targetScale, scale, rateScale)), Sum(s, Converted(rate, targetScale)),
                 Pow10(scale + rateScale), |s|)
  {
    if s != [] {
      var front, last := s[..|s| - 1], s[|s| - 1];
      SumConversionError(front, rate, targetScale, scale, rateScale);
      ConversionError(last, rate, targetScale, scale, rateScale);
      NearAdds(Sum(front, Exactly(rate, targetScale, scale, rateScale)),
               Exactly(rate, targetScale, scale, rateScale)(last),
               Sum(front, Converted(rate, targetScale)), Converted(rate, targetScale)(last),
               Pow10(scale + rateScale), |front|);
    }
  }

  /** One rate is no higher than another, whatever scales they are written at. */
  predicate RateAtMost(x: Rate, y: Rate) { x.unscaled * Pow10(y.scale) <= y.unscaled * Pow10(x.scale) }

  lemma LowerFactor(x: Rate, y: Rate, targetScale: nat, rateScale: nat)
    requires x.scale <= rateScale && y.scale <= rateScale
    ensures RateAtMost(x, y) <==> Factor(x, targetScale, rateScale) <= Factor(y, targetScale, rateScale)
  {
    LowerUnits(x, y, rateScale);
    Commute(RateUnits(x, rateScale), Pow10(targetScale));
    Commute(RateUnits(y, rateScale), Pow10(targetScale));
    MulMonotone(Pow10(targetScale), RateUnits(x, rateScale), RateUnits(y, rateScale));
  }

  lemma LowerUnits(x: Rate, y: Rate, rateScale: nat)
    requires x.scale <= rateScale && y.scale <= rateScale
    ensures RateAtMost(x, y) <==> RateUnits(x, rateScale) <= RateUnits(y, rateScale)
  {
    WholeRate(x, rateScale);
    WholeRate(y, rateScale);
    CrossMultiply(RateUnits(x, rateScale), RateUnits(y, rateScale), x.unscaled, y.unscaled,
                  Pow10(x.scale), Pow10(y.scale), Pow10(rateScale));
  }

  lemma WholeRate(x: Rate, rateScale: nat)
    requires x.scale <= rateScale
    ensures RateUnits(x, rateScale) * Pow10(x.scale) == x.unscaled * Pow10(rateScale)
  {
    Pow10Adds(rateScale - x.scale, x.scale);
    Associate(x.unscaled, Pow10(rateScale - x.scale), Pow10(x.scale));
  }

  lemma Commute(a: int, b: int)
    ensures a * b == b * a
  { }

  lemma Associate(a: int, b: int, c: int)
    ensures (a * b) * c == a * (b * c)
  { }

  lemma CrossMultiply(a: int, b: int, x: int, y: int, p: int, q: int, w: int)
    requires p > 0 && q > 0 && w > 0 && a * p == x * w && b * q == y * w
    ensures x * q <= y * p <==> a <= b
  {
    Regrouped(a, p, x, w, q);
    Regrouped(b, q, y, w, p);
    Commute(p, q);
    MulPositive(p, q);
    MulMonotone(w, x * q, y * p);
    MulMonotone(p * q, a, b);
  }

  lemma Regrouped(a: int, p: int, x: int, w: int, q: int)
    requires a * p == x * w
    ensures w * (x * q) == (p * q) * a
  {
    Associate(w, x, q);
    Commute(w, x);
    Associate(a, p, q);
    Commute(a, p * q);
  }

  /** No refund deducted from p converts at a higher rate than p. */
  ghost predicate NoHigherRates(metric: Metric, visible: seq<Attempt>, p: Attempt, rate: Attempt -> Rate) {
    forall r :: r in RefundsOf(metric, visible, p) ==> RateAtMost(rate(r), rate(p))
  }

  lemma {:induction false} SumAtLowerRates(s: seq<Attempt>, rate: Attempt -> Rate, k: int, targetScale: nat, scale: nat,
                                           rateScale: nat)
    requires forall r :: r in s ==> Factor(rate(r), targetScale, rateScale) <= k
    ensures Sum(s, Exactly(rate, targetScale, scale, rateScale)) <= Sum(s, UnitsAt(scale)) * k
  {
    if s != [] {
      var front, last := s[..|s| - 1], s[|s| - 1];
      SumAtLowerRates(front, rate, k, targetScale, scale, rateScale);
      assert last in s;
      AtMostProduct(Units(last, scale), Factor(rate(last), targetScale, rateScale), k);
      assert (Sum(front, UnitsAt(scale)) + Units(last, scale)) * k
           == Sum(front, UnitsAt(scale)) * k + Units(last, scale) * k;
    }
  }

  lemma AtMostProduct(u: nat, a: int, b: int)
    requires a <= b
    ensures u * a <= u * b
  { }

  /** At rates no higher than the purchase's, the exact converted refunds are within the purchase. */
  lemma ConvertedWithinPurchase(metric: Metric, visible: seq<Attempt>, p: Attempt, rate: Attempt -> Rate,
                                targetScale: nat, scale: nat, rateScale: nat)
    requires InOrder(visible) && p in visible && AllScalesFit(visible, scale) && RatesFit(visible, rate, rateScale)
    requires NoHigherRates(metric, visible, p, rate)
    ensures Sum(RefundsOf(metric, visible, p), Exactly(rate, targetScale, scale, rateScale))
         <= Exactly(rate, targetScale, scale, rateScale)(p)
  {
    var refunds, k := RefundsOf(metric, visible, p), Factor(rate(p), targetScale, rateScale);
    LowerFactors(metric, visible, p, rate, targetScale, rateScale);
    SumAtLowerRates(refunds, rate, k, targetScale, scale, rateScale);
    RefundsWithinPurchase(metric, visible, p, scale);
    AtMostProductOf(k, Sum(refunds, UnitsAt(scale)), Units(p, scale));
  }

  lemma LowerFactors(metric: Metric, visible: seq<Attempt>, p: Attempt, rate: Attempt -> Rate, targetScale: nat,
                     rateScale: nat)
    requires p in visible && RatesFit(visible, rate, rateScale) && NoHigherRates(metric, visible, p, rate)
    ensures Factor(rate(p), targetScale, rateScale) >= 0
    ensures forall r :: r in RefundsOf(metric, visible, p) ==>
              Factor(rate(r), targetScale, rateScale) <= Factor(rate(p), targetScale, rateScale)
  {
    FilterMembers(visible, DeductedFrom(metric, visible, p));
    MulNonNegative(RateUnits(rate(p), rateScale), Pow10(targetScale));
    forall r | r in RefundsOf(metric, visible, p)
      ensures Factor(rate(r), targetScale, rateScale) <= Factor(rate(p), targetScale, rateScale)
    {
      LowerFactor(rate(r), rate(p), targetScale, rateScale);
    }
  }

  lemma MulNonNegative(a: int, b: int)
    requires a >= 0 && b >= 0
    ensures a * b >= 0
  { }

  lemma AtMostProductOf(k: int, u: int, v: int)
    requires k >= 0 && u <= v
    ensures u * k <= v * k
  { }

  /** The rounding of a purchase and of its refunds, each on its own, adds up to no more than half a
      unit each: whatever the rates, the rounded contribution of a counted purchase is within
      (n + 1) / 2 target units of the exact converted one. */
  lemma RoundingError(metric: Metric, visible: seq<Attempt>, p: Attempt, rate: Attempt -> Rate,
                      targetScale: nat, scale: nat, rateScale: nat)
    requires p in visible && Counts(metric, p) && AllScalesFit(visible, scale) && RatesFit(visible, rate, rateScale)
    ensures Near(NetOf(metric, visible, Exactly(rate, targetScale, scale, rateScale))(p),
                 NetOf(metric, visible, Converted(rate, targetScale))(p),
                 Pow10(scale + rateScale), |RefundsOf(metric, visible, p)| + 1)
  {
    PartsRound(metric, visible, p, rate, targetScale, scale, rateScale);
    CountedNet(metric, visible, p, Exactly(rate, targetScale, scale, rateScale));
    CountedNet(metric, visible, p, Converted(rate, targetScale));
    NearSubtracts(Exactly(rate, targetScale, scale, rateScale)(p),
                  Sum(RefundsOf(metric, visible, p), Exactly(rate, targetScale, scale, rateScale)),
                  Converted(rate, targetScale)(p), Sum(RefundsOf(metric, visible, p), Converted(rate, targetScale)),
                  Pow10(scale + rateScale), |RefundsOf(metric, visible, p)|);
  }

  lemma CountedNet(metric: Metric, visible: seq<Attempt>, p: Attempt, money: Attempt -> int)
    requires Counts(metric, p)
    ensures NetOf(metric, visible, money)(p) == money(p) - Sum(RefundsOf(metric, visible, p), money)
  { }

  lemma PartsRound(metric: Metric, visible: seq<Attempt>, p: Attempt, rate: Attempt -> Rate,
                   targetScale: nat, scale: nat, rateScale: nat)
    requires p in visible && AllScalesFit(visible, scale) && RatesFit(visible, rate, rateScale)
    ensures Near(Exactly(rate, targetScale, scale, rateScale)(p), Converted(rate, targetScale)(p),
                 Pow10(scale + rateScale), 1)
    ensures Near(Sum(RefundsOf(metric, visible, p), Exactly(rate, targetScale, scale, rateScale)),
                 Sum(RefundsOf(metric, visible, p), Converted(rate, targetScale)),
                 Pow10(scale + rateScale), |RefundsOf(metric, visible, p)|)
  {
    FilterMembers(visible, DeductedFrom(metric, visible, p));
    SumConversionError(RefundsOf(metric, visible, p), rate, targetScale, scale, rateScale);
    ConversionError(p, rate, targetScale, scale, rateScale);
  }

  lemma NearSubtracts(v: int, w: int, x: int, y: int, d: int, n: int)
    requires Near(v, x, d, 1) && Near(w, y, d, n)
    ensures Near(v - w, x - y, d, n + 1)
  { }

  lemma NearNonNegative(v: int, x: int, d: int, n: int)
    requires d > 0 && v >= 0 && Near(v, x, d, n)
    ensures 2 * x >= -n
  {
    MulMonotone(d, -n, 2 * x);
    assert d * -n == -(n * d) && d * (2 * x) == 2 * (x * d);
  }

  /** Rounded net bound: where no refund converts at a higher rate than its purchase, a counted
      purchase less its n deducted refunds, each rounded half-even on its own, is never below
      -(n + 1) / 2 target units. */
  lemma RoundedNetBound(metric: Metric, visible: seq<Attempt>, p: Attempt, rate: Attempt -> Rate,
                        targetScale: nat, scale: nat, rateScale: nat)
    requires InOrder(visible) && p in visible && Counts(metric, p)
    requires AllScalesFit(visible, scale) && RatesFit(visible, rate, rateScale)
    requires NoHigherRates(metric, visible, p, rate)
    ensures 2 * NetOf(metric, visible, Converted(rate, targetScale))(p) >= -(|RefundsOf(metric, visible, p)| + 1)
  {
    ConvertedWithinPurchase(metric, visible, p, rate, targetScale, scale, rateScale);
    RoundingError(metric, visible, p, rate, targetScale, scale, rateScale);
    CountedNet(metric, visible, p, Exactly(rate, targetScale, scale, rateScale));
    NearNonNegative(NetOf(metric, visible, Exactly(rate, targetScale, scale, rateScale))(p),
                    NetOf(metric, visible, Converted(rate, targetScale))(p),
                    Pow10(scale + rateScale), |RefundsOf(metric, visible, p)| + 1);
  }

  /** The whole metric: where refunds deduct only from counted purchases and at no higher rates, n
      deducted refunds and m counted purchases leave net at least -(n + m) / 2. */
  lemma RoundedTotalBound(metric: Metric, visible: seq<Attempt>, rate: Attempt -> Rate,
                          targetScale: nat, scale: nat, rateScale: nat)
    requires InOrder(visible) && AllScalesFit(visible, scale) && RatesFit(visible, rate, rateScale)
    requires forall a :: a in visible ==> BaseAccepted(a, visible)
    requires forall p :: p in visible ==> Covered(metric, visible, p) && NoHigherRates(metric, visible, p, rate)
    ensures 2 * Net(metric, visible, Converted(rate, targetScale))
         >= -(|Refunds(metric, visible)| + |Purchases(metric, visible)|)
  {
    var purchases, money := AllPurchases(visible), Converted(rate, targetScale);
    FilterMembers(visible, IsPurchase());
    forall p | p in purchases
      ensures 2 * NetOf(metric, visible, money)(p) >= -(RefundSum(metric, visible, One())(p) + Gross(metric, One())(p))
    {
      ContributionBound(metric, visible, p, rate, targetScale, scale, rateScale);
    }
    SumBound(purchases, NetOf(metric, visible, money), RefundSum(metric, visible, One()), Gross(metric, One()));
    NetByPurchase(metric, visible, money);
    CountByPurchase(metric, visible);
  }

  lemma ContributionBound(metric: Metric, visible: seq<Attempt>, p: Attempt, rate: Attempt -> Rate,
                          targetScale: nat, scale: nat, rateScale: nat)
    requires InOrder(visible) && p in visible
    requires AllScalesFit(visible, scale) && RatesFit(visible, rate, rateScale)
    requires Covered(metric, visible, p) && NoHigherRates(metric, visible, p, rate)
    ensures 2 * NetOf(metric, visible, Converted(rate, targetScale))(p)
         >= -(RefundSum(metric, visible, One())(p) + Gross(metric, One())(p))
  {
    SumOfOnes(RefundsOf(metric, visible, p));
    if Counts(metric, p) { RoundedNetBound(metric, visible, p, rate, targetScale, scale, rateScale); }
  }

  lemma CountByPurchase(metric: Metric, visible: seq<Attempt>)
    requires forall a :: a in visible ==> BaseAccepted(a, visible)
    ensures Sum(AllPurchases(visible), RefundSum(metric, visible, One())) == |Refunds(metric, visible)|
    ensures Sum(AllPurchases(visible), Gross(metric, One())) == |Purchases(metric, visible)|
  {
    RefundsByPurchase(metric, visible, One());
    GrossByPurchase(metric, visible, One());
    SumOfOnes(Refunds(metric, visible));
    SumOfOnes(Purchases(metric, visible));
  }

  function One(): Attempt -> int { (a: Attempt) => 1 }

  lemma {:induction false} SumOfOnes(s: seq<Attempt>)
    ensures Sum(s, One()) == |s|
  {
    if s != [] { SumOfOnes(s[..|s| - 1]); }
  }

  lemma {:induction false} SumBound(s: seq<Attempt>, f: Attempt -> int, g: Attempt -> int, h: Attempt -> int)
    requires forall a :: a in s ==> 2 * f(a) >= -(g(a) + h(a))
    ensures 2 * Sum(s, f) >= -(Sum(s, g) + Sum(s, h))
  {
    if s != [] {
      SumBound(s[..|s| - 1], f, g, h);
      assert s[|s| - 1] in s;
    }
  }
}
