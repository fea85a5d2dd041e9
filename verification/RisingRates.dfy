/** The converse for dated rates: where a rate rises, a purchase repaid in full falls below any error of
    rounding; so rounded net is bounded over every ledger exactly if no rate rises. */
module RisingRates {
  import opened Sequences
  import opened Ordering
  import opened Timestamps
  import opened Money
  import opened Ledger
  import opened Decisions
  import opened Restriction
  import opened NetRevenue
  import opened ArrivalExamples
  import opened DatedRates

  // ----- A purchase repaid in full, and nothing else

  function Bought(receivedAt: string, occurredAt: string, amount: Amount, digest: string): Attempt {
    var payload := Payload(Some("i"), "x", None, None, None, Settled, amount, "");
    Delivered("r1", receivedAt, occurredAt, Purchase, payload, digest, Allowed)
  }

  function Repaid(receivedAt: string, occurredAt: string, amount: Amount, digest: string): Attempt {
    var payload := Payload(Some("i"), "y", Some("x"), None, None, Settled, amount, "");
    Delivered("r2", receivedAt, occurredAt, Refund, payload, digest, Allowed)
  }

  function Everything(): Metric {
    Metric((p: Attempt) => true, (r: Attempt, p: Attempt) => true, (a: Attempt) => true, true, true)
  }

  /** The refund alone may deduct, and it deducts from the purchase, which it repays in full. */
  ghost predicate FullyRepaid(p: Attempt, r: Attempt) {
    && p.AnchoredPurchase() && r.AnchoredRefund() && Eligible(p) && Eligible(r) && InOrder([p] + [r])
    && p.Id() != r.Id() && p.record.eventId != r.record.eventId
    && MatchesRefund(r, p) && r.Body().correctionTarget.None? && r.Body().reverses.None? && r.Body().status.Settled?
    && p.Body().amount == r.Body().amount
  }

  lemma BothAccepted(p: Attempt, r: Attempt)
    requires FullyRepaid(p, r)
    ensures BaseAccepted(p, [p] + [r]) && BaseAccepted(r, [p] + [r]) && Heads(p, [p] + [r])
  {
    FilterPair(p, r, SameRecord(p)); FilterPair(p, r, SameScope(p));
    FilterPair(p, r, SameRecord(r)); FilterPair(p, r, SameScope(r));
    FilterPair(p, r, InGroup(p, [p] + [r]));
  }

  lemma OnlyTarget(p: Attempt, r: Attempt)
    requires FullyRepaid(p, r)
    ensures Resolve(r, [p] + [r]) == Some(p)
  {
    BothAccepted(p, r);
    FilterPair(p, r, StrictTarget(r, [p] + [r]));
    assert StrictTarget(r, [p] + [r])(p) && !StrictTarget(r, [p] + [r])(r);
  }

  lemma OnlyOffered(p: Attempt, r: Attempt)
    requires FullyRepaid(p, r)
    ensures Offered([p] + [r]) == [r]
  {
    BothAccepted(p, r);
    OfferedInOrder([p] + [r]);
    FilterPair(p, r, RefundCandidate([p] + [r]));
  }

  lemma OnlyAdmission(p: Attempt, r: Attempt)
    requires FullyRepaid(p, r)
    ensures AdmittedLog([p] + [r]) == [Admission(r, p)]
  {
    OnlyTarget(p, r);
    OnlyOffered(p, r);
    FirstTurn(p, r, [p] + [r]);
  }

  lemma FirstTurn(p: Attempt, r: Attempt, ledger: seq<Attempt>)
    requires FullyRepaid(p, r) && Resolve(r, ledger) == Some(p)
    ensures Admit([r], ledger) == [Admission(r, p)]
  {
    assert [] + [r] == [r];
    AdmitLast([], r, ledger);
    assert CapHolds(r, p, []);
  }

  lemma OnlyTargetOf(p: Attempt, r: Attempt)
    requires FullyRepaid(p, r)
    ensures TargetOf(r, [p] + [r]) == Some(p) && WinnerOf(r, [p] + [r]) == Some(r)
  {
    OnlyAdmission(p, r);
    FilterOne(Admission(r, p), ForAttempt(r));
    FilterOne(Admission(r, p), SameBusiness(r));
  }

  /** Both are facts, and all the facts in a view that keeps them. */
  lemma BothKept(p: Attempt, r: Attempt, keep: Attempt -> bool)
    requires FullyRepaid(p, r) && keep(p) && keep(r)
    ensures Kept([p] + [r], keep) == [p] + [r]
  {
    BothFacts(p, r);
    FilterPair(p, r, IsFact([p] + [r]));
    FilterPair(p, r, keep);
  }

  lemma BothFacts(p: Attempt, r: Attempt)
    requires FullyRepaid(p, r)
    ensures BecomesFact(p, [p] + [r]) && BecomesFact(r, [p] + [r])
  {
    BothAccepted(p, r);
    OnlyTargetOf(p, r);
    BaseIsMember(p, [p] + [r]);
    BaseIsMember(r, [p] + [r]);
    PurchaseAgreement(p, [p] + [r]);
    RefundAgreement(r, [p] + [r]);
  }

  lemma Deducting(p: Attempt, r: Attempt, visible: seq<Attempt>)
    requires visible == [p] + [r] && TargetOf(r, visible) == Some(p)
    requires p.record.event.Purchase? && p.Body().status.Settled? && r.record.event.Refund? && r.Body().status.Settled?
    ensures DeductedFrom(Everything(), visible, p)(r) && !DeductedFrom(Everything(), visible, p)(p)
    ensures Deducted(Everything(), visible)(r) && !Deducted(Everything(), visible)(p)
  {
    NotCancelled(p, r);
    assert visible[0] == p;
  }

  lemma NotCancelled(p: Attempt, r: Attempt)
    requires p.record.event.Purchase? && r.Body().status.Settled?
    ensures !Cancelled(Everything(), [p] + [r], r)
  {
    forall d | d in [p] + [r] ensures !CancelsRefund(Everything(), r)(d) { }
  }

  lemma OnlyDeduction(p: Attempt, r: Attempt)
    requires FullyRepaid(p, r)
    ensures Counts(Everything(), p)
    ensures RefundsOf(Everything(), [p] + [r], p) == Refunds(Everything(), [p] + [r]) == [r]
    ensures Purchases(Everything(), [p] + [r]) == [p]
  {
    OnlyTargetOf(p, r);
    Deducting(p, r, [p] + [r]);
    FilterPair(p, r, DeductedFrom(Everything(), [p] + [r], p));
    FilterPair(p, r, Deducted(Everything(), [p] + [r]));
    FilterPair(p, r, Counted(Everything()));
  }

  lemma OneTerm(a: Attempt, money: Attempt -> int)
    ensures Sum([a], money) == money(a)
  {
    assert [a][..0] == [];
  }

  /** The net of the pair, by purchase and in all. */
  lemma NetOfPair(p: Attempt, r: Attempt, money: Attempt -> int)
    requires FullyRepaid(p, r)
    ensures NetOf(Everything(), [p] + [r], money)(p) == Net(Everything(), [p] + [r], money) == money(p) - money(r)
  {
    OnlyDeduction(p, r);
    CountedNet(Everything(), [p] + [r], p, money);
    OneTerm(p, money);
    OneTerm(r, money);
  }

  // ----- The pair on two dates of a table

  lemma RecordOrder()
    ensures Compare(Utf16Key("r1"), Utf16Key("r2")) < 0
  {
    assert "r1"[1..] == "1" && "r2"[1..] == "2";
    assert Utf16Key("1")[0] == 49 && Utf16Key("2")[0] == 50;
  }

  lemma PairInOrder(p: Attempt, r: Attempt)
    requires p.record.receivedAt == r.record.receivedAt && p.Id() == "r1" && r.Id() == "r2"
    ensures InOrder([p] + [r])
  {
    RecordOrder();
    SecondDecides(SortKey(p), SortKey(r));
    assert ByKey()(p, r);
  }

  lemma SecondDecides(a: seq<seq<int>>, b: seq<seq<int>>)
    requires |a| >= 2 && |b| >= 2 && a[0] == b[0] && Compare(a[1], b[1]) < 0
    ensures CompareTuples(a, b) < 0
  {
    CompareFlips(a[0], b[0]);
    assert a[1..][0] == a[1] && b[1..][0] == b[1];
  }

  lemma PairMatches(w: string, s: string, t: string, amount: Amount, h: string, k: string)
    requires Valid(w) && Valid(s) && Valid(t) && Parse(s).value <= Parse(t).value
    ensures MatchesRefund(Repaid(w, t, amount, k), Bought(w, s, amount, h))
    ensures Eligible(Bought(w, s, amount, h)) && Eligible(Repaid(w, t, amount, k))
  { }

  lemma PairIsRepaid(w: string, s: string, t: string, amount: Amount, h: string, k: string)
    requires Valid(w) && Valid(s) && Valid(t) && Parse(s).value <= Parse(t).value
    ensures FullyRepaid(Bought(w, s, amount, h), Repaid(w, t, amount, k))
  {
    assert "r1"[1] == '1' && "r2"[1] == '2';
    PairInOrder(Bought(w, s, amount, h), Repaid(w, t, amount, k));
    PairMatches(w, s, t, amount, h, k);
  }

  /** A delivery on the date of a rate in force converts at that rate. */
  lemma ConvertsAt(policy: FxPolicy, w: string, x: Rate, a: Attempt)
    requires InForce(policy, x, w)
    requires a.record.occurredAt == x.effectiveDate + MIDNIGHT && a.Body().amount.currency == x.currency
    ensures Priced(policy, w, a) && MoneyOf(policy, w)(a) == ConvertAt(a.Body().amount, x, policy.targetScale)
  {
    assert EventDate(a) == x.effectiveDate;
    FirstExt(policy.rates, Applies(a.Body().amount, policy, EventDate(a), w),
              Applies(Amount(0, 0, x.currency), policy, x.effectiveDate, w));
  }

  // ----- An amount at which the difference is whole

  function Whole(y: Rate, x: Rate): Amount { Amount(2 * Pow10(y.scale) * Pow10(x.scale), 0, y.currency) }

  /** Converted at y, the amount is a whole number of target units. */
  lemma WholeAt(m: Amount, y: Rate, n: nat, targetScale: nat)
    requires m.scale == 0 && m.unscaled == n * Pow10(y.scale)
    ensures ConvertAt(m, y, targetScale) == n * y.unscaled * Pow10(targetScale)
  {
    var d := Pow10(y.scale);
    MoveOut(n, d, y.unscaled, Pow10(targetScale));
    WholeQuotient(n * y.unscaled * Pow10(targetScale), d);
  }

  lemma MoveOut(n: int, d: int, u: int, t: int)
    ensures (n * d) * u * t == (n * u * t) * d
  {
    assert (n * d) * u == (n * u) * d;
    assert ((n * u) * d) * t == ((n * u) * t) * d;
  }

  lemma RisesByTwo(y: Rate, x: Rate, targetScale: nat)
    requires !RateAtMost(x, y)
    ensures ConvertAt(Whole(y, x), y, targetScale) - ConvertAt(Whole(y, x), x, targetScale) <= -2
  {
    var p, q, t := Pow10(y.scale), Pow10(x.scale), Pow10(targetScale);
    Rotate(2, p, q);
    WholeAt(Whole(y, x), y, 2 * q, targetScale);
    WholeAt(Whole(y, x), x, 2 * p, targetScale);
    Apart(p, q, y.unscaled, x.unscaled, t);
  }

  lemma Rotate(a: int, p: int, q: int)
    ensures a * p * q == (a * q) * p
  { }

  lemma Apart(p: int, q: int, u: int, v: int, t: int)
    requires t > 0 && v * p > u * q
    ensures 2 * q * u * t - 2 * p * v * t <= -2
  {
    assert 2 * q * u == 2 * (u * q) && 2 * p * v == 2 * (v * p);
    MulMonotone(t, 1, v * p - u * q);
    assert 2 * (u * q) * t == 2 * (t * (u * q)) && 2 * (v * p) * t == 2 * (t * (v * p));
    assert t * (v * p - u * q) == t * (v * p) - t * (u * q);
  }

  // ----- The equivalence

  /** Evaluations with a value: a view of the facts up to the watermark in which every delivery that
      is converted has a rate. */
  ghost predicate ViewAt(ledger: seq<Attempt>, keep: Attempt -> bool, watermark: string) {
    InOrder(ledger) && forall a :: keep(a) ==> UpTo(watermark)(a)
  }

  ghost predicate AllPriced(metric: Metric, visible: seq<Attempt>, policy: FxPolicy, watermark: string) {
    forall a :: a in Purchases(metric, visible) + Refunds(metric, visible) ==> Priced(policy, watermark, a)
  }

  /** Over every ledger, view and metric, every counted purchase is bounded. */
  ghost predicate AlwaysBounded(policy: FxPolicy, watermark: string) {
    forall metric: Metric, ledger: seq<Attempt>, keep: Attempt -> bool, p: Attempt ::
      ViewAt(ledger, keep, watermark) && p in Kept(ledger, keep) && Counts(metric, p)
      && AllPriced(metric, Kept(ledger, keep), policy, watermark) ==>
        Bounded(metric, Kept(ledger, keep), p, policy, watermark)
  }

  ghost predicate EachCovered(metric: Metric, visible: seq<Attempt>) {
    forall p :: p in visible ==> Covered(metric, visible, p)
  }

  /** And so is every metric whose refunds deduct only from counted purchases. */
  ghost predicate AlwaysBoundedInAll(policy: FxPolicy, watermark: string) {
    forall metric: Metric, ledger: seq<Attempt>, keep: Attempt -> bool ::
      ViewAt(ledger, keep, watermark) && EachCovered(metric, Kept(ledger, keep))
      && AllPriced(metric, Kept(ledger, keep), policy, watermark) ==>
        BoundedInAll(metric, Kept(ledger, keep), policy, watermark)
  }

  lemma NeverRisingIsEnough(policy: FxPolicy, watermark: string)
    requires policy.dated ==> NeverRises(policy, watermark)
    ensures AlwaysBounded(policy, watermark)
  {
    forall metric: Metric, ledger, keep, p |
      ViewAt(ledger, keep, watermark) && p in Kept(ledger, keep) && Counts(metric, p)
      && AllPriced(metric, Kept(ledger, keep), policy, watermark)
      ensures Bounded(metric, Kept(ledger, keep), p, policy, watermark)
    {
      KeptIsFilter(ledger, keep);
      FilterMember(Kept(ledger, keep), Counted(metric), p);
      TableBounds(metric, Kept(ledger, keep), p, policy, watermark);
    }
  }

  lemma NeverRisingIsEnoughInAll(policy: FxPolicy, watermark: string)
    requires policy.dated ==> NeverRises(policy, watermark)
    ensures AlwaysBoundedInAll(policy, watermark)
  {
    forall metric: Metric, ledger, keep |
      ViewAt(ledger, keep, watermark) && EachCovered(metric, Kept(ledger, keep))
      && AllPriced(metric, Kept(ledger, keep), policy, watermark)
      ensures BoundedInAll(metric, Kept(ledger, keep), policy, watermark)
    {
      KeptIsFilter(ledger, keep);
      forall a | a in Kept(ledger, keep) ensures BaseAccepted(a, Kept(ledger, keep)) { KeptIsBase(ledger, keep, a); }
      FilterMembers(Kept(ledger, keep), Counted(metric));
      TableBoundsAll(metric, Kept(ledger, keep), policy, watermark);
    }
  }

  /** The pair that breaks the bound where x is in force after y and higher: bought on the date of y,
      repaid on the date of x, both received at the watermark. */
  function PairAt(w: string, y: Rate, x: Rate): (Attempt, Attempt) {
    (Bought(w, y.effectiveDate + MIDNIGHT, Whole(y, x), "h1"), Repaid(w, x.effectiveDate + MIDNIGHT, Whole(y, x), "h2"))
  }

  lemma PublishedMeansWatermark(policy: FxPolicy, watermark: string, x: Rate)
    requires policy.dated && InForce(policy, x, watermark)
    ensures Valid(watermark) && Datable(x.effectiveDate)
  {
    FirstFound(policy.rates, Applies(Amount(0, 0, x.currency), policy, x.effectiveDate, watermark));
  }

  lemma PairIsView(policy: FxPolicy, w: string, y: Rate, x: Rate)
    requires policy.dated && Follows(policy, w, y, x)
    ensures var (p, r) := PairAt(w, y, x);
      FullyRepaid(p, r) && ViewAt([p] + [r], UpTo(w), w) && Kept([p] + [r], UpTo(w)) == [p] + [r]
  {
    var (p, r) := PairAt(w, y, x);
    PublishedMeansWatermark(policy, w, y);
    PublishedMeansWatermark(policy, w, x);
    MidnightsFollowDates(y.effectiveDate, x.effectiveDate);
    PairIsRepaid(w, y.effectiveDate + MIDNIGHT, x.effectiveDate + MIDNIGHT, Whole(y, x), "h1", "h2");
    CompareFlips(CodePoints(w), CodePoints(w));
    BothKept(p, r, UpTo(w));
  }

  lemma PairConverts(policy: FxPolicy, w: string, y: Rate, x: Rate)
    requires policy.dated && Follows(policy, w, y, x) && !RateAtMost(x, y)
    ensures var (p, r) := PairAt(w, y, x);
      Priced(policy, w, p) && Priced(policy, w, r) && MoneyOf(policy, w)(p) - MoneyOf(policy, w)(r) <= -2
  {
    var (p, r) := PairAt(w, y, x);
    ConvertsAt(policy, w, y, p);
    ConvertsAt(policy, w, x, r);
    RisesByTwo(y, x, policy.targetScale);
  }

  lemma PairIsUnbounded(p: Attempt, r: Attempt, policy: FxPolicy, w: string)
    requires FullyRepaid(p, r) && MoneyOf(policy, w)(p) - MoneyOf(policy, w)(r) <= -2
    ensures !Bounded(Everything(), [p] + [r], p, policy, w) && !BoundedInAll(Everything(), [p] + [r], policy, w)
  {
    OnlyDeduction(p, r);
    NetOfPair(p, r, MoneyOf(policy, w));
  }

  lemma PairHasValue(p: Attempt, r: Attempt, policy: FxPolicy, w: string)
    requires FullyRepaid(p, r) && Priced(policy, w, p) && Priced(policy, w, r)
    ensures Counts(Everything(), p) && AllPriced(Everything(), [p] + [r], policy, w)
    ensures EachCovered(Everything(), [p] + [r])
  {
    OnlyDeduction(p, r);
    forall a ensures Covered(Everything(), [p] + [r], a) { LinkedIsCovered(Everything(), [p] + [r], a); }
  }

  /** A rate that rises breaks both bounds, in an evaluation with a value. */
  lemma RisingRateBreaksTheBound(policy: FxPolicy, w: string, y: Rate, x: Rate)
    requires policy.dated && Follows(policy, w, y, x) && !RateAtMost(x, y)
    ensures !AlwaysBounded(policy, w) && !AlwaysBoundedInAll(policy, w)
  {
    var (p, r) := PairAt(w, y, x);
    PairIsView(policy, w, y, x);
    PairConverts(policy, w, y, x);
    PairHasValue(p, r, policy, w);
    PairIsUnbounded(p, r, policy, w);
    var ledger, keep := [p] + [r], UpTo(w);
    assert p in Kept(ledger, keep) by { assert ([p] + [r])[0] == p; }
    assert !Bounded(Everything(), Kept(ledger, keep), p, policy, w);
    assert !BoundedInAll(Everything(), Kept(ledger, keep), policy, w);
  }

  /** Exactly when rounded net is bounded: a policy keeps every counted purchase, over every ledger,
      view and metric, at or above minus half a unit per amount converted, and so the whole of every
      covered metric, exactly if its rates are not dated or none in force rises with its date. */
  lemma BoundedExactlyIfNeverRising(policy: FxPolicy, watermark: string)
    ensures AlwaysBounded(policy, watermark) <==> !policy.dated || NeverRises(policy, watermark)
    ensures AlwaysBoundedInAll(policy, watermark) <==> !policy.dated || NeverRises(policy, watermark)
  {
    if policy.dated && !NeverRises(policy, watermark) {
      var y, x :| y in policy.rates && x in policy.rates
                  && Follows(policy, watermark, y, x) && !RateAtMost(x, y);
      RisingRateBreaksTheBound(policy, watermark, y, x);
    } else {
      NeverRisingIsEnough(policy, watermark);
      NeverRisingIsEnoughInAll(policy, watermark);
    }
  }

  // ----- One table

  /** The dollar doubles against the target currency overnight. */
  function Doubling(monday: string, tuesday: string): FxPolicy
    requires |monday| == |tuesday| == 24
  {
    FxPolicy([Rate("USD", 1, 0, monday[..10], monday)] + [Rate("USD", 2, 0, tuesday[..10], tuesday)], 2, true)
  }

  lemma TwoDatesInForce(y: Rate, x: Rate, targetScale: nat, w: string)
    requires y.currency == x.currency && y.effectiveDate != x.effectiveDate
    requires Datable(y.effectiveDate) && Datable(x.effectiveDate) && PublishedBy(y, w) && PublishedBy(x, w)
    ensures InForce(FxPolicy([y] + [x], targetScale, true), y, w)
    ensures InForce(FxPolicy([y] + [x], targetScale, true), x, w)
  {
    var policy := FxPolicy([y] + [x], targetScale, true);
    FilterPair(y, x, Applies(Amount(0, 0, y.currency), policy, y.effectiveDate, w));
    FilterPair(y, x, Applies(Amount(0, 0, x.currency), policy, x.effectiveDate, w));
  }

  lemma JanuaryDates(monday: string, tuesday: string)
    requires JanuaryText(monday, '5') && JanuaryText(tuesday, '6')
    ensures Datable(monday[..10]) && Datable(tuesday[..10]) && monday[..10] != tuesday[..10]
    ensures Valid(monday) && Valid(tuesday) && Parse(monday).value <= Parse(tuesday).value
    ensures TextAtMost(monday[..10], tuesday[..10])
  {
    JanuaryOrder(monday, tuesday);
    StringOrderIsTimeOrder(monday, tuesday);
    DateOfTimestamp(monday);
    DateOfTimestamp(tuesday);
    DatesFollowInstants(monday, tuesday);
    assert monday[..10][9] == '5' && tuesday[..10][9] == '6';
  }

  lemma DoublingInForce(monday: string, tuesday: string)
    requires JanuaryText(monday, '5') && JanuaryText(tuesday, '6')
    ensures var y, x := Rate("USD", 1, 0, monday[..10], monday), Rate("USD", 2, 0, tuesday[..10], tuesday);
      Follows(Doubling(monday, tuesday), tuesday, y, x) && !RateAtMost(x, y)
    ensures OneRatePerDate(Doubling(monday, tuesday).rates)
  {
    JanuaryDates(monday, tuesday);
    TwoDatesInForce(Rate("USD", 1, 0, monday[..10], monday), Rate("USD", 2, 0, tuesday[..10], tuesday), 2, tuesday);
  }

  lemma Dollars(y: Rate, x: Rate)
    requires y.unscaled == 1 && x.unscaled == 2 && y.scale == x.scale == 0
    ensures ConvertAt(Amount(100, 2, "USD"), y, 2) == 100 && ConvertAt(Amount(100, 2, "USD"), x, 2) == 200
  {
    assert Pow10(2) == 100;
  }

  /** A dollar bought on Monday and repaid on Tuesday, when the rate has doubled: the purchase
      contributes a hundred minor units less than nothing, where rounding accounts for one. */
  lemma DoublingBreaksTheBound(monday: string, tuesday: string, h: string, k: string)
    requires JanuaryText(monday, '5') && JanuaryText(tuesday, '6')
    ensures var p := Bought(tuesday, monday[..10] + MIDNIGHT, Amount(100, 2, "USD"), h);
            var r := Repaid(tuesday, tuesday[..10] + MIDNIGHT, Amount(100, 2, "USD"), k);
            var policy := Doubling(monday, tuesday);
      && FullyRepaid(p, r) && Kept([p] + [r], UpTo(tuesday)) == [p] + [r]
      && Priced(policy, tuesday, p) && Priced(policy, tuesday, r)
      && RefundsOf(Everything(), [p] + [r], p) == [r]
      && NetOf(Everything(), [p] + [r], MoneyOf(policy, tuesday))(p) == -100
  {
    var p := Bought(tuesday, monday[..10] + MIDNIGHT, Amount(100, 2, "USD"), h);
    var r := Repaid(tuesday, tuesday[..10] + MIDNIGHT, Amount(100, 2, "USD"), k);
    var y, x := Rate("USD", 1, 0, monday[..10], monday), Rate("USD", 2, 0, tuesday[..10], tuesday);
    var policy := Doubling(monday, tuesday);
    DoublingInForce(monday, tuesday);
    PublishedMeansWatermark(policy, tuesday, y);
    PublishedMeansWatermark(policy, tuesday, x);
    MidnightsFollowDates(y.effectiveDate, x.effectiveDate);
    PairIsRepaid(tuesday, y.effectiveDate + MIDNIGHT, x.effectiveDate + MIDNIGHT, Amount(100, 2, "USD"), h, k);
    CompareFlips(CodePoints(tuesday), CodePoints(tuesday));
    BothKept(p, r, UpTo(tuesday));
    OnlyDeduction(p, r);
    ConvertsAt(policy, tuesday, y, p);
    ConvertsAt(policy, tuesday, x, r);
    NetOfPair(p, r, MoneyOf(policy, tuesday));
    Dollars(y, x);
  }
}
