/** The commerce admission ledger: deliveries in a total order, base acceptance, business groups of
    purchases, refund targets, and the admission of refunds as a log that only grows. */
module Ledger {
  import opened Sequences
  import opened Ordering
  import opened Timestamps
  import opened Money

  datatype EventName = Purchase | Refund | OtherEvent(name: string)

  datatype FinancialStatus = Settled | Pending | Reversed

  /** What `consent_decision` yields for the delivery; it depends on the delivery alone. */
  datatype ConsentOutcome = Allowed | Withdrawn | RevisionUnconfirmed | ConsentTimestampInvalid

  datatype Payload = Payload(
    installationId: Option<string>, transactionId: string, originalTransactionId: Option<string>,
    correctionTarget: Option<string>, reverses: Option<string>,
    status: FinancialStatus, amount: Amount, rest: string)

  datatype Record = Record(
    recordId: string, deliveryId: string, eventId: string, producer: string,
    tenantId: string, appId: string, schemaVersion: string,
    receivedAt: string, occurredAt: string,
    event: EventName, aggregate: bool, payload: Payload, rest: string)

  datatype Server = Server(
    tenantId: string, appId: string, policyDigest: string,
    staleBefore: Option<string>, ineligibleTargets: set<string>)

  /** digest stands for the SHA-256 of the record. */
  datatype Attempt = Attempt(server: Server, record: Record, batchId: string, digest: string, consent: ConsentOutcome) {
    function Body(): Payload { record.payload }
    function Id(): string { record.recordId }
    predicate Anchored() { (record.event.Purchase? || record.event.Refund?) && Body().installationId.Some? }
    predicate AnchoredPurchase() { record.event.Purchase? && Anchored() }
    predicate AnchoredRefund() { record.event.Refund? && Anchored() }
    predicate LegacyRefund() {
      record.event.Refund? && Body().installationId.None? && Body().correctionTarget.Some?
    }
    predicate OwnScope() { record.tenantId == server.tenantId && record.appId == server.appId }
    predicate SameTenant(other: Attempt) {
      server.tenantId == other.server.tenantId && server.appId == other.server.appId
    }
  }

  // ----- The total order of deliveries

  function SortKey(a: Attempt): seq<seq<int>> {
    [Utf16Key(a.record.receivedAt), Utf16Key(a.record.recordId), Utf16Key(a.record.deliveryId),
     Utf16Key(a.server.tenantId), Utf16Key(a.server.appId), Utf16Key(a.record.schemaVersion), Utf16Key(a.digest)]
  }

  function ByKey(): (Attempt, Attempt) -> bool { (a, b) => CompareTuples(SortKey(a), SortKey(b)) <= 0 }

  function Flatten(deliveries: seq<Attempt>): seq<Attempt> { SortBy(deliveries, ByKey()) }

  /** Every list the evaluator passes around is a part of a flattened one. */
  ghost predicate InOrder(ledger: seq<Attempt>) { SortedBy(ledger, ByKey()) }

  // ----- Base acceptance

  predicate Valid(text: string) { Parse(text).Some? }

  predicate Stale(a: Attempt)
    requires Valid(a.record.occurredAt)
  {
    a.server.staleBefore.Some? && Valid(a.server.staleBefore.value)
    && Parse(a.record.occurredAt).value < Parse(a.server.staleBefore.value).value
  }

  predicate ForbiddenJoin(a: Attempt) {
    a.record.aggregate && a.Body().installationId.Some? && a.Body().installationId.value != ""
  }

  /** The part of base acceptance that the delivery settles by itself. */
  predicate Eligible(a: Attempt) {
    && Valid(a.record.receivedAt) && Valid(a.record.occurredAt)
    && a.OwnScope()
    && a.consent == Allowed
    && (a.server.staleBefore.Some? ==> Valid(a.server.staleBefore.value))
    && !Stale(a)
    && !ForbiddenJoin(a)
  }

  function SameRecord(a: Attempt): Attempt -> bool { (other: Attempt) => other.Id() == a.Id() }

  function SameScope(a: Attempt): Attempt -> bool {
    (other: Attempt) =>
      other.SameTenant(a) && other.record.producer == a.record.producer && other.record.eventId == a.record.eventId
  }

  predicate BaseAccepted(a: Attempt, ledger: seq<Attempt>) {
    && Eligible(a)
    && |Filter(ledger, SameRecord(a))| == 1
    && FirstOf(ledger, SameScope(a)) == Some(a)
  }

  // ----- Business groups of purchases

  predicate SamePurchaseBusiness(a: Attempt, c: Attempt) {
    && c.AnchoredPurchase() && c.SameTenant(a) && c.OwnScope()
    && c.Body().transactionId == a.Body().transactionId
  }

  function InGroup(a: Attempt, ledger: seq<Attempt>): Attempt -> bool {
    (c: Attempt) => SamePurchaseBusiness(a, c) && BaseAccepted(c, ledger)
  }

  function BusinessGroup(a: Attempt, ledger: seq<Attempt>): seq<Attempt> {
    if a.AnchoredPurchase() then Filter(ledger, InGroup(a, ledger)) else [a]
  }

  /** The delivery heads its business group. */
  predicate Heads(a: Attempt, ledger: seq<Attempt>) {
    BusinessGroup(a, ledger) != [] && BusinessGroup(a, ledger)[0] == a
  }

  // ----- Refund targets

  predicate ReceivedNoLater(a: Attempt, b: Attempt) {
    Valid(a.record.receivedAt) && Valid(b.record.receivedAt)
    && Parse(a.record.receivedAt).value <= Parse(b.record.receivedAt).value
  }

  predicate OccurredNoLater(a: Attempt, b: Attempt) {
    Valid(a.record.occurredAt) && Valid(b.record.occurredAt)
    && Parse(a.record.occurredAt).value <= Parse(b.record.occurredAt).value
  }

  function OriginalTransaction(purchase: Attempt): string {
    if purchase.Body().originalTransactionId.Some? then purchase.Body().originalTransactionId.value
    else purchase.Body().transactionId
  }

  /** Everything a strict target must satisfy apart from its own acceptance. */
  predicate MatchesRefund(refund: Attempt, p: Attempt) {
    && p.record.event.Purchase?
    && p.Body().status.Settled?
    && p.SameTenant(refund) && p.OwnScope()
    && p.Id() !in refund.server.ineligibleTargets
    && ReceivedNoLater(p, refund) && OccurredNoLater(p, refund)
    && p.Body().installationId == refund.Body().installationId
    && Some(OriginalTransaction(p)) == refund.Body().originalTransactionId
    && p.Body().amount.currency == refund.Body().amount.currency
  }

  function StrictTarget(refund: Attempt, ledger: seq<Attempt>): Attempt -> bool {
    (p: Attempt) => MatchesRefund(refund, p) && BaseAccepted(p, ledger) && Heads(p, ledger)
  }

  function StrictCandidates(refund: Attempt, ledger: seq<Attempt>): seq<Attempt> {
    if refund.AnchoredRefund() then Filter(ledger, StrictTarget(refund, ledger)) else []
  }

  /** The unique strict candidate, provided it is the one the refund names, if it names one. */
  function ResolveFrom(refund: Attempt, matches: seq<Attempt>): Option<Attempt> {
    if |matches| == 1 && refund.Body().correctionTarget in {None, Some(matches[0].Id())}
    then Some(matches[0]) else None
  }

  function Resolve(refund: Attempt, ledger: seq<Attempt>): Option<Attempt> {
    ResolveFrom(refund, StrictCandidates(refund, ledger))
  }

  // ----- Admission of refunds

  datatype BusinessKey = BusinessKey(tenantId: string, appId: string, event: EventName, transactionId: string)

  function KeyOfBusiness(a: Attempt): BusinessKey {
    BusinessKey(a.server.tenantId, a.server.appId, a.record.event, a.Body().transactionId)
  }

  datatype DecisionKey = DecisionKey(batchId: string, tenantId: string, appId: string, deliveryId: string,
                                     recordId: string, schemaVersion: string, digest: string)

  function KeyOf(a: Attempt): DecisionKey {
    DecisionKey(a.batchId, a.server.tenantId, a.server.appId, a.record.deliveryId,
                a.record.recordId, a.record.schemaVersion, a.digest)
  }

  /** One admitted refund with the purchase it was admitted against. */
  datatype Admission = Admission(refund: Attempt, target: Attempt)

  type Log = seq<Admission>

  function SameBusiness(refund: Attempt): Admission -> bool {
    (e: Admission) => KeyOfBusiness(e.refund) == KeyOfBusiness(refund)
  }

  function NamedBy(reversal: Attempt): Admission -> bool {
    (e: Admission) => reversal.Body().reverses == Some(e.refund.Id()) && e.refund.SameTenant(reversal)
  }

  function SettledOn(target: Attempt): Admission -> bool {
    (e: Admission) => e.refund.Body().status.Settled? && e.target == target
  }

  function Larger(a: nat, b: nat): nat { if a < b then b else a }

  function MaxScale(prior: Log, floor: nat): nat {
    if prior == [] then floor
    else Larger(MaxScale(prior[..|prior| - 1], floor), prior[|prior| - 1].refund.Body().amount.scale)
  }

  function Units(a: Attempt, scale: nat): nat {
    if a.Body().amount.scale <= scale then ExactAt(a.Body().amount, scale) else 0
  }

  function RefundUnits(scale: nat): Admission -> int { (e: Admission) => Units(e.refund, scale) }

  predicate SameAmount(a: Attempt, b: Attempt) {
    var scale := Larger(a.Body().amount.scale, b.Body().amount.scale);
    Units(a, scale) == Units(b, scale)
  }

  /** A reversal must name an earlier admitted settled refund of the same target, at the same value. */
  predicate ReversalHolds(r: Attempt, target: Attempt, log: Log) { ReversalFits(r, target, FirstOf(log, NamedBy(r))) }

  predicate ReversalFits(r: Attempt, target: Attempt, prior: Option<Admission>) {
    && prior.Some?
    && r.Body().status.Reversed? && prior.value.refund.Body().status.Settled?
    && prior.value.target == target
    && ReceivedNoLater(prior.value.refund, r) && OccurredNoLater(prior.value.refund, r)
    && SameAmount(prior.value.refund, r)
  }

  /** The cap at a given scale: what was refunded before, plus this, is within the purchase. */
  predicate CapHoldsAt(r: Attempt, target: Attempt, prior: Log, scale: nat) {
    Sum(prior, RefundUnits(scale)) + Units(r, scale) <= Units(target, scale)
  }

  /** The scale the evaluator compares at. */
  function CapScale(r: Attempt, target: Attempt, prior: Log): nat {
    MaxScale(prior, Larger(target.Body().amount.scale, r.Body().amount.scale))
  }

  predicate CapHolds(r: Attempt, target: Attempt, log: Log) {
    var prior := Filter(log, SettledOn(target));
    CapHoldsAt(r, target, prior, CapScale(r, target, prior))
  }

  predicate Admissible(r: Attempt, target: Attempt, log: Log) {
    && FirstOf(log, SameBusiness(r)).None?
    && (r.Body().reverses.Some? ==> ReversalHolds(r, target, log))
    && (r.Body().status.Settled? ==> CapHolds(r, target, log))
  }

  /** One turn of the admission loop. */
  function Extend(log: Log, r: Attempt, target: Option<Attempt>): Log {
    if target.Some? && Admissible(r, target.value, log) then log + [Admission(r, target.value)] else log
  }

  /** The log after the refunds were offered in turn. */
  function Admit(refunds: seq<Attempt>, ledger: seq<Attempt>): Log {
    if refunds == [] then []
    else
      var r := refunds[|refunds| - 1];
      Extend(Admit(refunds[..|refunds| - 1], ledger), r, Resolve(r, ledger))
  }

  function RefundCandidate(ledger: seq<Attempt>): Attempt -> bool {
    (a: Attempt) => a.AnchoredRefund() && BaseAccepted(a, ledger)
  }

  function Offered(ledger: seq<Attempt>): seq<Attempt> {
    SortBy(Filter(ledger, RefundCandidate(ledger)), ByKey())
  }

  function AdmittedLog(ledger: seq<Attempt>): Log { Admit(Offered(ledger), ledger) }

  function ForAttempt(a: Attempt): Admission -> bool { (e: Admission) => KeyOf(e.refund) == KeyOf(a) }

  /** The target recorded for a refund, if it is anchored and was admitted. */
  function TargetOf(refund: Attempt, ledger: seq<Attempt>): Option<Attempt> {
    if !refund.Anchored() then None
    else
      var e := FirstOf(AdmittedLog(ledger), ForAttempt(refund));
      if e.Some? then Some(e.value.target) else None
  }

  /** The refund that holds a business key. */
  function WinnerOf(refund: Attempt, ledger: seq<Attempt>): Option<Attempt> {
    var e := FirstOf(AdmittedLog(ledger), SameBusiness(refund));
    if e.Some? then Some(e.value.refund) else None
  }

  // ----- Facts used throughout

  lemma BaseIsMember(a: Attempt, ledger: seq<Attempt>)
    requires BaseAccepted(a, ledger)
    ensures a in ledger
  {
    FirstFound(ledger, SameScope(a));
  }

  /** A base-accepted record id names one delivery. */
  lemma BaseById(a: Attempt, b: Attempt, ledger: seq<Attempt>)
    requires BaseAccepted(a, ledger) && b in ledger && a.Id() == b.Id()
    ensures a == b
  {
    BaseIsMember(a, ledger);
    OnlyOne(ledger, SameRecord(a), a, b);
  }

  lemma ResolvedTarget(r: Attempt, ledger: seq<Attempt>)
    requires Resolve(r, ledger).Some?
    ensures r.AnchoredRefund()
    ensures var t := Resolve(r, ledger).value;
            t in ledger && MatchesRefund(r, t) && BaseAccepted(t, ledger) && Heads(t, ledger)
  {
    FilterMembers(ledger, StrictTarget(r, ledger));
    assert StrictCandidates(r, ledger)[0] in StrictCandidates(r, ledger);
  }

  lemma OfferedInOrder(ledger: seq<Attempt>)
    requires InOrder(ledger)
    ensures Offered(ledger) == Filter(ledger, RefundCandidate(ledger))
    ensures InOrder(Offered(ledger))
  {
    FilterSorted(ledger, RefundCandidate(ledger), ByKey());
    SortOfSorted(Filter(ledger, RefundCandidate(ledger)), ByKey());
  }

  lemma OfferedMembers(ledger: seq<Attempt>)
    ensures forall a :: a in Offered(ledger) <==> a in ledger && a.AnchoredRefund() && BaseAccepted(a, ledger)
  {
    FilterMembers(ledger, RefundCandidate(ledger));
    SortElements(Filter(ledger, RefundCandidate(ledger)), ByKey());
  }

  /** Filtering by base acceptance leaves no delivery twice. */
  lemma {:induction false} OnceEach(part: seq<Attempt>, f: Attempt -> bool)
    requires forall a :: a in part && f(a) ==> |Filter(part, SameRecord(a))| <= 1
    ensures forall i, j :: 0 <= i < j < |Filter(part, f)| ==> Filter(part, f)[i].Id() != Filter(part, f)[j].Id()
  {
    if part != [] {
      var front, last := part[..|part| - 1], part[|part| - 1];
      forall a | a in front && f(a) ensures |Filter(front, SameRecord(a))| <= 1 { assert a in part; }
      OnceEach(front, f);
      FilterMembers(front, f);
      if f(last) {
        forall b | b in Filter(front, f) ensures b.Id() != last.Id() {
          if b.Id() == last.Id() {
            FilterMember(front, SameRecord(last), b);
          }
        }
      }
    }
  }

  ghost predicate DistinctIds(s: seq<Attempt>) {
    forall i, j :: 0 <= i < j < |s| ==> s[i].Id() != s[j].Id()
  }

  lemma DistinctIdsPermuted(s: seq<Attempt>, t: seq<Attempt>)
    requires DistinctIds(s) && multiset(s) == multiset(t)
    ensures DistinctIds(t)
  {
    forall i, j | 0 <= i < j < |t| ensures t[i].Id() != t[j].Id() {
      assert t[i] in multiset(s) && t[j] in multiset(s);
      if t[i] == t[j] {
        assert t == t[..i] + [t[i]] + t[i + 1..j] + [t[j]] + t[j + 1..];
        assert multiset(s)[t[i]] >= 2;
        OnceInDistinct(s, t[i]);
      }
    }
  }

  lemma {:induction false} OnceInDistinct(s: seq<Attempt>, a: Attempt)
    requires DistinctIds(s)
    ensures multiset(s)[a] <= 1
  {
    if s != [] {
      OnceInDistinct(s[..|s| - 1], a);
      assert s == s[..|s| - 1] + [s[|s| - 1]];
      if a == s[|s| - 1] { assert a !in s[..|s| - 1]; }
    }
  }

  lemma OfferedOnce(ledger: seq<Attempt>)
    ensures DistinctIds(Offered(ledger))
  {
    OnceEach(ledger, RefundCandidate(ledger));
    SortElements(Filter(ledger, RefundCandidate(ledger)), ByKey());
    DistinctIdsPermuted(Filter(ledger, RefundCandidate(ledger)), Offered(ledger));
  }

  /** What every entry of the log satisfies at the moment it was admitted, and so for ever. */
  ghost predicate LogOf(log: Log, refunds: seq<Attempt>, ledger: seq<Attempt>) {
    forall e :: e in log ==> e.refund in refunds && Resolve(e.refund, ledger) == Some(e.target)
  }

  lemma {:induction false} AdmitLog(refunds: seq<Attempt>, ledger: seq<Attempt>)
    ensures LogOf(Admit(refunds, ledger), refunds, ledger)
  {
    if refunds != [] { AdmitLog(refunds[..|refunds| - 1], ledger); }
  }

  lemma AdmitLast(refunds: seq<Attempt>, r: Attempt, ledger: seq<Attempt>)
    ensures Admit(refunds + [r], ledger) == Extend(Admit(refunds, ledger), r, Resolve(r, ledger))
  { }

  ghost predicate InLog(r: Attempt, log: Log) { exists e :: e in log && e.refund == r }

  /** Entries of a log are told apart by the record id of the refund. */
  lemma {:induction false} LogById(refunds: seq<Attempt>, ledger: seq<Attempt>, d: Admission, e: Admission)
    requires DistinctIds(refunds)
    requires d in Admit(refunds, ledger) && e in Admit(refunds, ledger) && d.refund.Id() == e.refund.Id()
    ensures d == e
  {
    AdmitLog(refunds, ledger);
    var i :| 0 <= i < |refunds| && refunds[i] == d.refund;
    var j :| 0 <= j < |refunds| && refunds[j] == e.refund;
  }
}
