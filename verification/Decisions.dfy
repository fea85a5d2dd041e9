/** The decision on one delivery, and the agreement between the decision and the two other
    derivations of acceptance. */
module Decisions {
  import opened Sequences
  import opened Ledger

  datatype Duplicate = Unique | DuplicateDelivery | EventIdConflict | RecordIdCollision

  datatype Reason =
    | ClientScopeMismatch | CollidingRecordId | ConsentRevisionUnconfirmed | ConsentWithdrawn
    | TimestampStale | AggregateInstallationJoinForbidden | ConflictingEventId | RefundTargetInvalid
    | TimestampInvalid

  datatype Decision = Decision(accepted: bool, duplicate: Duplicate, reason: Option<Reason>,
                               canonicalId: Option<string>)

  /** How a delivery repeats an earlier one, and the delivery it repeats. */
  datatype Standing = Standing(duplicate: Duplicate, canonical: Attempt)

  function IndexOf(s: seq<Attempt>, a: Attempt): nat
    requires a in s
  {
    if a in s[..|s| - 1] then IndexOf(s[..|s| - 1], a) else |s| - 1
  }

  function Repeats(canonical: Attempt, a: Attempt): Standing {
    Standing(if canonical.Body() == a.Body() then DuplicateDelivery else EventIdConflict, canonical)
  }

  /** Standing by record id and event scope. */
  function DeliveryStanding(a: Attempt, ledger: seq<Attempt>): Standing
    requires a in ledger
  {
    FirstFound(ledger, SameScope(a));
    var first := FirstOf(ledger, SameScope(a)).value;
    if |Filter(ledger, SameRecord(a))| > 1 then Standing(RecordIdCollision, first)
    else if first == a then Standing(Unique, first)
    else Repeats(first, a)
  }

  /** Whether an earlier delivery already holds the refund's business key. */
  predicate BeatenBy(a: Attempt, winner: Option<Attempt>, ledger: seq<Attempt>)
    requires a in ledger
  {
    winner.Some? && winner.value in ledger && IndexOf(ledger, winner.value) < IndexOf(ledger, a)
  }

  /** Standing after the business key of purchases and refunds is taken into account. */
  function StandingOf(a: Attempt, ledger: seq<Attempt>): Standing
    requires a in ledger
  {
    var byDelivery := DeliveryStanding(a, ledger);
    if byDelivery.duplicate != Unique then byDelivery
    else if a.AnchoredPurchase() then
      var group := BusinessGroup(a, ledger);
      if group != [] && group[0] != a then Repeats(group[0], a) else byDelivery
    else if a.AnchoredRefund() && BeatenBy(a, WinnerOf(a, ledger), ledger) then
      Repeats(WinnerOf(a, ledger).value, a)
    else byDelivery
  }

  function LegacyTarget(a: Attempt): Attempt -> bool {
    (c: Attempt) => c.SameTenant(a) && Some(c.Id()) == a.Body().correctionTarget
  }

  predicate HasTarget(a: Attempt, ledger: seq<Attempt>) {
    if a.LegacyRefund() then FirstOf(ledger, LegacyTarget(a)).Some? else TargetOf(a, ledger).Some?
  }

  /** The staleness policy is consulted once scope, collision and consent have passed; an
      unreadable time anywhere on the way rejects the delivery as a whole. */
  predicate TimeUnreadable(a: Attempt, duplicate: Duplicate) {
    || a.consent == ConsentTimestampInvalid
    || !Valid(a.record.receivedAt) || !Valid(a.record.occurredAt)
    || (a.OwnScope() && duplicate != RecordIdCollision && a.consent == Allowed
        && a.server.staleBefore.Some? && !Valid(a.server.staleBefore.value))
  }

  function Refusal(a: Attempt, duplicate: Duplicate, targeted: bool): Option<Reason>
    requires !TimeUnreadable(a, duplicate)
  {
    if !a.OwnScope() then Some(ClientScopeMismatch)
    else if duplicate == RecordIdCollision then Some(CollidingRecordId)
    else if a.consent == RevisionUnconfirmed then Some(ConsentRevisionUnconfirmed)
    else if a.consent == Withdrawn then Some(ConsentWithdrawn)
    else if Stale(a) then Some(TimestampStale)
    else if ForbiddenJoin(a) then Some(AggregateInstallationJoinForbidden)
    else if duplicate == EventIdConflict then Some(ConflictingEventId)
    else if a.record.event.Refund? && duplicate == Unique && !targeted then Some(RefundTargetInvalid)
    else None
  }

  function Verdict(a: Attempt, standing: Standing, targeted: bool): Decision {
    if TimeUnreadable(a, standing.duplicate) then Decision(false, Unique, Some(TimestampInvalid), None)
    else
      var reason := Refusal(a, standing.duplicate, targeted);
      var canonicalId :=
        if standing.duplicate == RecordIdCollision then None
        else if standing.duplicate == Unique then Some(a.Id())
        else Some(standing.canonical.Id());
      Decision(reason.None?, standing.duplicate, reason, canonicalId)
  }

  function Decide(a: Attempt, ledger: seq<Attempt>): Decision
    requires a in ledger
  {
    Verdict(a, StandingOf(a, ledger), HasTarget(a, ledger))
  }

  /** Accepted and unique: the delivery becomes a fact. */
  predicate BecomesFact(a: Attempt, ledger: seq<Attempt>) {
    a in ledger && Decide(a, ledger).accepted && Decide(a, ledger).duplicate == Unique
  }

  function IsFact(ledger: seq<Attempt>): Attempt -> bool { (a: Attempt) => BecomesFact(a, ledger) }

  function Facts(ledger: seq<Attempt>): seq<Attempt> { Filter(ledger, IsFact(ledger)) }

  // ----- Agreement of the three derivations

  lemma RecordCountPositive(a: Attempt, ledger: seq<Attempt>)
    requires a in ledger
    ensures |Filter(ledger, SameRecord(a))| >= 1
  { }

  /** What the verdict comes to once the standing is known. */
  lemma VerdictMeaning(a: Attempt, standing: Standing, targeted: bool)
    ensures (var d := Verdict(a, standing, targeted);
             d.accepted && d.duplicate == Unique)
       <==> standing.duplicate == Unique && Eligible(a) && (a.record.event.Refund? ==> targeted)
  { }

  /** A delivery becomes a fact exactly if it stands alone, is eligible and, for a refund, has a target. */
  lemma FactMeaning(a: Attempt, ledger: seq<Attempt>)
    ensures BecomesFact(a, ledger) <==>
              a in ledger && StandingOf(a, ledger).duplicate == Unique && Eligible(a)
              && (a.record.event.Refund? ==> HasTarget(a, ledger))
  {
    if a in ledger { VerdictMeaning(a, StandingOf(a, ledger), HasTarget(a, ledger)); }
  }

  lemma FactIsBase(a: Attempt, ledger: seq<Attempt>)
    requires BecomesFact(a, ledger)
    ensures BaseAccepted(a, ledger)
  {
    FactMeaning(a, ledger);
    RecordCountPositive(a, ledger);
    FirstFound(ledger, SameScope(a));
  }

  lemma BaseStandsAlone(a: Attempt, ledger: seq<Attempt>)
    requires a in ledger && BaseAccepted(a, ledger)
    ensures DeliveryStanding(a, ledger) == Standing(Unique, a)
  { }

  /** A base-accepted anchored purchase has a head in its group. */
  lemma BaseInGroup(a: Attempt, ledger: seq<Attempt>)
    requires a.AnchoredPurchase() && BaseAccepted(a, ledger)
    ensures a in BusinessGroup(a, ledger)
  {
    BaseIsMember(a, ledger);
    FilterMember(ledger, InGroup(a, ledger), a);
  }

  /** Purchases: the decision agrees with base acceptance and headship. */
  lemma PurchaseAgreement(a: Attempt, ledger: seq<Attempt>)
    requires a in ledger && a.AnchoredPurchase()
    ensures BecomesFact(a, ledger) <==> BaseAccepted(a, ledger) && Heads(a, ledger)
  {
    FactMeaning(a, ledger);
    if BaseAccepted(a, ledger) { BaseStandsAlone(a, ledger); }
    if BecomesFact(a, ledger) {
      FactIsBase(a, ledger);
      BaseInGroup(a, ledger);
    }
  }

  /** The log holds one entry per business key. */
  lemma {:induction false} OneWinner(refunds: seq<Attempt>, ledger: seq<Attempt>, d: Admission, e: Admission)
    requires d in Admit(refunds, ledger) && e in Admit(refunds, ledger)
    requires KeyOfBusiness(d.refund) == KeyOfBusiness(e.refund)
    ensures d == e
  {
    var front := refunds[..|refunds| - 1];
    FirstFound(Admit(front, ledger), SameBusiness(refunds[|refunds| - 1]));
    if d in Admit(front, ledger) && e in Admit(front, ledger) { OneWinner(front, ledger, d, e); }
  }

  lemma LogEntry(e: Admission, ledger: seq<Attempt>)
    requires e in AdmittedLog(ledger)
    ensures e.refund in ledger && e.refund.AnchoredRefund() && BaseAccepted(e.refund, ledger)
    ensures Resolve(e.refund, ledger) == Some(e.target)
  {
    AdmitLog(Offered(ledger), ledger);
    OfferedMembers(ledger);
  }

  /** A refund holds its own key exactly if the log has an entry for it, and then the entry's
      target is the one recorded for it. */
  lemma WinnerMeaning(a: Attempt, ledger: seq<Attempt>)
    ensures WinnerOf(a, ledger) == Some(a) <==> InLog(a, AdmittedLog(ledger))
    ensures forall e :: e in AdmittedLog(ledger) && e.refund == a ==> TargetOf(a, ledger) == Some(e.target)
  {
    var log := AdmittedLog(ledger);
    FirstFound(log, SameBusiness(a));
    FirstFound(log, ForAttempt(a));
    forall e | e in log && e.refund == a
      ensures WinnerOf(a, ledger) == Some(a) && TargetOf(a, ledger) == Some(e.target)
    {
      OneWinner(Offered(ledger), ledger, e, FirstOf(log, SameBusiness(a)).value);
      LogEntry(e, ledger);
      var d := FirstOf(log, ForAttempt(a)).value;
      LogEntry(d, ledger);
      BaseById(a, d.refund, ledger);
    }
    if WinnerOf(a, ledger) == Some(a) {
      assert FirstOf(log, SameBusiness(a)).value in log;
    }
  }

  lemma TargetMeansEntry(a: Attempt, ledger: seq<Attempt>)
    requires a in ledger && TargetOf(a, ledger).Some?
    ensures InLog(a, AdmittedLog(ledger)) && a.AnchoredRefund()
  {
    var log := AdmittedLog(ledger);
    FirstFound(log, ForAttempt(a));
    var e := FirstOf(log, ForAttempt(a)).value;
    LogEntry(e, ledger);
    BaseById(e.refund, a, ledger);
  }

  lemma UnbeatenTargetedRefund(a: Attempt, ledger: seq<Attempt>)
    requires a in ledger && a.AnchoredRefund() && BaseAccepted(a, ledger)
    requires WinnerOf(a, ledger) == Some(a) && TargetOf(a, ledger).Some?
    ensures BecomesFact(a, ledger)
  {
    BaseStandsAlone(a, ledger);
    FactMeaning(a, ledger);
  }

  lemma FactRefundHasTarget(a: Attempt, ledger: seq<Attempt>)
    requires a.AnchoredRefund() && BecomesFact(a, ledger)
    ensures TargetOf(a, ledger).Some?
  {
    FactMeaning(a, ledger);
  }

  /** Refunds: the decision agrees with the admission log. */
  lemma RefundAgreement(a: Attempt, ledger: seq<Attempt>)
    requires a in ledger && a.AnchoredRefund()
    ensures BecomesFact(a, ledger) <==> WinnerOf(a, ledger) == Some(a)
  {
    WinnerMeaning(a, ledger);
    if BecomesFact(a, ledger) {
      FactRefundHasTarget(a, ledger);
      TargetMeansEntry(a, ledger);
    }
    if WinnerOf(a, ledger) == Some(a) {
      var e :| e in AdmittedLog(ledger) && e.refund == a;
      LogEntry(e, ledger);
      UnbeatenTargetedRefund(a, ledger);
    }
  }

  /** At most one accepted fact per tenant, app and transaction id, of each kind. */
  lemma OneFactPerTransaction(a: Attempt, b: Attempt, ledger: seq<Attempt>)
    requires BecomesFact(a, ledger) && BecomesFact(b, ledger)
    requires a.Anchored() && b.Anchored() && KeyOfBusiness(a) == KeyOfBusiness(b)
    ensures a == b
  {
    if a.AnchoredPurchase() {
      PurchaseAgreement(a, ledger);
      PurchaseAgreement(b, ledger);
      SameGroup(a, b, ledger);
    } else {
      RefundAgreement(a, ledger);
      RefundAgreement(b, ledger);
      FirstSameBusiness(a, b, ledger);
    }
  }

  lemma SameGroup(a: Attempt, b: Attempt, ledger: seq<Attempt>)
    requires a.AnchoredPurchase() && b.AnchoredPurchase() && KeyOfBusiness(a) == KeyOfBusiness(b)
    ensures BusinessGroup(a, ledger) == BusinessGroup(b, ledger)
  {
    FilterExt(ledger, InGroup(a, ledger), InGroup(b, ledger));
  }

  lemma FirstSameBusiness(a: Attempt, b: Attempt, ledger: seq<Attempt>)
    requires KeyOfBusiness(a) == KeyOfBusiness(b)
    ensures WinnerOf(a, ledger) == WinnerOf(b, ledger)
  { }

  /** c is another delivery of the ledger that a repeats, by event scope or by business key. */
  ghost predicate RepeatOf(a: Attempt, c: Attempt, ledger: seq<Attempt>) {
    c in ledger && c != a && (SameScope(a)(c) || KeyOfBusiness(c) == KeyOfBusiness(a))
  }

  lemma RepeatFound(a: Attempt, ledger: seq<Attempt>)
    requires a in ledger && StandingOf(a, ledger).duplicate in {DuplicateDelivery, EventIdConflict}
    ensures var standing := StandingOf(a, ledger);
            RepeatOf(a, standing.canonical, ledger)
            && (standing.canonical.Body() == a.Body() <==> standing.duplicate == DuplicateDelivery)
  {
    if DeliveryStanding(a, ledger).duplicate == Unique {
      BusinessRepeatNamesAFact(a, ledger);
    } else {
      FirstFound(ledger, SameScope(a));
    }
  }

  /** What a recorded standing means: a collision is a record id that occurs twice and is never
      accepted; a unique delivery is its own canonical record; a repeat names another delivery of
      its scope or business key, with the same payload exactly if it is a duplicate delivery; and
      a repeat with another payload is never accepted. */
  lemma StandingMeaning(a: Attempt, ledger: seq<Attempt>)
    requires a in ledger && Decide(a, ledger).reason != Some(TimestampInvalid)
    ensures var d := Decide(a, ledger);
      && (d.duplicate == RecordIdCollision <==> |Filter(ledger, SameRecord(a))| > 1)
      && (d.duplicate == RecordIdCollision ==> !d.accepted && d.canonicalId.None?)
      && (d.duplicate == Unique ==> d.canonicalId == Some(a.Id()))
      && (d.duplicate == EventIdConflict ==> !d.accepted)
      && (d.duplicate in {DuplicateDelivery, EventIdConflict} ==>
            exists c :: RepeatOf(a, c, ledger) && d.canonicalId == Some(c.Id())
                        && (c.Body() == a.Body() <==> d.duplicate == DuplicateDelivery))
  {
    var standing := StandingOf(a, ledger);
    if standing.duplicate in {DuplicateDelivery, EventIdConflict} { RepeatFound(a, ledger); }
  }

  /** Nothing accepted is lost: a base-accepted anchored purchase is represented by exactly one fact
      with its transaction id. */
  lemma PurchaseIsRepresented(a: Attempt, ledger: seq<Attempt>) returns (head: Attempt)
    requires a.AnchoredPurchase() && BaseAccepted(a, ledger)
    ensures BecomesFact(head, ledger) && head.AnchoredPurchase() && KeyOfBusiness(head) == KeyOfBusiness(a)
    ensures forall p :: BecomesFact(p, ledger) && p.Anchored() && KeyOfBusiness(p) == KeyOfBusiness(a) ==> p == head
  {
    BaseInGroup(a, ledger);
    head := BusinessGroup(a, ledger)[0];
    assert head in BusinessGroup(a, ledger);
    FilterMember(ledger, InGroup(a, ledger), head);
    SameGroup(a, head, ledger);
    PurchaseAgreement(head, ledger);
    forall p | BecomesFact(p, ledger) && p.Anchored() && KeyOfBusiness(p) == KeyOfBusiness(a) ensures p == head {
      OneFactPerTransaction(p, head, ledger);
    }
  }

  /** A delivery recorded as a business repeat repeats a fact: the canonical id names one. */
  lemma BusinessRepeatNamesAFact(a: Attempt, ledger: seq<Attempt>)
    requires a in ledger && DeliveryStanding(a, ledger).duplicate == Unique && StandingOf(a, ledger).duplicate != Unique
    ensures BecomesFact(StandingOf(a, ledger).canonical, ledger)
    ensures KeyOfBusiness(StandingOf(a, ledger).canonical) == KeyOfBusiness(a)
  {
    var c := StandingOf(a, ledger).canonical;
    if a.AnchoredPurchase() {
      assert c == BusinessGroup(a, ledger)[0];
      assert c in BusinessGroup(a, ledger);
      FilterMember(ledger, InGroup(a, ledger), c);
      SameGroup(a, c, ledger);
      PurchaseAgreement(c, ledger);
    } else {
      FirstFound(AdmittedLog(ledger), SameBusiness(a));
      var e := FirstOf(AdmittedLog(ledger), SameBusiness(a)).value;
      LogEntry(e, ledger);
      WinnerMeaning(c, ledger);
      RefundAgreement(c, ledger);
    }
  }

  /** An admitted refund was taken against an accepted settled purchase of the same installation,
      original transaction and currency, in the same app, neither received nor occurred later, not
      declared ineligible, and the one it names if it names one; and no other fact fits. */
  lemma AdmittedAgainstTheOnlyFit(e: Admission, ledger: seq<Attempt>)
    requires e in AdmittedLog(ledger)
    ensures BecomesFact(e.refund, ledger) && BecomesFact(e.target, ledger)
    ensures e.target.record.event.Purchase? && e.target.Body().status.Settled? && e.target.SameTenant(e.refund)
    ensures e.target.Body().installationId == e.refund.Body().installationId && e.refund.Body().installationId.Some?
    ensures e.refund.Body().originalTransactionId == Some(OriginalTransaction(e.target))
    ensures e.target.Body().amount.currency == e.refund.Body().amount.currency
    ensures ReceivedNoLater(e.target, e.refund) && OccurredNoLater(e.target, e.refund)
    ensures e.target.Id() !in e.refund.server.ineligibleTargets
    ensures e.refund.Body().correctionTarget.Some? ==> e.refund.Body().correctionTarget.value == e.target.Id()
    ensures forall p :: BecomesFact(p, ledger) && MatchesRefund(e.refund, p) ==> p == e.target
  {
    var r, t := e.refund, e.target;
    LogEntry(e, ledger);
    ResolvedTarget(r, ledger);
    RefundAgreement(r, ledger);
    WinnerMeaning(r, ledger);
    PurchaseAgreement(t, ledger);
    forall p | BecomesFact(p, ledger) && MatchesRefund(r, p) ensures p == t {
      PurchaseAgreement(p, ledger);
      OnlyOne(ledger, StrictTarget(r, ledger), p, t);
    }
  }
}
