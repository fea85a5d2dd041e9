/** What is decided about a delivery, stated on its fields and on its place among the deliveries. */
module DecisionRules {
  import opened Sequences
  import opened Timestamps
  import opened Ledger
  import opened Decisions
  import opened InputOrder

  // ----- Rules about one delivery

  ghost predicate Foreign(a: Attempt) {
    a.record.tenantId != a.server.tenantId || a.record.appId != a.server.appId
  }

  /** It occurred before the cutoff of its server. */
  ghost predicate BeforeCutoff(a: Attempt) {
    && a.server.staleBefore.Some? && Parse(a.server.staleBefore.value).Some? && Parse(a.record.occurredAt).Some?
    && Parse(a.record.occurredAt).value < Parse(a.server.staleBefore.value).value
  }

  ghost predicate AggregateWithInstallation(a: Attempt) {
    a.record.aggregate && a.record.payload.installationId !in {None, Some("")}
  }

  ghost predicate TimesRead(a: Attempt) { Parse(a.record.receivedAt).Some? && Parse(a.record.occurredAt).Some? }

  ghost predicate CutoffReads(a: Attempt) {
    a.server.staleBefore.Some? ==> Parse(a.server.staleBefore.value).Some?
  }

  /** Nothing about the delivery itself stands against it. */
  ghost predicate Sound(a: Attempt) {
    && TimesRead(a) && CutoffReads(a) && !Foreign(a) && a.consent == Allowed
    && !BeforeCutoff(a) && !AggregateWithInstallation(a)
  }

  ghost predicate IsCommerce(a: Attempt, event: EventName) {
    a.record.event == event && a.record.payload.installationId.Some?
  }

  // ----- Rules about its place among the deliveries

  function HasRecordId(id: string): Attempt -> bool { (c: Attempt) => c.record.recordId == id }

  ghost predicate Collides(a: Attempt, ledger: seq<Attempt>) { Twice(ledger, HasRecordId(a.record.recordId)) }

  function SharesEvent(a: Attempt): Attempt -> bool {
    (c: Attempt) => c.server.tenantId == a.server.tenantId && c.server.appId == a.server.appId
                    && c.record.producer == a.record.producer && c.record.eventId == a.record.eventId
  }

  /** The first delivery of an event, sound, and under a record id of its own. */
  ghost predicate Acceptable(a: Attempt, ledger: seq<Attempt>) {
    Sound(a) && !Collides(a, ledger) && FirstWith(ledger, SharesEvent(a), a)
  }

  ghost predicate SameTransaction(a: Attempt, c: Attempt) {
    && a.server.tenantId == c.server.tenantId && a.server.appId == c.server.appId
    && a.record.payload.transactionId == c.record.payload.transactionId
  }

  /** c is the first acceptable purchase of a's transaction. */
  ghost predicate FirstSale(c: Attempt, a: Attempt, ledger: seq<Attempt>) {
    exists i :: 0 <= i < |ledger| && ledger[i] == c
      && IsCommerce(c, Purchase) && SameTransaction(c, a) && Acceptable(c, ledger)
      && forall j :: 0 <= j < i ==>
           !(IsCommerce(ledger[j], Purchase) && SameTransaction(ledger[j], a) && Acceptable(ledger[j], ledger))
  }

  /** c was admitted for a's transaction, and came before. */
  ghost predicate EarlierRefund(c: Attempt, a: Attempt, ledger: seq<Attempt>) {
    SameTransaction(c, a) && Precedes(ledger, c, a) && exists e :: e in AdmittedLog(ledger) && e.refund == c
  }

  /** a repeats c: the first delivery of its event, or else the sale or refund its transaction is known by. */
  ghost predicate RepeatsDelivery(a: Attempt, c: Attempt, ledger: seq<Attempt>) {
    && c != a
    && if !FirstWith(ledger, SharesEvent(a), a) then FirstWith(ledger, SharesEvent(a), c)
       else (IsCommerce(a, Purchase) && FirstSale(c, a, ledger))
            || (IsCommerce(a, Refund) && EarlierRefund(c, a, ledger))
  }

  ghost predicate Targeted(a: Attempt, ledger: seq<Attempt>) {
    if a.record.payload.installationId.None? && a.record.payload.correctionTarget.Some? then
      exists c :: c in ledger && c.server.tenantId == a.server.tenantId && c.server.appId == a.server.appId
                  && c.record.recordId == a.record.payload.correctionTarget.value
    else exists e :: e in AdmittedLog(ledger) && e.refund == a
  }

  // ----- The definitions follow the rules

  lemma SoundIsEligible(a: Attempt)
    ensures Eligible(a) <==> Sound(a)
  { }

  lemma CollidesIsCounted(a: Attempt, ledger: seq<Attempt>)
    ensures Collides(a, ledger) <==> |Filter(ledger, SameRecord(a))| > 1
  {
    CountMeaning(ledger, HasRecordId(a.record.recordId));
    FilterExt(ledger, HasRecordId(a.record.recordId), SameRecord(a));
  }

  lemma FirstOfEvent(a: Attempt, c: Attempt, ledger: seq<Attempt>)
    ensures FirstOf(ledger, SameScope(a)) == Some(c) <==> FirstWith(ledger, SharesEvent(a), c)
  {
    FirstExt(ledger, SameScope(a), SharesEvent(a));
    FirstMeaning(ledger, SharesEvent(a), c);
  }

  /** Base acceptance is acceptability. */
  lemma AcceptableIsBase(a: Attempt, ledger: seq<Attempt>)
    ensures BaseAccepted(a, ledger) <==> Acceptable(a, ledger)
  {
    SoundIsEligible(a);
    CollidesIsCounted(a, ledger);
    FirstOfEvent(a, a, ledger);
    if FirstOf(ledger, SameScope(a)) == Some(a) {
      FirstFound(ledger, SameScope(a));
      RecordCountPositive(a, ledger);
    }
  }

  lemma SaleInGroup(c: Attempt, a: Attempt, ledger: seq<Attempt>)
    ensures InGroup(a, ledger)(c) <==> IsCommerce(c, Purchase) && SameTransaction(c, a) && Acceptable(c, ledger)
  {
    AcceptableIsBase(c, ledger);
  }

  lemma FirstSaleHeads(c: Attempt, a: Attempt, ledger: seq<Attempt>)
    requires IsCommerce(a, Purchase)
    ensures BusinessGroup(a, ledger) != [] && BusinessGroup(a, ledger)[0] == c <==> FirstSale(c, a, ledger)
  {
    FirstIsHeadOfFilter(ledger, InGroup(a, ledger));
    FirstMeaning(ledger, InGroup(a, ledger), c);
    forall x ensures InGroup(a, ledger)(x)
                <==> IsCommerce(x, Purchase) && SameTransaction(x, a) && Acceptable(x, ledger)
    {
      SaleInGroup(x, a, ledger);
    }
  }

  /** Where both deliveries stand once, their places are compared by their indices. */
  lemma IndexPrecedes(ledger: seq<Attempt>, c: Attempt, a: Attempt)
    requires c in ledger && a in ledger && !Collides(c, ledger) && !Collides(a, ledger)
    ensures IndexOf(ledger, c) < IndexOf(ledger, a) <==> Precedes(ledger, c, a)
  {
    IndexIsThere(ledger, c);
    IndexIsThere(ledger, a);
    if Precedes(ledger, c, a) {
      var i, j :| 0 <= i < j < |ledger| && ledger[i] == c && ledger[j] == a;
      OnePlace(ledger, c, i, IndexOf(ledger, c));
      OnePlace(ledger, a, j, IndexOf(ledger, a));
    }
  }

  lemma OnePlace(ledger: seq<Attempt>, a: Attempt, i: nat, j: nat)
    requires i < |ledger| && j < |ledger| && ledger[i] == ledger[j] == a && !Collides(a, ledger)
    ensures i == j
  {
    var f := HasRecordId(a.record.recordId);
    assert f(ledger[i]) && f(ledger[j]);
  }

  lemma WinnerIsAdmitted(a: Attempt, c: Attempt, ledger: seq<Attempt>)
    requires IsCommerce(a, Refund)
    ensures WinnerOf(a, ledger) == Some(c)
       <==> SameTransaction(c, a) && exists e :: e in AdmittedLog(ledger) && e.refund == c
  {
    FirstFound(AdmittedLog(ledger), SameBusiness(a));
    forall e | e in AdmittedLog(ledger)
      ensures SameBusiness(a)(e) <==> SameTransaction(e.refund, a)
      ensures SameTransaction(e.refund, a) ==> WinnerOf(a, ledger) == Some(e.refund)
    {
      LogEntry(e, ledger);
      if SameTransaction(e.refund, a) {
        OneWinner(Offered(ledger), ledger, e, FirstOf(AdmittedLog(ledger), SameBusiness(a)).value);
      }
    }
  }

  lemma BeatenMeaning(a: Attempt, c: Attempt, ledger: seq<Attempt>)
    requires a in ledger && IsCommerce(a, Refund) && !Collides(a, ledger)
    ensures WinnerOf(a, ledger) == Some(c) && BeatenBy(a, WinnerOf(a, ledger), ledger) <==> EarlierRefund(c, a, ledger)
  {
    WinnerIsAdmitted(a, c, ledger);
    if WinnerOf(a, ledger) == Some(c) {
      var e :| e in AdmittedLog(ledger) && e.refund == c;
      LogEntry(e, ledger);
      AcceptableIsBase(c, ledger);
      IndexPrecedes(ledger, c, a);
    }
  }

  lemma FirstOfEventExists(a: Attempt, ledger: seq<Attempt>) returns (c: Attempt)
    requires a in ledger
    ensures FirstOf(ledger, SameScope(a)) == Some(c)
    ensures forall d :: FirstWith(ledger, SharesEvent(a), d) <==> d == c
  {
    FirstFound(ledger, SameScope(a));
    c := FirstOf(ledger, SameScope(a)).value;
    forall d ensures FirstWith(ledger, SharesEvent(a), d) <==> d == c { FirstOfEvent(a, d, ledger); }
  }

  /** The standing names what the delivery repeats, and nothing where it repeats nothing. */
  ghost predicate Judged(a: Attempt, ledger: seq<Attempt>)
    requires a in ledger
  {
    var standing := StandingOf(a, ledger);
    && standing.duplicate != RecordIdCollision
    && (forall c :: RepeatsDelivery(a, c, ledger) <==> standing.duplicate != Unique && c == standing.canonical)
    && (standing.duplicate == DuplicateDelivery ==> standing.canonical.record.payload == a.record.payload)
    && (standing.duplicate == EventIdConflict ==> standing.canonical.record.payload != a.record.payload)
  }

  lemma SaleRepeats(a: Attempt, c: Attempt, ledger: seq<Attempt>)
    requires a in ledger && DeliveryStanding(a, ledger) == Standing(Unique, a) && IsCommerce(a, Purchase)
    requires FirstWith(ledger, SharesEvent(a), a)
    ensures RepeatsDelivery(a, c, ledger)
       <==> StandingOf(a, ledger).duplicate != Unique && c == StandingOf(a, ledger).canonical
  {
    FirstSaleHeads(c, a, ledger);
  }

  lemma RefundRepeats(a: Attempt, c: Attempt, ledger: seq<Attempt>)
    requires a in ledger && DeliveryStanding(a, ledger) == Standing(Unique, a) && IsCommerce(a, Refund)
    requires FirstWith(ledger, SharesEvent(a), a) && !Collides(a, ledger)
    ensures RepeatsDelivery(a, c, ledger)
       <==> StandingOf(a, ledger).duplicate != Unique && c == StandingOf(a, ledger).canonical
  {
    BeatenMeaning(a, c, ledger);
    IndexBelow(ledger, a);
  }

  lemma IndexBelow(ledger: seq<Attempt>, a: Attempt)
    requires a in ledger
    ensures !BeatenBy(a, Some(a), ledger)
  { }

  lemma OtherRepeats(a: Attempt, c: Attempt, ledger: seq<Attempt>)
    requires a in ledger && !Collides(a, ledger)
    requires !FirstWith(ledger, SharesEvent(a), a) || !(IsCommerce(a, Purchase) || IsCommerce(a, Refund))
    ensures RepeatsDelivery(a, c, ledger)
       <==> StandingOf(a, ledger).duplicate != Unique && c == StandingOf(a, ledger).canonical
  {
    CollidesIsCounted(a, ledger);
    var first := FirstOfEventExists(a, ledger);
  }

  lemma FirstStands(a: Attempt, ledger: seq<Attempt>)
    requires a in ledger && !Collides(a, ledger) && FirstWith(ledger, SharesEvent(a), a)
    ensures DeliveryStanding(a, ledger) == Standing(Unique, a)
  {
    CollidesIsCounted(a, ledger);
    FirstOfEvent(a, a, ledger);
  }

  lemma Repetition(a: Attempt, c: Attempt, ledger: seq<Attempt>)
    requires a in ledger && !Collides(a, ledger)
    ensures RepeatsDelivery(a, c, ledger)
       <==> StandingOf(a, ledger).duplicate != Unique && c == StandingOf(a, ledger).canonical
  {
    if !FirstWith(ledger, SharesEvent(a), a) || !(IsCommerce(a, Purchase) || IsCommerce(a, Refund)) {
      OtherRepeats(a, c, ledger);
    } else {
      FirstStands(a, ledger);
      if IsCommerce(a, Purchase) { SaleRepeats(a, c, ledger); } else { RefundRepeats(a, c, ledger); }
    }
  }

  lemma CollisionStands(a: Attempt, ledger: seq<Attempt>)
    requires a in ledger
    ensures StandingOf(a, ledger).duplicate == RecordIdCollision <==> Collides(a, ledger)
  {
    CollidesIsCounted(a, ledger);
  }

  lemma StandingRules(a: Attempt, ledger: seq<Attempt>)
    requires a in ledger
    ensures StandingOf(a, ledger).duplicate == RecordIdCollision <==> Collides(a, ledger)
    ensures !Collides(a, ledger) ==> Judged(a, ledger)
  {
    CollisionStands(a, ledger);
    if !Collides(a, ledger) {
      forall c ensures RepeatsDelivery(a, c, ledger)
                  <==> StandingOf(a, ledger).duplicate != Unique && c == StandingOf(a, ledger).canonical
      {
        Repetition(a, c, ledger);
      }
    }
  }

  /** Where a stands alone, its target is the record it names, or the purchase it was admitted against. */
  lemma TargetRules(a: Attempt, ledger: seq<Attempt>)
    requires a in ledger && a.record.event.Refund?
    ensures HasTarget(a, ledger) <==> Targeted(a, ledger)
  {
    FirstFound(ledger, LegacyTarget(a));
    if !a.LegacyRefund() {
      if TargetOf(a, ledger).Some? { TargetMeansEntry(a, ledger); }
      if InLog(a, AdmittedLog(ledger)) {
        var e :| e in AdmittedLog(ledger) && e.refund == a;
        LogEntry(e, ledger);
        WinnerMeaning(a, ledger);
      }
    }
  }

  // ----- The decision

  /** A time that is read on the way cannot be read. */
  ghost predicate Unreadable(a: Attempt, ledger: seq<Attempt>) {
    || a.consent == ConsentTimestampInvalid
    || !TimesRead(a)
    || (!Foreign(a) && !Collides(a, ledger) && a.consent == Allowed && !CutoffReads(a))
  }

  /** The first rule that a readable delivery breaks, in the order in which they are asked. */
  ghost function FirstBroken(a: Attempt, collides: bool, conflicts: bool, alone: bool, targeted: bool): Option<Reason> {
    if Foreign(a) then Some(ClientScopeMismatch)
    else if collides then Some(CollidingRecordId)
    else if a.consent == RevisionUnconfirmed then Some(ConsentRevisionUnconfirmed)
    else if a.consent == Withdrawn then Some(ConsentWithdrawn)
    else if BeforeCutoff(a) then Some(TimestampStale)
    else if AggregateWithInstallation(a) then Some(AggregateInstallationJoinForbidden)
    else if conflicts then Some(ConflictingEventId)
    else if a.record.event.Refund? && alone && !targeted then Some(RefundTargetInvalid)
    else None
  }

  ghost predicate Conflicts(a: Attempt, ledger: seq<Attempt>) {
    exists c :: RepeatsDelivery(a, c, ledger) && c.record.payload != a.record.payload
  }

  ghost predicate Alone(a: Attempt, ledger: seq<Attempt>) { forall c :: !RepeatsDelivery(a, c, ledger) }

  ghost predicate Reasoned(a: Attempt, ledger: seq<Attempt>, reason: Option<Reason>) {
    reason ==
      if Unreadable(a, ledger) then Some(TimestampInvalid)
      else FirstBroken(a, Collides(a, ledger), Conflicts(a, ledger), Alone(a, ledger), Targeted(a, ledger))
  }

  ghost predicate Resolved(a: Attempt, ledger: seq<Attempt>, d: Decision) {
    if Unreadable(a, ledger) then d.duplicate == Unique && d.canonicalId.None?
    else if Collides(a, ledger) then d.duplicate == RecordIdCollision && d.canonicalId.None?
    else if Alone(a, ledger) then
      d.duplicate == Unique && d.canonicalId == Some(a.record.recordId)
    else exists c :: RepeatsDelivery(a, c, ledger) && d.canonicalId == Some(c.record.recordId)
                     && d.duplicate == if c.record.payload == a.record.payload then DuplicateDelivery
                                       else EventIdConflict
  }

  lemma UnreadableTimes(a: Attempt, ledger: seq<Attempt>, duplicate: Duplicate)
    requires duplicate == RecordIdCollision <==> Collides(a, ledger)
    ensures TimeUnreadable(a, duplicate) <==> Unreadable(a, ledger)
  { }

  /** Whether a repeats a delivery, and one with another payload, in terms of its standing. */
  lemma StandingTells(a: Attempt, ledger: seq<Attempt>)
    requires a in ledger && Judged(a, ledger)
    ensures var standing := StandingOf(a, ledger);
      && (standing.duplicate == Unique <==> Alone(a, ledger))
      && (standing.duplicate == EventIdConflict <==> Conflicts(a, ledger))
      && (standing.duplicate != Unique ==> RepeatsDelivery(a, standing.canonical, ledger))
  {
    var standing := StandingOf(a, ledger);
    assert standing.duplicate != Unique ==> RepeatsDelivery(a, standing.canonical, ledger);
  }

  lemma RefusalRules(a: Attempt, duplicate: Duplicate, targeted: bool)
    requires !TimeUnreadable(a, duplicate)
    ensures Refusal(a, duplicate, targeted)
         == FirstBroken(a, duplicate == RecordIdCollision, duplicate == EventIdConflict, duplicate == Unique, targeted)
  {
    assert a.OwnScope() <==> !Foreign(a);
    JoinMeaning(a);
    CutoffMeaning(a, duplicate);
  }

  lemma JoinMeaning(a: Attempt)
    ensures ForbiddenJoin(a) <==> AggregateWithInstallation(a)
  { }

  lemma CutoffMeaning(a: Attempt, duplicate: Duplicate)
    requires !TimeUnreadable(a, duplicate)
    ensures Stale(a) <==> BeforeCutoff(a)
  { }

  lemma ReasonFollowsRules(a: Attempt, ledger: seq<Attempt>)
    requires a in ledger
    ensures Reasoned(a, ledger, Decide(a, ledger).reason)
  {
    var duplicate := StandingOf(a, ledger).duplicate;
    StandingRules(a, ledger);
    UnreadableTimes(a, ledger, duplicate);
    if a.record.event.Refund? { TargetRules(a, ledger); }
    if !Unreadable(a, ledger) {
      RefusalRules(a, duplicate, HasTarget(a, ledger));
      if !Collides(a, ledger) {
        StandingTells(a, ledger);
        TargetOfRefunds(a, Conflicts(a, ledger), Alone(a, ledger), HasTarget(a, ledger), Targeted(a, ledger));
      } else {
        CollisionComesFirst(a, duplicate, ledger);
      }
    }
  }

  lemma TargetOfRefunds(a: Attempt, conflicts: bool, alone: bool, one: bool, two: bool)
    requires a.record.event.Refund? ==> one == two
    ensures FirstBroken(a, false, conflicts, alone, one) == FirstBroken(a, false, conflicts, alone, two)
  { }

  lemma CollisionComesFirst(a: Attempt, duplicate: Duplicate, ledger: seq<Attempt>)
    ensures FirstBroken(a, true, duplicate == EventIdConflict, duplicate == Unique, HasTarget(a, ledger))
         == FirstBroken(a, true, Conflicts(a, ledger), Alone(a, ledger), Targeted(a, ledger))
  { }

  lemma ResolutionFollowsRules(a: Attempt, ledger: seq<Attempt>)
    requires a in ledger
    ensures Resolved(a, ledger, Decide(a, ledger)) && (Decide(a, ledger).accepted <==> Decide(a, ledger).reason.None?)
  {
    StandingRules(a, ledger);
    UnreadableTimes(a, ledger, StandingOf(a, ledger).duplicate);
    if !Collides(a, ledger) { StandingTells(a, ledger); }
  }

  /** Every decision, on the fields: a delivery is accepted exactly if no rule refuses it; the reason
      is the first rule it breaks; and it is recorded as what it repeats. */
  lemma DecisionFollowsRules(a: Attempt, ledger: seq<Attempt>)
    requires a in ledger
    ensures var d := Decide(a, ledger);
      && (d.accepted <==> d.reason.None?)
      && Reasoned(a, ledger, d.reason)
      && Resolved(a, ledger, d)
  {
    ReasonFollowsRules(a, ledger);
    ResolutionFollowsRules(a, ledger);
  }

  /** What becomes a fact: a sound delivery that collides with nothing and repeats nothing and, if it
      is a refund, has its target. */
  lemma FactRules(a: Attempt, ledger: seq<Attempt>)
    ensures BecomesFact(a, ledger) <==>
      && a in ledger && Sound(a) && !Collides(a, ledger) && Alone(a, ledger)
      && (a.record.event.Refund? ==> Targeted(a, ledger))
  {
    FactMeaning(a, ledger);
    SoundIsEligible(a);
    if a in ledger {
      StandingRules(a, ledger);
      if !Collides(a, ledger) { StandingTells(a, ledger); }
      if a.record.event.Refund? { TargetRules(a, ledger); }
    }
  }
}
