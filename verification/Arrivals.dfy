/** What later arrivals can and cannot change about deliveries already decided. */
module Arrivals {
  import opened Sequences
  import opened Ordering
  import opened Timestamps
  import opened Ledger
  import opened Decisions

  /** later arrives after the ledger: fresh record ids, strictly later receipt strings. */
  ghost predicate ArrivesAfter(ledger: seq<Attempt>, later: seq<Attempt>) {
    && InOrder(ledger + later)
    && forall a, q :: a in ledger && q in later ==>
         a.Id() != q.Id() && Compare(Utf16Key(a.record.receivedAt), Utf16Key(q.record.receivedAt)) < 0
  }

  lemma EarlierInOrder(ledger: seq<Attempt>, later: seq<Attempt>)
    requires InOrder(ledger + later)
    ensures InOrder(ledger)
  {
    forall i, j | 0 <= i < j < |ledger| ensures ByKey()(ledger[i], ledger[j]) {
      assert (ledger + later)[i] == ledger[i] && (ledger + later)[j] == ledger[j];
    }
  }

  lemma SameCount(ledger: seq<Attempt>, later: seq<Attempt>, a: Attempt)
    requires ArrivesAfter(ledger, later) && a in ledger
    ensures Filter(ledger + later, SameRecord(a)) == Filter(ledger, SameRecord(a))
  {
    FilterConcat(ledger, later, SameRecord(a));
    FilterNone(later, SameRecord(a));
  }

  lemma SameFirst(ledger: seq<Attempt>, later: seq<Attempt>, a: Attempt)
    requires a in ledger
    ensures FirstOf(ledger + later, SameScope(a)) == FirstOf(ledger, SameScope(a))
  {
    FirstConcat(ledger, later, SameScope(a));
    FirstFound(ledger, SameScope(a));
  }

  lemma SameBase(ledger: seq<Attempt>, later: seq<Attempt>, a: Attempt)
    requires ArrivesAfter(ledger, later) && a in ledger
    ensures BaseAccepted(a, ledger + later) == BaseAccepted(a, ledger)
  {
    SameCount(ledger, later, a);
    SameFirst(ledger, later, a);
  }

  /** A purchase's group grows only at its end. */
  lemma GroupGrows(ledger: seq<Attempt>, later: seq<Attempt>, a: Attempt)
    requires ArrivesAfter(ledger, later) && a.AnchoredPurchase()
    ensures BusinessGroup(a, ledger + later) == BusinessGroup(a, ledger) + Filter(later, InGroup(a, ledger + later))
  {
    FilterConcat(ledger, later, InGroup(a, ledger + later));
    forall c | c in ledger
      ensures InGroup(a, ledger + later)(c) == InGroup(a, ledger)(c)
    {
      SameBase(ledger, later, c);
    }
    FilterExt(ledger, InGroup(a, ledger + later), InGroup(a, ledger));
  }

  lemma SameHeads(ledger: seq<Attempt>, later: seq<Attempt>, p: Attempt)
    requires ArrivesAfter(ledger, later) && BaseAccepted(p, ledger)
    ensures Heads(p, ledger + later) == Heads(p, ledger)
  {
    if p.AnchoredPurchase() {
      GroupGrows(ledger, later, p);
      BaseInGroup(p, ledger);
    }
  }

  /** No later arrival is received in time to be a target. */
  lemma LaterNeverMatches(ledger: seq<Attempt>, later: seq<Attempt>, r: Attempt, q: Attempt)
    requires ArrivesAfter(ledger, later) && r in ledger && q in later
    ensures !MatchesRefund(r, q)
  {
    if Valid(q.record.receivedAt) && Valid(r.record.receivedAt) {
      StringOrderIsTimeOrder(r.record.receivedAt, q.record.receivedAt);
    }
  }

  lemma SameResolve(ledger: seq<Attempt>, later: seq<Attempt>, r: Attempt)
    requires ArrivesAfter(ledger, later) && r in ledger
    ensures Resolve(r, ledger + later) == Resolve(r, ledger)
  {
    var f, g := StrictTarget(r, ledger + later), StrictTarget(r, ledger);
    FilterConcat(ledger, later, f);
    forall q | q in later ensures !f(q) { LaterNeverMatches(ledger, later, r, q); }
    FilterNone(later, f);
    forall p | p in ledger ensures f(p) == g(p) {
      SameBase(ledger, later, p);
      if BaseAccepted(p, ledger) { SameHeads(ledger, later, p); }
    }
    FilterExt(ledger, f, g);
  }

  lemma {:induction false} AdmitSame(refunds: seq<Attempt>, ledger: seq<Attempt>, other: seq<Attempt>)
    requires forall r :: r in refunds ==> Resolve(r, ledger) == Resolve(r, other)
    ensures Admit(refunds, ledger) == Admit(refunds, other)
  {
    if refunds != [] { AdmitSame(refunds[..|refunds| - 1], ledger, other); }
  }

  /** The refunds offered are those of before, and then the candidates among the arrivals. */
  lemma OfferedGrows(ledger: seq<Attempt>, later: seq<Attempt>)
    requires ArrivesAfter(ledger, later)
    ensures Offered(ledger + later) == Offered(ledger) + Filter(later, RefundCandidate(ledger + later))
  {
    var all := ledger + later;
    EarlierInOrder(ledger, later);
    OfferedInOrder(all);
    OfferedInOrder(ledger);
    FilterConcat(ledger, later, RefundCandidate(all));
    forall a | a in ledger ensures RefundCandidate(all)(a) == RefundCandidate(ledger)(a) { SameBase(ledger, later, a); }
    FilterExt(ledger, RefundCandidate(all), RefundCandidate(ledger));
  }

  lemma SameTurns(ledger: seq<Attempt>, later: seq<Attempt>)
    requires ArrivesAfter(ledger, later)
    ensures Admit(Offered(ledger), ledger + later) == AdmittedLog(ledger)
  {
    OfferedMembers(ledger);
    forall r | r in Offered(ledger) ensures Resolve(r, ledger) == Resolve(r, ledger + later) {
      SameResolve(ledger, later, r);
    }
    AdmitSame(Offered(ledger), ledger, ledger + later);
  }

  function Turns(ledger: seq<Attempt>): seq<Attempt> -> Log { (refunds: seq<Attempt>) => Admit(refunds, ledger) }

  /** The log was extended, by entries for these refunds only. */
  ghost predicate Grew(before: Log, after: Log, refunds: seq<Attempt>) {
    before <= after && forall i :: |before| <= i < |after| ==> after[i].refund in refunds
  }

  lemma GrewTwice(a: Log, b: Log, c: Log, front: seq<Attempt>, last: Attempt)
    requires Grew(a, b, front) && Grew(b, c, [last])
    ensures Grew(a, c, front + [last])
  { }

  /** What one turn does to a log, any number of turns does. */
  lemma {:induction false} MoreTurns(turns: seq<Attempt> -> Log, refunds: seq<Attempt>, more: seq<Attempt>)
    requires forall s, r :: Grew(turns(s), turns(s + [r]), [r])
    ensures Grew(turns(refunds), turns(refunds + more), more)
  {
    if more == [] {
      assert refunds + more == refunds;
    } else {
      var front, last := more[..|more| - 1], more[|more| - 1];
      assert more == front + [last] && refunds + more == (refunds + front) + [last];
      MoreTurns(turns, refunds, front);
      GrewTwice(turns(refunds), turns(refunds + front), turns((refunds + front) + [last]), front, last);
    }
  }

  lemma OneTurn(refunds: seq<Attempt>, r: Attempt, ledger: seq<Attempt>)
    ensures Grew(Admit(refunds, ledger), Admit(refunds + [r], ledger), [r])
  {
    AdmitLast(refunds, r, ledger);
  }

  lemma AdmitGrows(refunds: seq<Attempt>, more: seq<Attempt>, ledger: seq<Attempt>)
    ensures Grew(Admit(refunds, ledger), Admit(refunds + more, ledger), more)
  {
    forall s, r ensures Grew(Turns(ledger)(s), Turns(ledger)(s + [r]), [r]) { OneTurn(s, r, ledger); }
    MoreTurns(Turns(ledger), refunds, more);
  }

  /** The admission log only grows, and only by refunds that arrived later. */
  lemma LogGrows(ledger: seq<Attempt>, later: seq<Attempt>) returns (news: Log)
    requires ArrivesAfter(ledger, later)
    ensures AdmittedLog(ledger + later) == AdmittedLog(ledger) + news
    ensures forall e :: e in news ==> e.refund in later
  {
    var more := Filter(later, RefundCandidate(ledger + later));
    OfferedGrows(ledger, later);
    SameTurns(ledger, later);
    AdmitGrows(Offered(ledger), more, ledger + later);
    FilterMembers(later, RefundCandidate(ledger + later));
    news := NewEntries(AdmittedLog(ledger), AdmittedLog(ledger + later), more);
  }

  lemma NewEntries(before: Log, after: Log, refunds: seq<Attempt>) returns (news: Log)
    requires Grew(before, after, refunds)
    ensures after == before + news && forall e :: e in news ==> e.refund in refunds
  {
    news := after[|before|..];
  }

  /** Targets never change; a business key without a holder can only be taken by a later refund. */
  lemma SameTargetAndWinner(ledger: seq<Attempt>, later: seq<Attempt>, r: Attempt)
    requires ArrivesAfter(ledger, later) && r in ledger
    ensures TargetOf(r, ledger + later) == TargetOf(r, ledger)
    ensures WinnerOf(r, ledger).Some? ==> WinnerOf(r, ledger + later) == WinnerOf(r, ledger)
    ensures WinnerOf(r, ledger).None? && WinnerOf(r, ledger + later).Some? ==>
              WinnerOf(r, ledger + later).value in later
  {
    var news := LogGrows(ledger, later);
    FirstConcat(AdmittedLog(ledger), news, ForAttempt(r));
    FirstConcat(AdmittedLog(ledger), news, SameBusiness(r));
    FirstFound(news, ForAttempt(r));
    FirstFound(news, SameBusiness(r));
  }

  lemma {:induction false} IndexInPart(ledger: seq<Attempt>, later: seq<Attempt>, a: Attempt)
    requires a in ledger + later
    ensures a in ledger ==> IndexOf(ledger + later, a) == IndexOf(ledger, a) < |ledger|
    ensures a !in ledger ==> IndexOf(ledger + later, a) >= |ledger|
  {
    if later == [] {
      assert ledger + later == ledger;
      IndexBound(ledger, a);
    } else {
      var front := later[..|later| - 1];
      assert (ledger + later)[..|ledger + later| - 1] == ledger + front;
      if a in ledger + front { IndexInPart(ledger, front, a); }
    }
  }

  lemma {:induction false} IndexBound(s: seq<Attempt>, a: Attempt)
    requires a in s
    ensures IndexOf(s, a) < |s|
  {
    if a in s[..|s| - 1] { IndexBound(s[..|s| - 1], a); }
  }

  lemma WinnerIsMember(r: Attempt, ledger: seq<Attempt>)
    requires WinnerOf(r, ledger).Some?
    ensures WinnerOf(r, ledger).value in ledger
  {
    FirstFound(AdmittedLog(ledger), SameBusiness(r));
    LogEntry(FirstOf(AdmittedLog(ledger), SameBusiness(r)).value, ledger);
  }

  lemma SameBeaten(ledger: seq<Attempt>, later: seq<Attempt>, r: Attempt)
    requires ArrivesAfter(ledger, later) && r in ledger
    ensures BeatenBy(r, WinnerOf(r, ledger + later), ledger + later) == BeatenBy(r, WinnerOf(r, ledger), ledger)
    ensures BeatenBy(r, WinnerOf(r, ledger), ledger) ==> WinnerOf(r, ledger + later) == WinnerOf(r, ledger)
  {
    SameTargetAndWinner(ledger, later, r);
    IndexInPart(ledger, later, r);
    if WinnerOf(r, ledger).Some? { WinnerIsMember(r, ledger); }
    if WinnerOf(r, ledger + later).Some? { IndexInPart(ledger, later, WinnerOf(r, ledger + later).value); }
  }

  // ----- Decisions

  /** A refused purchase with no accepted purchase of its transaction yet, of which one arrives. */
  predicate Overtaken(a: Attempt, ledger: seq<Attempt>, later: seq<Attempt>)
    requires a in ledger
  {
    && a.AnchoredPurchase()
    && DeliveryStanding(a, ledger).duplicate == Unique
    && !TimeUnreadable(a, Unique)
    && BusinessGroup(a, ledger) == []
    && exists q :: q in later && InGroup(a, ledger + later)(q)
  }

  lemma SameDeliveryStanding(ledger: seq<Attempt>, later: seq<Attempt>, a: Attempt)
    requires ArrivesAfter(ledger, later) && a in ledger
    ensures DeliveryStanding(a, ledger + later) == DeliveryStanding(a, ledger)
  {
    SameCount(ledger, later, a);
    SameFirst(ledger, later, a);
  }

  /** Without a group, a purchase standing alone is refused for a reason of its own. */
  lemma GrouplessIsIneligible(a: Attempt, ledger: seq<Attempt>)
    requires a in ledger && a.AnchoredPurchase()
    requires DeliveryStanding(a, ledger).duplicate == Unique && BusinessGroup(a, ledger) == []
    ensures !Eligible(a)
  {
    RecordCountPositive(a, ledger);
    FirstFound(ledger, SameScope(a));
    if Eligible(a) { BaseInGroup(a, ledger); }
  }

  /** The head of a purchase's group stays; a group without one gets its head from the arrivals. */
  lemma SameHead(ledger: seq<Attempt>, later: seq<Attempt>, a: Attempt)
    requires ArrivesAfter(ledger, later) && a in ledger && a.AnchoredPurchase()
    ensures var before, after := BusinessGroup(a, ledger), BusinessGroup(a, ledger + later);
      if before != [] then after != [] && after[0] == before[0]
      else (after != [] <==> exists q :: q in later && InGroup(a, ledger + later)(q)) && (after != [] ==> after[0] != a)
  {
    GroupGrows(ledger, later, a);
    FilterMembers(later, InGroup(a, ledger + later));
    var more := Filter(later, InGroup(a, ledger + later));
    if more != [] { assert more[0] in more; }
  }

  /** The standing of a purchase that does not repeat a delivery, from the head of its group. */
  function HeadStanding(a: Attempt, group: seq<Attempt>): Standing {
    if group != [] && group[0] != a then Repeats(group[0], a) else Standing(Unique, a)
  }

  lemma PurchaseStandsByHead(a: Attempt, ledger: seq<Attempt>)
    requires a in ledger && a.AnchoredPurchase() && DeliveryStanding(a, ledger).duplicate == Unique
    ensures StandingOf(a, ledger) == HeadStanding(a, BusinessGroup(a, ledger))
  {
    FirstFound(ledger, SameScope(a));
  }

  lemma PurchaseStanding(ledger: seq<Attempt>, later: seq<Attempt>, a: Attempt)
    requires ArrivesAfter(ledger, later) && a in ledger && a.AnchoredPurchase()
    requires DeliveryStanding(a, ledger).duplicate == Unique
    ensures var before, after := StandingOf(a, ledger), StandingOf(a, ledger + later);
      if BusinessGroup(a, ledger) == [] && exists q :: q in later && InGroup(a, ledger + later)(q)
      then before.duplicate == Unique && after.duplicate in {DuplicateDelivery, EventIdConflict}
      else after == before
  {
    SameDeliveryStanding(ledger, later, a);
    PurchaseStandsByHead(a, ledger);
    PurchaseStandsByHead(a, ledger + later);
    SameHead(ledger, later, a);
  }

  lemma OtherStanding(ledger: seq<Attempt>, later: seq<Attempt>, a: Attempt)
    requires ArrivesAfter(ledger, later) && a in ledger
    requires !a.AnchoredPurchase() || DeliveryStanding(a, ledger).duplicate != Unique
    ensures StandingOf(a, ledger + later) == StandingOf(a, ledger)
  {
    SameDeliveryStanding(ledger, later, a);
    SameBeaten(ledger, later, a);
  }

  /** A legacy refund that only lacks the record it names, which arrives. */
  predicate Completed(a: Attempt, ledger: seq<Attempt>, later: seq<Attempt>)
    requires a in ledger
  {
    && a.LegacyRefund()
    && Eligible(a)
    && DeliveryStanding(a, ledger).duplicate == Unique
    && FirstOf(ledger, LegacyTarget(a)).None?
    && exists q :: q in later && LegacyTarget(a)(q)
  }

  lemma SameHasTarget(ledger: seq<Attempt>, later: seq<Attempt>, a: Attempt)
    requires ArrivesAfter(ledger, later) && a in ledger && !a.LegacyRefund()
    ensures HasTarget(a, ledger + later) == HasTarget(a, ledger)
  {
    SameTargetAndWinner(ledger, later, a);
  }

  /** The search for the record a legacy refund names goes on into the arrivals. */
  lemma LegacyHasTarget(ledger: seq<Attempt>, later: seq<Attempt>, a: Attempt)
    requires a.LegacyRefund()
    ensures HasTarget(a, ledger + later) <==> HasTarget(a, ledger) || exists q :: q in later && LegacyTarget(a)(q)
  {
    FirstConcat(ledger, later, LegacyTarget(a));
    FirstFound(later, LegacyTarget(a));
  }

  lemma TargetMattersToRefusal(a: Attempt, duplicate: Duplicate)
    requires a.record.event.Refund? && !TimeUnreadable(a, duplicate)
    ensures Refusal(a, duplicate, true) == Refusal(a, duplicate, false) <==> !(duplicate == Unique && Eligible(a))
  {
    if duplicate == Unique && Eligible(a) {
      assert Refusal(a, duplicate, true) == None;
    } else {
      assert duplicate == Unique ==> Refusal(a, duplicate, true).Some?;
    }
  }

  /** A target matters to the verdict on a refund exactly if nothing else refuses it. */
  lemma TargetMatters(a: Attempt, standing: Standing)
    requires a.record.event.Refund?
    ensures Verdict(a, standing, true) == Verdict(a, standing, false)
       <==> !(standing.duplicate == Unique && Eligible(a))
  {
    if !TimeUnreadable(a, standing.duplicate) { TargetMattersToRefusal(a, standing.duplicate); }
  }

  lemma IneligibleRefusal(a: Attempt, duplicate: Duplicate, targeted: bool)
    requires a.AnchoredPurchase() && !Eligible(a) && !TimeUnreadable(a, Unique) && duplicate != RecordIdCollision
    ensures !TimeUnreadable(a, duplicate) && Refusal(a, duplicate, targeted).Some?
    ensures Refusal(a, duplicate, targeted) == Refusal(a, Unique, targeted)
  { }

  /** An ineligible purchase is refused for the same reason whatever it repeats. */
  lemma IneligibleVerdict(a: Attempt, x: Standing, y: Standing, targeted: bool)
    requires a.AnchoredPurchase() && !Eligible(a)
    requires x.duplicate == Unique && y.duplicate in {DuplicateDelivery, EventIdConflict}
    ensures Verdict(a, x, targeted).accepted == Verdict(a, y, targeted).accepted == false
    ensures Verdict(a, x, targeted).reason == Verdict(a, y, targeted).reason
    ensures Verdict(a, x, targeted) == Verdict(a, y, targeted) <==> TimeUnreadable(a, Unique)
  {
    if !TimeUnreadable(a, Unique) {
      IneligibleRefusal(a, x.duplicate, targeted);
      IneligibleRefusal(a, y.duplicate, targeted);
    }
  }

  lemma LegacyStands(ledger: seq<Attempt>, later: seq<Attempt>, a: Attempt)
    requires ArrivesAfter(ledger, later) && a in ledger && a.LegacyRefund()
    ensures Decide(a, ledger + later) == Decide(a, ledger) <==> !Completed(a, ledger, later)
    ensures Completed(a, ledger, later) ==> !BecomesFact(a, ledger) && BecomesFact(a, ledger + later)
  {
    OtherStanding(ledger, later, a);
    LegacyHasTarget(ledger, later, a);
    TargetMatters(a, StandingOf(a, ledger));
    FactMeaning(a, ledger);
    FactMeaning(a, ledger + later);
  }

  lemma AnchoredStands(ledger: seq<Attempt>, later: seq<Attempt>, a: Attempt)
    requires ArrivesAfter(ledger, later) && a in ledger && !a.LegacyRefund()
    ensures Decide(a, ledger + later) == Decide(a, ledger) <==> !Overtaken(a, ledger, later)
    ensures Decide(a, ledger + later).accepted == Decide(a, ledger).accepted
    ensures Decide(a, ledger + later).reason == Decide(a, ledger).reason
    ensures BecomesFact(a, ledger + later) == BecomesFact(a, ledger)
  {
    SameHasTarget(ledger, later, a);
    if !a.AnchoredPurchase() || DeliveryStanding(a, ledger).duplicate != Unique {
      OtherStanding(ledger, later, a);
    } else {
      PurchaseStanding(ledger, later, a);
      if StandingOf(a, ledger + later) != StandingOf(a, ledger) {
        GrouplessIsIneligible(a, ledger);
        IneligibleVerdict(a, StandingOf(a, ledger), StandingOf(a, ledger + later), HasTarget(a, ledger));
      }
    }
  }

  /** Prefix stability of decisions: arrivals leave a decision as it was, exactly unless the delivery
      is overtaken or completed. Completion makes the delivery a fact; in every other case, even if
      it is overtaken, whether it is accepted, why not, and whether it is a fact stay as they were. */
  lemma DecisionsStand(ledger: seq<Attempt>, later: seq<Attempt>, a: Attempt)
    requires ArrivesAfter(ledger, later) && a in ledger
    ensures Decide(a, ledger + later) == Decide(a, ledger)
       <==> !Overtaken(a, ledger, later) && !Completed(a, ledger, later)
    ensures !Completed(a, ledger, later) ==>
              && Decide(a, ledger + later).accepted == Decide(a, ledger).accepted
              && Decide(a, ledger + later).reason == Decide(a, ledger).reason
              && BecomesFact(a, ledger + later) == BecomesFact(a, ledger)
    ensures Completed(a, ledger, later) ==> !BecomesFact(a, ledger) && BecomesFact(a, ledger + later)
  {
    if a.LegacyRefund() { LegacyStands(ledger, later, a); } else { AnchoredStands(ledger, later, a); }
  }

  /** What an evaluation checks before it decides anything: the record a legacy refund names is there. */
  ghost predicate ReferencesResolve(ledger: seq<Attempt>) {
    forall a :: a in ledger && a.LegacyRefund() ==> exists c :: c in ledger && LegacyTarget(a)(c)
  }

  /** Over a ledger that passed that check nothing is ever completed. */
  lemma CheckedDecisionsStand(ledger: seq<Attempt>, later: seq<Attempt>, a: Attempt)
    requires ArrivesAfter(ledger, later) && a in ledger && ReferencesResolve(ledger)
    ensures !Completed(a, ledger, later)
    ensures Decide(a, ledger + later) == Decide(a, ledger) <==> !Overtaken(a, ledger, later)
    ensures Decide(a, ledger + later).accepted == Decide(a, ledger).accepted
    ensures Decide(a, ledger + later).reason == Decide(a, ledger).reason
    ensures BecomesFact(a, ledger + later) == BecomesFact(a, ledger)
  {
    FirstFound(ledger, LegacyTarget(a));
    DecisionsStand(ledger, later, a);
  }
}
