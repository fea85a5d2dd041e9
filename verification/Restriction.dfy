/** Re-evaluating admission over a part of the accepted facts: the facts themselves, the facts up
    to a watermark, the facts left after redaction. One equation between logs covers all three. */
module Restriction {
  import opened Sequences
  import opened Ordering
  import opened Timestamps
  import opened Ledger
  import opened Caps
  import opened Decisions
  import DecisionRules

  /** The facts that keep retains. */
  function Kept(ledger: seq<Attempt>, keep: Attempt -> bool): seq<Attempt> { Filter(Facts(ledger), keep) }

  /** An entry survives if its refund, its purchase and, for a cancellation, the refund it
      reverses are all retained. */
  predicate SurvivesIn(log: Log, keep: Attempt -> bool, e: Admission) {
    && keep(e.refund) && keep(e.target)
    && (e.refund.Body().reverses.Some? ==>
          FirstOf(log, NamedBy(e.refund)).Some? && keep(FirstOf(log, NamedBy(e.refund)).value.refund))
  }

  function Survives(log: Log, keep: Attempt -> bool): Admission -> bool { (e: Admission) => SurvivesIn(log, keep, e) }

  function KeptEntry(log: Log, keep: Attempt -> bool): Attempt -> bool {
    (a: Attempt) => keep(a) && exists e :: e in log && e.refund == a
  }

  // ----- Acceptance is not disturbed by removing facts

  function FactAndKept(ledger: seq<Attempt>, keep: Attempt -> bool): Attempt -> bool {
    (a: Attempt) => IsFact(ledger)(a) && keep(a)
  }

  lemma KeptIsFilter(ledger: seq<Attempt>, keep: Attempt -> bool)
    ensures Kept(ledger, keep) == Filter(ledger, FactAndKept(ledger, keep))
    ensures forall a :: a in Kept(ledger, keep) <==> a in ledger && BecomesFact(a, ledger) && keep(a)
    ensures InOrder(ledger) ==> InOrder(Kept(ledger, keep))
  {
    FilterFilter(ledger, IsFact(ledger), keep, FactAndKept(ledger, keep));
    FilterMembers(ledger, FactAndKept(ledger, keep));
    if InOrder(ledger) { FilterSorted(ledger, FactAndKept(ledger, keep), ByKey()); }
  }

  /** Filtering cannot raise the number of deliveries with a record id. */
  lemma CountInPart(ledger: seq<Attempt>, f: Attempt -> bool, a: Attempt)
    requires |Filter(ledger, SameRecord(a))| == 1 && a in ledger && f(a)
    ensures |Filter(Filter(ledger, f), SameRecord(a))| == 1
  {
    var both := (x: Attempt) => f(x) && SameRecord(a)(x);
    FilterFilter(ledger, f, SameRecord(a), both);
    FilterFilter(ledger, SameRecord(a), f, both);
    FilterShorter(Filter(ledger, SameRecord(a)), f);
    FilterMember(ledger, both, a);
  }

  lemma KeptIsBase(ledger: seq<Attempt>, keep: Attempt -> bool, a: Attempt)
    requires a in Kept(ledger, keep)
    ensures BaseAccepted(a, Kept(ledger, keep)) && BaseAccepted(a, ledger)
  {
    var f := FactAndKept(ledger, keep);
    KeptIsFilter(ledger, keep);
    FactIsBase(a, ledger);
    CountInPart(ledger, f, a);
    FirstSurvivesFilter(ledger, f, SameScope(a));
  }

  lemma KeptHeads(ledger: seq<Attempt>, keep: Attempt -> bool, p: Attempt)
    requires p in Kept(ledger, keep) && p.AnchoredPurchase()
    ensures Heads(p, Kept(ledger, keep)) && Heads(p, ledger)
  {
    var part := Kept(ledger, keep);
    KeptIsFilter(ledger, keep);
    PurchaseAgreement(p, ledger);
    KeptIsBase(ledger, keep, p);
    BaseInGroup(p, part);
    var q := BusinessGroup(p, part)[0];
    assert q in BusinessGroup(p, part);
    FilterMember(part, InGroup(p, part), q);
    OneFactPerTransaction(p, q, ledger);
  }

  /** The strict candidates over the retained facts are the retained candidates. */
  lemma KeptCandidates(ledger: seq<Attempt>, keep: Attempt -> bool, r: Attempt)
    requires r.AnchoredRefund()
    ensures StrictCandidates(r, Kept(ledger, keep)) == Filter(StrictCandidates(r, ledger), keep)
  {
    var part, f := Kept(ledger, keep), FactAndKept(ledger, keep);
    KeptIsFilter(ledger, keep);
    var both := (p: Attempt) => f(p) && MatchesRefund(r, p);
    forall p | p in part ensures StrictTarget(r, part)(p) == MatchesRefund(r, p) {
      KeptIsBase(ledger, keep, p);
      if p.AnchoredPurchase() { KeptHeads(ledger, keep, p); }
    }
    FilterExt(part, StrictTarget(r, part), (p: Attempt) => MatchesRefund(r, p));
    FilterFilter(ledger, f, (p: Attempt) => MatchesRefund(r, p), both);
    forall p | p in ledger ensures both(p) == (StrictTarget(r, ledger)(p) && keep(p)) {
      if MatchesRefund(r, p) { PurchaseAgreement(p, ledger); }
    }
    FilterFilter(ledger, StrictTarget(r, ledger), keep, both);
  }

  lemma KeptResolve(ledger: seq<Attempt>, keep: Attempt -> bool, r: Attempt)
    requires r.AnchoredRefund() && Resolve(r, ledger).Some?
    ensures Resolve(r, Kept(ledger, keep)) == if keep(Resolve(r, ledger).value) then Resolve(r, ledger) else None
  {
    KeptCandidates(ledger, keep, r);
    var p := StrictCandidates(r, ledger)[0];
    assert StrictCandidates(r, ledger) == [p];
  }

  /** Exactly the retained admitted refunds are offered again. */
  lemma KeptOffered(ledger: seq<Attempt>, keep: Attempt -> bool)
    requires InOrder(ledger)
    ensures Offered(Kept(ledger, keep)) == Filter(Offered(ledger), KeptEntry(AdmittedLog(ledger), keep))
  {
    var part, f, g := Kept(ledger, keep), FactAndKept(ledger, keep), KeptEntry(AdmittedLog(ledger), keep);
    KeptIsFilter(ledger, keep);
    OfferedInOrder(part);
    OfferedInOrder(ledger);
    var both := (a: Attempt) => f(a) && a.AnchoredRefund();
    forall a | a in part ensures RefundCandidate(part)(a) == a.AnchoredRefund() { KeptIsBase(ledger, keep, a); }
    FilterExt(part, RefundCandidate(part), (a: Attempt) => a.AnchoredRefund());
    FilterFilter(ledger, f, (a: Attempt) => a.AnchoredRefund(), both);
    forall a | a in ledger ensures both(a) == (RefundCandidate(ledger)(a) && g(a)) {
      if a.AnchoredRefund() {
        RefundAgreement(a, ledger);
        WinnerMeaning(a, ledger);
        if InLog(a, AdmittedLog(ledger)) {
          var e :| e in AdmittedLog(ledger) && e.refund == a;
          LogEntry(e, ledger);
        }
      }
    }
    FilterFilter(ledger, RefundCandidate(ledger), g, both);
  }

  // ----- Admissibility over the surviving part of a log

  /** A cap that held keeps holding when earlier refunds are removed. */
  lemma CapSurvives(r: Attempt, t: Attempt, log: Log, s: Admission -> bool)
    requires CapHolds(r, t, log)
    ensures CapHolds(r, t, Filter(log, s))
  {
    var prior := Filter(log, SettledOn(t));
    var scale := CapScale(r, t, prior);
    var floor := Larger(t.Body().amount.scale, r.Body().amount.scale);
    MaxScaleIsLeast(prior, floor, scale);
    var both := (e: Admission) => s(e) && SettledOn(t)(e);
    FilterFilter(log, s, SettledOn(t), both);
    FilterFilter(log, SettledOn(t), s, both);
    FilterMembers(prior, s);
    SumFilterAtMost(prior, s, RefundUnits(scale));
    CapMeaning(r, t, Filter(log, s), scale);
  }

  /** What a reversal finds in the surviving part of the log. */
  lemma PriorSurvives(refunds: seq<Attempt>, ledger: seq<Attempt>, r: Attempt, s: Admission -> bool)
    requires DistinctIds(refunds) && FirstOf(Admit(refunds, ledger), NamedBy(r)).Some?
    ensures var d := FirstOf(Admit(refunds, ledger), NamedBy(r));
            FirstOf(Filter(Admit(refunds, ledger), s), NamedBy(r)) == if s(d.value) then d else None
  {
    var log := Admit(refunds, ledger);
    var d := FirstOf(log, NamedBy(r)).value;
    FirstFound(log, NamedBy(r));
    if s(d) {
      FirstSurvivesFilter(log, s, NamedBy(r));
    } else {
      FilterMembers(log, s);
      FirstFound(Filter(log, s), NamedBy(r));
      if FirstOf(Filter(log, s), NamedBy(r)).Some? {
        LogById(refunds, ledger, d, FirstOf(Filter(log, s), NamedBy(r)).value);
      }
    }
  }

  lemma FirstInPrefix(log: Log, full: Log, f: Admission -> bool)
    requires log <= full && FirstOf(log, f).Some?
    ensures FirstOf(full, f) == FirstOf(log, f)
  {
    assert full == log + full[|log|..];
    FirstConcat(log, full[|log|..], f);
  }

  lemma PlainSurvives(full: Log, keep: Attempt -> bool, d: Admission)
    requires d.refund.Body().reverses.None? && keep(d.target)
    ensures Survives(full, keep)(d) == keep(d.refund)
  { }

  /** A reversal holds over the surviving entries exactly if the refund it names is retained. */
  lemma ReversalAgain(refunds: seq<Attempt>, ledger: seq<Attempt>, full: Log, keep: Attempt -> bool, r: Attempt,
                      t: Attempt)
    requires DistinctIds(refunds) && Admit(refunds, ledger) <= full
    requires r.Body().reverses.Some? && ReversalHolds(r, t, Admit(refunds, ledger)) && keep(r) && keep(t)
    ensures ReversalHolds(r, t, Filter(Admit(refunds, ledger), Survives(full, keep)))
         <==> SurvivesIn(full, keep, Admission(r, t))
  {
    var log := Admit(refunds, ledger);
    var d := FirstOf(log, NamedBy(r)).value;
    FirstInPrefix(log, full, NamedBy(r));
    FirstFound(log, NamedBy(r));
    SettledIsPlain(refunds, ledger, d);
    PlainSurvives(full, keep, d);
    PriorSurvives(refunds, ledger, r, Survives(full, keep));
  }

  lemma NoRivalAgain(log: Log, s: Admission -> bool, r: Attempt)
    requires FirstOf(log, SameBusiness(r)).None?
    ensures FirstOf(Filter(log, s), SameBusiness(r)).None?
  { }

  /** A refund that was admissible is admissible over the surviving entries exactly if the refund
      it reverses, if any, is retained. full is the log at the end of the run. */
  lemma AdmissibleAgain(refunds: seq<Attempt>, ledger: seq<Attempt>, full: Log, keep: Attempt -> bool, r: Attempt,
                        t: Attempt)
    requires DistinctIds(refunds) && Admit(refunds, ledger) <= full
    requires Admissible(r, t, Admit(refunds, ledger)) && keep(r) && keep(t)
    ensures Admissible(r, t, Filter(Admit(refunds, ledger), Survives(full, keep)))
         <==> SurvivesIn(full, keep, Admission(r, t))
  {
    NoRivalAgain(Admit(refunds, ledger), Survives(full, keep), r);
    if r.Body().status.Settled? { CapSurvives(r, t, Admit(refunds, ledger), Survives(full, keep)); }
    if r.Body().reverses.Some? { ReversalAgain(refunds, ledger, full, keep, r, t); }
  }

  // ----- The restriction theorem

  /** The turn of a retained, admitted refund, offered again to the surviving entries. */
  lemma KeptTurn(ledger: seq<Attempt>, keep: Attempt -> bool, refunds: seq<Attempt>, full: Log, r: Attempt, t: Attempt)
    requires DistinctIds(refunds) && Admit(refunds, ledger) <= full
    requires r.AnchoredRefund() && Resolve(r, ledger) == Some(t) && keep(r)
    requires Admissible(r, t, Admit(refunds, ledger))
    ensures Extend(Filter(Admit(refunds, ledger), Survives(full, keep)), r, Resolve(r, Kept(ledger, keep)))
         == Filter(Admit(refunds, ledger), Survives(full, keep))
            + (if SurvivesIn(full, keep, Admission(r, t)) then [Admission(r, t)] else [])
  {
    KeptResolve(ledger, keep, r);
    if keep(t) { AdmissibleAgain(refunds, ledger, full, keep, r, t); }
  }

  /** Every entry of the log for one of the refunds is already there when they have had their turn. */
  ghost predicate TurnsTaken(refunds: seq<Attempt>, ledger: seq<Attempt>, full: Log) {
    && DistinctIds(refunds) && Admit(refunds, ledger) <= full
    && (forall r :: r in refunds ==> r.AnchoredRefund())
    && (forall e :: e in full && e.refund in refunds ==> e in Admit(refunds, ledger))
  }

  lemma EarlierTurnsTaken(front: seq<Attempt>, r: Attempt, ledger: seq<Attempt>, full: Log)
    requires TurnsTaken(front + [r], ledger, full)
    ensures TurnsTaken(front, ledger, full) && !InLog(r, Admit(front, ledger)) && r.AnchoredRefund()
    ensures Extend(Admit(front, ledger), r, Resolve(r, ledger)) <= full
    ensures forall e :: e in full && e.refund == r ==> e in Extend(Admit(front, ledger), r, Resolve(r, ledger))
  {
    var all := front + [r];
    AdmitLast(front, r, ledger);
    AdmitLog(front, ledger);
    assert all[|front|] == r;
    assert r in all;
    forall a | a in front ensures a in all && a.Id() != r.Id() {
      var i :| 0 <= i < |front| && front[i] == a;
      assert all[i] == a;
    }
    forall i, j | 0 <= i < j < |front|
      ensures front[i].Id() != front[j].Id()
    {
      assert all[i] == front[i] && all[j] == front[j];
    }
  }

  lemma {:induction false} AdmitKept(ledger: seq<Attempt>, keep: Attempt -> bool, refunds: seq<Attempt>, full: Log)
    requires TurnsTaken(refunds, ledger, full)
    ensures Admit(Filter(refunds, KeptEntry(full, keep)), Kept(ledger, keep))
         == Filter(Admit(refunds, ledger), Survives(full, keep))
  {
    if refunds != [] {
      var front, r := refunds[..|refunds| - 1], refunds[|refunds| - 1];
      assert refunds == front + [r];
      EarlierTurnsTaken(front, r, ledger, full);
      AdmitKept(ledger, keep, front, full);
      LastKept(ledger, keep, front, full, r);
    }
  }

  lemma LastKept(ledger: seq<Attempt>, keep: Attempt -> bool, front: seq<Attempt>, full: Log, r: Attempt)
    requires DistinctIds(front) && !InLog(r, Admit(front, ledger)) && r.AnchoredRefund()
    requires Extend(Admit(front, ledger), r, Resolve(r, ledger)) <= full
    requires forall e :: e in full && e.refund == r ==> e in Extend(Admit(front, ledger), r, Resolve(r, ledger))
    requires Admit(Filter(front, KeptEntry(full, keep)), Kept(ledger, keep))
          == Filter(Admit(front, ledger), Survives(full, keep))
    ensures Admit(Filter(front + [r], KeptEntry(full, keep)), Kept(ledger, keep))
         == Filter(Extend(Admit(front, ledger), r, Resolve(r, ledger)), Survives(full, keep))
  {
    var t := Resolve(r, ledger);
    if t.Some? && Admissible(r, t.value, Admit(front, ledger)) {
      LastAdmittedKept(ledger, keep, front, full, r, t.value);
    } else {
      LastRefusedKept(ledger, keep, front, full, r);
    }
  }

  lemma LastRefusedKept(ledger: seq<Attempt>, keep: Attempt -> bool, front: seq<Attempt>, full: Log, r: Attempt)
    requires !InLog(r, Admit(front, ledger)) && forall e :: e in full && e.refund == r ==> e in Admit(front, ledger)
    ensures Filter(front + [r], KeptEntry(full, keep)) == Filter(front, KeptEntry(full, keep))
  {
    assert !KeptEntry(full, keep)(r);
    FilterConcat(front, [r], KeptEntry(full, keep));
    FilterOne(r, KeptEntry(full, keep));
  }

  lemma LastOffered(front: seq<Attempt>, before: Log, full: Log, keep: Attempt -> bool, r: Attempt, t: Attempt)
    requires before + [Admission(r, t)] <= full
    ensures Filter(front + [r], KeptEntry(full, keep))
         == Filter(front, KeptEntry(full, keep)) + (if keep(r) then [r] else [])
  {
    assert full[|before|] == (before + [Admission(r, t)])[|before|] == Admission(r, t);
    assert KeptEntry(full, keep)(r) == keep(r);
    FilterConcat(front, [r], KeptEntry(full, keep));
    FilterOne(r, KeptEntry(full, keep));
  }

  lemma LastSurvives(before: Log, full: Log, keep: Attempt -> bool, e: Admission)
    ensures Filter(before + [e], Survives(full, keep))
         == Filter(before, Survives(full, keep)) + (if SurvivesIn(full, keep, e) then [e] else [])
  {
    FilterConcat(before, [e], Survives(full, keep));
    FilterOne(e, Survives(full, keep));
  }

  lemma LastAdmittedKept(ledger: seq<Attempt>, keep: Attempt -> bool, front: seq<Attempt>, full: Log, r: Attempt,
                         t: Attempt)
    requires DistinctIds(front) && r.AnchoredRefund() && Resolve(r, ledger) == Some(t)
    requires Admissible(r, t, Admit(front, ledger)) && Admit(front, ledger) + [Admission(r, t)] <= full
    requires Admit(Filter(front, KeptEntry(full, keep)), Kept(ledger, keep))
          == Filter(Admit(front, ledger), Survives(full, keep))
    ensures Admit(Filter(front + [r], KeptEntry(full, keep)), Kept(ledger, keep))
         == Filter(Admit(front, ledger) + [Admission(r, t)], Survives(full, keep))
  {
    LastOffered(front, Admit(front, ledger), full, keep, r, t);
    LastSurvives(Admit(front, ledger), full, keep, Admission(r, t));
    if keep(r) {
      AdmitLast(Filter(front, KeptEntry(full, keep)), r, Kept(ledger, keep));
      KeptTurn(ledger, keep, front, full, r, t);
    }
  }

  /** Restriction: over any part of the accepted facts, admission yields exactly the surviving
      entries of the full run, in the same order and with the same targets. */
  lemma RestrictedAdmission(ledger: seq<Attempt>, keep: Attempt -> bool)
    requires InOrder(ledger)
    ensures AdmittedLog(Kept(ledger, keep)) == Filter(AdmittedLog(ledger), Survives(AdmittedLog(ledger), keep))
  {
    OfferedOnce(ledger);
    OfferedMembers(ledger);
    AdmitKept(ledger, keep, Offered(ledger), AdmittedLog(ledger));
    KeptOffered(ledger, keep);
  }

  /** Redaction: after redacting any set of facts, a remaining refund keeps the target it had
      exactly if that purchase and the refund it reverses, if any, remain; no refund gains one. */
  lemma RedactionKeepsOrDropsTargets(ledger: seq<Attempt>, keep: Attempt -> bool, r: Attempt)
    requires InOrder(ledger) && r in Kept(ledger, keep)
    ensures var before, after := TargetOf(r, ledger), TargetOf(r, Kept(ledger, keep));
            after ==
              if before.Some? && SurvivesIn(AdmittedLog(ledger), keep, Admission(r, before.value)) then before else None
  {
    var part := Kept(ledger, keep);
    KeptIsFilter(ledger, keep);
    RestrictedAdmission(ledger, keep);
    FilterMembers(AdmittedLog(ledger), Survives(AdmittedLog(ledger), keep));
    WinnerMeaning(r, ledger);
    WinnerMeaning(r, part);
    if TargetOf(r, ledger).Some? { TargetMeansEntry(r, ledger); }
    if TargetOf(r, part).Some? { TargetMeansEntry(r, part); }
  }

  /** Fixpoint: the accepted facts admit the same refunds against the same purchases, so the
      correction recorded for a refund names the purchase that admitted it. */
  lemma FactsAdmitTheSame(ledger: seq<Attempt>)
    requires InOrder(ledger)
    ensures AdmittedLog(Facts(ledger)) == AdmittedLog(ledger)
    ensures forall r :: TargetOf(r, Facts(ledger)) == TargetOf(r, ledger)
    ensures forall r :: WinnerOf(r, Facts(ledger)) == WinnerOf(r, ledger)
  {
    var all := (a: Attempt) => true;
    FilterAll(Facts(ledger), all);
    RestrictedAdmission(ledger, all);
    forall e | e in AdmittedLog(ledger) ensures Survives(AdmittedLog(ledger), all)(e) {
      if e.refund.Body().reverses.Some? { ReversedStands(ledger, e); }
    }
    FilterAll(AdmittedLog(ledger), Survives(AdmittedLog(ledger), all));
  }

  /** The refund a reversal names is in the log, and was received no later. */
  lemma ReversedStands(ledger: seq<Attempt>, e: Admission)
    requires e in AdmittedLog(ledger) && e.refund.Body().reverses.Some?
    ensures var d := FirstOf(AdmittedLog(ledger), NamedBy(e.refund));
      d.Some? && ReceivedNoLater(d.value.refund, e.refund)
  {
    var log := AdmittedLog(ledger);
    var j :| 0 <= j < |log| && log[j] == e;
    var i := ExactCancellation(Offered(ledger), ledger, j);
    assert NamedBy(e.refund)(log[i]);
    FirstFound(log, NamedBy(e.refund));
    var d := FirstOf(log, NamedBy(e.refund)).value;
    LogEntry(d, ledger);
    LogEntry(log[i], ledger);
    BaseById(d.refund, log[i].refund, ledger);
  }

  function UpTo(watermark: string): Attempt -> bool { (a: Attempt) => TextAtMost(a.record.receivedAt, watermark) }

  function RefundUpTo(watermark: string): Admission -> bool {
    (e: Admission) => TextAtMost(e.refund.record.receivedAt, watermark)
  }

  lemma EarlierIsUpTo(a: Attempt, b: Attempt, watermark: string)
    requires ReceivedNoLater(a, b) && UpTo(watermark)(b)
    ensures UpTo(watermark)(a)
  {
    StringOrderIsTimeOrder(a.record.receivedAt, b.record.receivedAt);
    CompareTransitive(CodePoints(a.record.receivedAt), CodePoints(b.record.receivedAt), CodePoints(watermark));
  }

  /** Watermark: cutting the facts at any watermark string cuts the log there and changes nothing
      else, because a refund's purchase and the refund it reverses were received no later. */
  lemma WatermarkCutsTheLog(ledger: seq<Attempt>, watermark: string)
    requires InOrder(ledger)
    ensures AdmittedLog(Kept(ledger, UpTo(watermark))) == Filter(AdmittedLog(ledger), RefundUpTo(watermark))
    ensures forall r :: r in Kept(ledger, UpTo(watermark)) ==>
              TargetOf(r, Kept(ledger, UpTo(watermark))) == TargetOf(r, ledger)
  {
    var log, keep := AdmittedLog(ledger), UpTo(watermark);
    forall e | e in log ensures Survives(log, keep)(e) == RefundUpTo(watermark)(e) {
      LogEntry(e, ledger);
      ResolvedTarget(e.refund, ledger);
      if keep(e.refund) {
        EarlierIsUpTo(e.target, e.refund, watermark);
        if e.refund.Body().reverses.Some? {
          ReversedStands(ledger, e);
          EarlierIsUpTo(FirstOf(log, NamedBy(e.refund)).value.refund, e.refund, watermark);
        }
      }
    }
    RestrictedAdmission(ledger, keep);
    FilterExt(log, Survives(log, keep), RefundUpTo(watermark));
    forall r | r in Kept(ledger, keep) ensures TargetOf(r, Kept(ledger, keep)) == TargetOf(r, ledger) {
      KeptIsFilter(ledger, keep);
      RedactionKeepsOrDropsTargets(ledger, keep, r);
      if TargetOf(r, ledger).Some? {
        TargetMeansEntry(r, ledger);
        WinnerMeaning(r, ledger);
        var e :| e in log && e.refund == r;
        assert Survives(log, keep)(e);
      }
    }
  }

  /** At a watermark that is an instant, exactly the facts received by that instant remain. */
  lemma WatermarkIsAnInstant(ledger: seq<Attempt>, watermark: string, a: Attempt)
    requires Parse(watermark).Some?
    ensures a in Kept(ledger, UpTo(watermark)) <==>
      && a in ledger && BecomesFact(a, ledger)
      && Parse(a.record.receivedAt).Some? && Parse(a.record.receivedAt).value <= Parse(watermark).value
  {
    KeptIsFilter(ledger, UpTo(watermark));
    if a in ledger && BecomesFact(a, ledger) {
      DecisionRules.FactRules(a, ledger);
      StringOrderIsTimeOrder(a.record.receivedAt, watermark);
    }
  }
}
