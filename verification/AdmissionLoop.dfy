/** The admission loop as it runs, over three dictionaries, refining the admission log. */
module AdmissionLoop {
  import opened Sequences
  import opened Ledger
  import opened Decisions

  function Lookup<K, V>(m: map<K, V>, k: K): Option<V> { if k in m then Some(m[k]) else None }

  function RefundsIn(log: Log): seq<Attempt> { seq(|log|, i requires 0 <= i < |log| => log[i].refund) }

  /** The settled refunds filed under a purchase. */
  function Filed(settled: map<DecisionKey, seq<Attempt>>, target: Attempt): seq<Attempt> {
    if KeyOf(target) in settled then settled[KeyOf(target)] else []
  }

  function MaxScaleOf(prior: seq<Attempt>, floor: nat): nat {
    if prior == [] then floor
    else Larger(MaxScaleOf(prior[..|prior| - 1], floor), prior[|prior| - 1].Body().amount.scale)
  }

  function UnitsAt(scale: nat): Attempt -> int { (a: Attempt) => Units(a, scale) }

  lemma {:induction false} FiledMoney(log: Log, floor: nat, scale: nat)
    ensures MaxScaleOf(RefundsIn(log), floor) == MaxScale(log, floor)
    ensures Sum(RefundsIn(log), UnitsAt(scale)) == Sum(log, RefundUnits(scale))
  {
    if log != [] {
      FiledMoney(log[..|log| - 1], floor, scale);
      assert RefundsIn(log)[..|log| - 1] == RefundsIn(log[..|log| - 1]);
    }
  }

  // ----- How the dictionaries mirror the log

  ghost predicate WinnersMirror(log: Log, order: seq<BusinessKey>, winners: map<BusinessKey, Attempt>) {
    && |order| == |log|
    && (forall i :: 0 <= i < |log| ==> order[i] == KeyOfBusiness(log[i].refund)
                                       && order[i] in winners && winners[order[i]] == log[i].refund)
    && (forall k :: k in winners ==> k in order)
  }

  ghost predicate TargetsMirror(log: Log, targets: map<DecisionKey, Attempt>) {
    && (forall e :: e in log ==> KeyOf(e.refund) in targets && targets[KeyOf(e.refund)] == e.target)
    && (forall k :: k in targets ==> exists e :: e in log && KeyOf(e.refund) == k)
  }

  ghost predicate SettledMirror(log: Log, ledger: seq<Attempt>, settled: map<DecisionKey, seq<Attempt>>) {
    forall t :: BaseAccepted(t, ledger) ==> Filed(settled, t) == RefundsIn(Filter(log, SettledOn(t)))
  }

  lemma WinnerLookup(log: Log, order: seq<BusinessKey>, winners: map<BusinessKey, Attempt>, r: Attempt)
    requires WinnersMirror(log, order, winners)
    ensures var e := FirstOf(log, SameBusiness(r));
            Lookup(winners, KeyOfBusiness(r)) == if e.Some? then Some(e.value.refund) else None
  {
    FirstFound(log, SameBusiness(r));
    assert forall i :: 0 <= i < |log| ==> (SameBusiness(r)(log[i]) <==> order[i] == KeyOfBusiness(r));
  }

  lemma TargetLookup(log: Log, targets: map<DecisionKey, Attempt>, r: Attempt)
    requires TargetsMirror(log, targets)
    ensures var e := FirstOf(log, ForAttempt(r));
            Lookup(targets, KeyOf(r)) == if e.Some? then Some(e.value.target) else None
  {
    FirstFound(log, ForAttempt(r));
  }

  /** The first winner, in dictionary order, that the reversal names. */
  method FindNamed(reversal: Attempt, order: seq<BusinessKey>, winners: map<BusinessKey, Attempt>, ghost log: Log)
    returns (prior: Option<Attempt>)
    requires WinnersMirror(log, order, winners)
    ensures var e := FirstOf(log, NamedBy(reversal));
            prior == if e.Some? then Some(e.value.refund) else None
  {
    prior := None;
    assert log[..0] == [];
    for i := 0 to |order|
      invariant FirstOf(log[..i], NamedBy(reversal)).None?
    {
      var refund := winners[order[i]];
      assert log[..i + 1][..i] == log[..i];
      if reversal.Body().reverses == Some(refund.Id()) && refund.SameTenant(reversal) {
        assert log == log[..i + 1] + log[i + 1..];
        FirstConcat(log[..i + 1], log[i + 1..], NamedBy(reversal));
        return Some(refund);
      }
    }
    assert log[..|log|] == log;
  }

  method ReversalAccepted(r: Attempt, target: Attempt, order: seq<BusinessKey>, winners: map<BusinessKey, Attempt>,
                          targets: map<DecisionKey, Attempt>, ghost refunds: seq<Attempt>, ghost ledger: seq<Attempt>)
    returns (accepted: bool)
    requires WinnersMirror(Admit(refunds, ledger), order, winners) && TargetsMirror(Admit(refunds, ledger), targets)
    ensures accepted == ReversalHolds(r, target, Admit(refunds, ledger))
  {
    ghost var log := Admit(refunds, ledger);
    FirstFound(log, NamedBy(r));
    var prior := FindNamed(r, order, winners, log);
    accepted := prior.Some?
      && r.Body().status.Reversed? && prior.value.Body().status.Settled?
      && Lookup(targets, KeyOf(prior.value)) == Some(target)
      && ReceivedNoLater(prior.value, r) && OccurredNoLater(prior.value, r)
      && SameAmount(prior.value, r);
  }

  method CapAccepted(r: Attempt, target: Attempt, prior: seq<Attempt>, ghost log: Log) returns (accepted: bool)
    requires prior == RefundsIn(Filter(log, SettledOn(target)))
    ensures accepted == CapHolds(r, target, log)
  {
    var floor := Larger(target.Body().amount.scale, r.Body().amount.scale);
    var scale := MaxScaleOf(prior, floor);
    var refunded := Sum(prior, UnitsAt(scale));
    FiledMoney(Filter(log, SettledOn(target)), floor, scale);
    accepted := refunded + Units(r, scale) <= Units(target, scale);
  }

  /** Both conditions on a refund whose business key is free and whose target is known. */
  method Accepted(r: Attempt, target: Attempt, order: seq<BusinessKey>, winners: map<BusinessKey, Attempt>,
                  targets: map<DecisionKey, Attempt>, settled: map<DecisionKey, seq<Attempt>>,
                  ghost refunds: seq<Attempt>, ghost ledger: seq<Attempt>)
    returns (accepted: bool)
    requires WinnersMirror(Admit(refunds, ledger), order, winners) && TargetsMirror(Admit(refunds, ledger), targets)
    requires SettledMirror(Admit(refunds, ledger), ledger, settled) && BaseAccepted(target, ledger)
    requires FirstOf(Admit(refunds, ledger), SameBusiness(r)).None?
    ensures accepted == Admissible(r, target, Admit(refunds, ledger))
  {
    accepted := true;
    if r.Body().reverses.Some? {
      accepted := ReversalAccepted(r, target, order, winners, targets, refunds, ledger);
    }
    if accepted && r.Body().status.Settled? {
      accepted := CapAccepted(r, target, Filed(settled, target), Admit(refunds, ledger));
    }
  }

  lemma WinnersGrow(log: Log, order: seq<BusinessKey>, winners: map<BusinessKey, Attempt>, e: Admission)
    requires WinnersMirror(log, order, winners) && KeyOfBusiness(e.refund) !in winners
    ensures WinnersMirror(log + [e], order + [KeyOfBusiness(e.refund)], winners[KeyOfBusiness(e.refund) := e.refund])
  { }

  lemma TargetsGrow(log: Log, targets: map<DecisionKey, Attempt>, e: Admission)
    requires TargetsMirror(log, targets)
    requires forall d :: d in log ==> KeyOf(d.refund) != KeyOf(e.refund)
    ensures TargetsMirror(log + [e], targets[KeyOf(e.refund) := e.target])
  { }

  lemma FiledGrows(log: Log, e: Admission, t: Attempt)
    ensures RefundsIn(Filter(log + [e], SettledOn(t)))
         == RefundsIn(Filter(log, SettledOn(t))) + (if SettledOn(t)(e) then [e.refund] else [])
  { }

  lemma SettledGrow(log: Log, ledger: seq<Attempt>, settled: map<DecisionKey, seq<Attempt>>, e: Admission)
    requires SettledMirror(log, ledger, settled) && BaseAccepted(e.target, ledger)
    ensures SettledMirror(log + [e], ledger,
              if e.refund.Body().status.Settled? then settled[KeyOf(e.target) := Filed(settled, e.target) + [e.refund]]
              else settled)
  {
    var next :=
      if e.refund.Body().status.Settled? then settled[KeyOf(e.target) := Filed(settled, e.target) + [e.refund]]
      else settled;
    BaseIsMember(e.target, ledger);
    forall t | BaseAccepted(t, ledger) ensures Filed(next, t) == RefundsIn(Filter(log + [e], SettledOn(t))) {
      FiledGrows(log, e, t);
      if KeyOf(t) == KeyOf(e.target) { BaseById(t, e.target, ledger); }
    }
  }

  /** The target to record for a candidate, or None where the loop moves on. */
  method Judge(r: Attempt, candidates: seq<Attempt>, order: seq<BusinessKey>, winners: map<BusinessKey, Attempt>,
               targets: map<DecisionKey, Attempt>, settled: map<DecisionKey, seq<Attempt>>, ghost refunds: seq<Attempt>)
    returns (target: Option<Attempt>)
    requires WinnersMirror(Admit(refunds, candidates), order, winners)
    requires TargetsMirror(Admit(refunds, candidates), targets)
    requires SettledMirror(Admit(refunds, candidates), candidates, settled)
    ensures target.Some? ==> KeyOfBusiness(r) !in winners && BaseAccepted(target.value, candidates)
    ensures Extend(Admit(refunds, candidates), r, Resolve(r, candidates))
         == Admit(refunds, candidates) + (if target.Some? then [Admission(r, target.value)] else [])
  {
    WinnerLookup(Admit(refunds, candidates), order, winners, r);
    ExtendCases(Admit(refunds, candidates), r, Resolve(r, candidates));
    if KeyOfBusiness(r) in winners { return None; }
    target := Resolve(r, candidates);
    if target.None? { return; }
    ResolvedTarget(r, candidates);
    var accepted := Accepted(r, target.value, order, winners, targets, settled, refunds, candidates);
    if !accepted { return None; }
  }

  lemma ExtendCases(log: Log, r: Attempt, target: Option<Attempt>)
    ensures target.None? || FirstOf(log, SameBusiness(r)).Some? ==> Extend(log, r, target) == log
    ensures target.Some? ==>
              Extend(log, r, target) ==
                log + (if Admissible(r, target.value, log) then [Admission(r, target.value)] else [])
  { }

  /** One candidate offered to the dictionaries. */
  method Offer(r: Attempt, candidates: seq<Attempt>, order: seq<BusinessKey>, winners: map<BusinessKey, Attempt>,
               targets: map<DecisionKey, Attempt>, settled: map<DecisionKey, seq<Attempt>>, ghost refunds: seq<Attempt>)
    returns (order': seq<BusinessKey>, winners': map<BusinessKey, Attempt>,
             targets': map<DecisionKey, Attempt>, settled': map<DecisionKey, seq<Attempt>>)
    requires forall a :: a in refunds ==> a.Id() != r.Id()
    requires WinnersMirror(Admit(refunds, candidates), order, winners)
    requires TargetsMirror(Admit(refunds, candidates), targets)
    requires SettledMirror(Admit(refunds, candidates), candidates, settled)
    ensures WinnersMirror(Admit(refunds + [r], candidates), order', winners')
    ensures TargetsMirror(Admit(refunds + [r], candidates), targets')
    ensures SettledMirror(Admit(refunds + [r], candidates), candidates, settled')
  {
    order', winners', targets', settled' := order, winners, targets, settled;
    var judged := Judge(r, candidates, order, winners, targets, settled, refunds);
    AdmitLast(refunds, r, candidates);
    if judged.None? { return; }
    var target := judged.value;
    AdmitLog(refunds, candidates);
    Appended(Admit(refunds, candidates), order, winners, targets, settled, candidates, Admission(r, target));
    if r.Body().status.Settled? { settled' := settled[KeyOf(target) := Filed(settled, target) + [r]]; }
    winners', order' := winners[KeyOfBusiness(r) := r], order + [KeyOfBusiness(r)];
    targets' := targets[KeyOf(r) := target];
  }

  /** All three dictionaries grow with the log. */
  lemma Appended(log: Log, order: seq<BusinessKey>, winners: map<BusinessKey, Attempt>,
                 targets: map<DecisionKey, Attempt>, settled: map<DecisionKey, seq<Attempt>>,
                 ledger: seq<Attempt>, e: Admission)
    requires WinnersMirror(log, order, winners) && TargetsMirror(log, targets) && SettledMirror(log, ledger, settled)
    requires KeyOfBusiness(e.refund) !in winners && BaseAccepted(e.target, ledger)
    requires forall d :: d in log ==> d.refund.Id() != e.refund.Id()
    ensures WinnersMirror(log + [e], order + [KeyOfBusiness(e.refund)], winners[KeyOfBusiness(e.refund) := e.refund])
    ensures TargetsMirror(log + [e], targets[KeyOf(e.refund) := e.target])
    ensures SettledMirror(log + [e], ledger,
              if e.refund.Body().status.Settled? then settled[KeyOf(e.target) := Filed(settled, e.target) + [e.refund]]
              else settled)
  {
    WinnersGrow(log, order, winners, e);
    TargetsGrow(log, targets, e);
    SettledGrow(log, ledger, settled, e);
  }

  /** One winner per business key and one target per admitted refund, exactly as the log says; the
      candidates may come in any order. */
  method AdmittedRefunds(candidates: seq<Attempt>)
    returns (targets: map<DecisionKey, Attempt>, winners: map<BusinessKey, Attempt>)
    ensures forall r: Attempt :: Lookup(winners, KeyOfBusiness(r)) == WinnerOf(r, candidates)
    ensures forall r: Attempt :: r.Anchored() ==> Lookup(targets, KeyOf(r)) == TargetOf(r, candidates)
  {
    targets, winners := map[], map[];
    var settled: map<DecisionKey, seq<Attempt>> := map[];
    var order: seq<BusinessKey> := [];
    var ordered := Offered(candidates);
    OfferedOnce(candidates);
    for i := 0 to |ordered|
      invariant WinnersMirror(Admit(ordered[..i], candidates), order, winners)
      invariant TargetsMirror(Admit(ordered[..i], candidates), targets)
      invariant SettledMirror(Admit(ordered[..i], candidates), candidates, settled)
    {
      assert ordered[..i + 1] == ordered[..i] + [ordered[i]];
      order, winners, targets, settled := Offer(ordered[i], candidates, order, winners, targets, settled, ordered[..i]);
    }
    assert ordered[..|ordered|] == ordered;
    forall r: Attempt ensures Lookup(winners, KeyOfBusiness(r)) == WinnerOf(r, candidates) {
      WinnerLookup(AdmittedLog(candidates), order, winners, r);
    }
    forall r: Attempt | r.Anchored() ensures Lookup(targets, KeyOf(r)) == TargetOf(r, candidates) {
      TargetLookup(AdmittedLog(candidates), targets, r);
    }
  }

  /** `resolve_refund_target`: the whole loop runs, and one target is looked up. */
  method ResolveRefundTarget(refund: Attempt, candidates: seq<Attempt>) returns (target: Option<Attempt>)
    ensures target == TargetOf(refund, candidates)
  {
    if !refund.Anchored() { return None; }
    var targets, _ := AdmittedRefunds(candidates);
    target := Lookup(targets, KeyOf(refund));
  }

  /** `decide`, step by step. */
  method DecideDelivery(attempt: Attempt, attempts: seq<Attempt>) returns (decision: Decision)
    requires attempt in attempts
    ensures decision == Decide(attempt, attempts)
  {
    FirstFound(attempts, SameScope(attempt));
    var canonical := FirstOf(attempts, SameScope(attempt)).value;
    var duplicate :=
      if |Filter(attempts, SameRecord(attempt))| > 1 then RecordIdCollision
      else if canonical == attempt then Unique
      else Repeats(canonical, attempt).duplicate;
    if duplicate == Unique && attempt.AnchoredPurchase() {
      var business := BusinessGroup(attempt, attempts);
      if business != [] && business[0] != attempt {
        duplicate, canonical := Repeats(business[0], attempt).duplicate, business[0];
      }
    } else if duplicate == Unique && attempt.AnchoredRefund() {
      var _, winners := AdmittedRefunds(attempts);
      var winner := Lookup(winners, KeyOfBusiness(attempt));
      if winner.Some? && winner.value in attempts && IndexOf(attempts, winner.value) < IndexOf(attempts, attempt) {
        duplicate, canonical := Repeats(winner.value, attempt).duplicate, winner.value;
      }
    }
    var targeted := false;
    if attempt.LegacyRefund() {
      targeted := FirstOf(attempts, LegacyTarget(attempt)).Some?;
    } else {
      var target := ResolveRefundTarget(attempt, attempts);
      targeted := target.Some?;
    }
    assert Standing(duplicate, canonical) == StandingOf(attempt, attempts);
    decision := Verdict(attempt, Standing(duplicate, canonical), targeted);
  }
}
