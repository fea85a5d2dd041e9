/** Evaluating again over the same view of the facts, such as those up to a watermark, after more
    deliveries have arrived. */
module Reproducibility {
  import opened Sequences
  import opened Ledger
  import opened Restriction
  import opened Arrivals
  import N = NetRevenue

  /** Deliveries arrived after the ledger, and none of them is in view: they are past its watermark,
      or redacted. */
  ghost predicate OutOfView(ledger: seq<Attempt>, later: seq<Attempt>, keep: Attempt -> bool) {
    ArrivesAfter(ledger, later) && forall q :: q in later ==> !keep(q)
  }

  ghost predicate NoneCompleted(ledger: seq<Attempt>, later: seq<Attempt>, keep: Attempt -> bool) {
    forall a :: a in ledger && keep(a) ==> !Completed(a, ledger, later)
  }

  lemma OldDeliveriesOnly(ledger: seq<Attempt>, later: seq<Attempt>, keep: Attempt -> bool)
    requires OutOfView(ledger, later, keep)
    ensures Kept(ledger + later, keep) == Filter(ledger, FactAndKept(ledger + later, keep))
  {
    var f := FactAndKept(ledger + later, keep);
    KeptIsFilter(ledger + later, keep);
    FilterConcat(ledger, later, f);
    FilterNone(later, f);
  }

  lemma SameFact(ledger: seq<Attempt>, later: seq<Attempt>, keep: Attempt -> bool, a: Attempt)
    requires OutOfView(ledger, later, keep) && a in ledger
    ensures FactAndKept(ledger + later, keep)(a) == FactAndKept(ledger, keep)(a)
       <==> !(keep(a) && Completed(a, ledger, later))
  {
    DecisionsStand(ledger, later, a);
  }

  /** The facts in view are the ones they were exactly if no legacy refund among them was
      waiting for a record that has arrived. */
  lemma SameFacts(ledger: seq<Attempt>, later: seq<Attempt>, keep: Attempt -> bool)
    requires OutOfView(ledger, later, keep)
    ensures Kept(ledger + later, keep) == Kept(ledger, keep)
       <==> NoneCompleted(ledger, later, keep)
  {
    var f, g := FactAndKept(ledger + later, keep), FactAndKept(ledger, keep);
    OldDeliveriesOnly(ledger, later, keep);
    KeptIsFilter(ledger, keep);
    FilterMembers(ledger, f);
    FilterMembers(ledger, g);
    forall a | a in ledger ensures f(a) == g(a) <==> !(keep(a) && Completed(a, ledger, later)) {
      SameFact(ledger, later, keep, a);
    }
    if NoneCompleted(ledger, later, keep) {
      FilterExt(ledger, f, g);
    } else {
      var a :| a in ledger && keep(a) && Completed(a, ledger, later);
      assert f(a) != g(a);
      assert a in Filter(ledger, f) <==> !(a in Filter(ledger, g));
    }
  }

  /** An evaluation that passed its reference check is given the same facts again. */
  lemma CheckedFactsReproduce(ledger: seq<Attempt>, later: seq<Attempt>, keep: Attempt -> bool)
    requires OutOfView(ledger, later, keep) && ReferencesResolve(ledger)
    ensures Kept(ledger + later, keep) == Kept(ledger, keep)
  {
    forall a | a in ledger ensures !Completed(a, ledger, later) { CheckedDecisionsStand(ledger, later, a); }
    SameFacts(ledger, later, keep);
  }

  /** What survives of the old log does not depend on the new entries. */
  lemma SameSurvival(ledger: seq<Attempt>, news: Log, keep: Attempt -> bool, e: Admission)
    requires e in AdmittedLog(ledger)
    ensures Survives(AdmittedLog(ledger) + news, keep)(e) == Survives(AdmittedLog(ledger), keep)(e)
  {
    FirstConcat(AdmittedLog(ledger), news, NamedBy(e.refund));
    if e.refund.Body().reverses.Some? { ReversedStands(ledger, e); }
  }

  /** The admissions among what is in view are always the ones they were. */
  lemma SameAdmissions(ledger: seq<Attempt>, later: seq<Attempt>, keep: Attempt -> bool)
    requires OutOfView(ledger, later, keep)
    ensures AdmittedLog(Kept(ledger + later, keep)) == AdmittedLog(Kept(ledger, keep))
  {
    var log := AdmittedLog(ledger);
    var news := LogGrows(ledger, later);
    EarlierInOrder(ledger, later);
    RestrictedAdmission(ledger + later, keep);
    RestrictedAdmission(ledger, keep);
    FilterConcat(log, news, Survives(log + news, keep));
    FilterNone(news, Survives(log + news, keep));
    forall e | e in log ensures Survives(log + news, keep)(e) == Survives(log, keep)(e) {
      SameSurvival(ledger, news, keep, e);
    }
    FilterExt(log, Survives(log + news, keep), Survives(log, keep));
  }

  function Both(f: Attempt -> bool, g: Attempt -> bool): Attempt -> bool { (a: Attempt) => f(a) && g(a) }

  /** Anything that a purchase or an anchored refund decides is read off the same deliveries. */
  lemma SamePart(ledger: seq<Attempt>, later: seq<Attempt>, keep: Attempt -> bool,
                 f: Attempt -> bool, g: Attempt -> bool)
    requires OutOfView(ledger, later, keep)
    requires forall a :: f(a) == g(a) && (f(a) ==> !a.LegacyRefund())
    ensures Filter(Kept(ledger + later, keep), f) == Filter(Kept(ledger, keep), g)
  {
    var after, before := FactAndKept(ledger + later, keep), FactAndKept(ledger, keep);
    OldDeliveriesOnly(ledger, later, keep);
    KeptIsFilter(ledger, keep);
    FilterFilter(ledger, after, f, Both(after, f));
    FilterFilter(ledger, before, g, Both(before, g));
    forall a | a in ledger ensures Both(after, f)(a) == Both(before, g)(a) {
      SameFact(ledger, later, keep, a);
    }
    FilterExt(ledger, Both(after, f), Both(before, g));
  }

  lemma SameMember(ledger: seq<Attempt>, later: seq<Attempt>, keep: Attempt -> bool, a: Attempt)
    requires OutOfView(ledger, later, keep) && !a.LegacyRefund()
    ensures a in Kept(ledger + later, keep) <==> a in Kept(ledger, keep)
  {
    OldDeliveriesOnly(ledger, later, keep);
    KeptIsFilter(ledger, keep);
    FilterMember(ledger, FactAndKept(ledger + later, keep), a);
    if a in ledger { SameFact(ledger, later, keep, a); }
  }

  /** Legacy refunds name no refund to reverse. */
  ghost predicate LegacyRefundsReverseNothing(ledger: seq<Attempt>) {
    forall a :: a in ledger && a.LegacyRefund() ==> a.Body().reverses.None?
  }

  lemma SameCancelled(metric: N.Metric, ledger: seq<Attempt>, later: seq<Attempt>, keep: Attempt -> bool, r: Attempt)
    requires OutOfView(ledger, later, keep) && LegacyRefundsReverseNothing(ledger)
    ensures N.Cancelled(metric, Kept(ledger + later, keep), r)
         == N.Cancelled(metric, Kept(ledger, keep), r)
  {
    OldDeliveriesOnly(ledger, later, keep);
    KeptIsFilter(ledger, keep);
    FilterMembers(ledger, FactAndKept(ledger + later, keep));
    forall d | d in ledger && N.CancelsRefund(metric, r)(d)
      ensures d in Kept(ledger + later, keep) <==> d in Kept(ledger, keep)
    {
      SameMember(ledger, later, keep, d);
    }
  }

  lemma SameDeducted(metric: N.Metric, ledger: seq<Attempt>, later: seq<Attempt>, keep: Attempt -> bool, r: Attempt)
    requires OutOfView(ledger, later, keep) && LegacyRefundsReverseNothing(ledger)
    ensures N.Deducted(metric, Kept(ledger + later, keep))(r)
         == N.Deducted(metric, Kept(ledger, keep))(r)
    ensures N.Deducted(metric, Kept(ledger, keep))(r) ==> !r.LegacyRefund()
  {
    SameAdmissions(ledger, later, keep);
    SameCancelled(metric, ledger, later, keep, r);
    var target := TargetOf(r, Kept(ledger, keep));
    assert TargetOf(r, Kept(ledger + later, keep)) == target;
    if target.Some? {
      N.TargetIsVisible(r, Kept(ledger, keep));
      N.TargetIsVisible(r, Kept(ledger + later, keep));
    }
  }

  /** Reproducibility: net revenue over any view of the facts, up to a watermark and before or after any
      redaction, is the same whatever arrives out of view, for every metric definition and every way of
      converting money. */
  lemma SameNet(metric: N.Metric, ledger: seq<Attempt>, later: seq<Attempt>, keep: Attempt -> bool,
                money: Attempt -> int)
    requires OutOfView(ledger, later, keep) && LegacyRefundsReverseNothing(ledger)
    ensures N.Net(metric, Kept(ledger + later, keep), money)
         == N.Net(metric, Kept(ledger, keep), money)
  {
    var after, before := Kept(ledger + later, keep), Kept(ledger, keep);
    SamePart(ledger, later, keep, N.Counted(metric), N.Counted(metric));
    forall r ensures N.Deducted(metric, after)(r) == N.Deducted(metric, before)(r)
      ensures N.Deducted(metric, after)(r) ==> !r.LegacyRefund()
    {
      SameDeducted(metric, ledger, later, keep, r);
    }
    SamePart(ledger, later, keep, N.Deducted(metric, after), N.Deducted(metric, before));
  }
}
