/** What linked reversals do to purchase-net revenue. */
module Reversals {
  import opened Sequences
  import opened Money
  import opened Ledger
  import opened Caps
  import opened Decisions
  import opened Restriction
  import opened NetRevenue

  /** An anchored reversal among the visible facts names an earlier settled refund of the same
      purchase and the same exact value; converted, it is worth what was deducted. */
  lemma ReversalIsExact(ledger: seq<Attempt>, keep: Attempt -> bool, d: Attempt, r: Attempt, rate: Rate,
                        targetScale: nat)
    requires InOrder(ledger) && d in Kept(ledger, keep) && r in Kept(ledger, keep)
    requires d.AnchoredRefund() && d.Body().reverses == Some(r.Id()) && d.SameTenant(r)
    ensures d.Body().status.Reversed? && r.Body().status.Settled?
    ensures TargetOf(d, ledger) == TargetOf(r, ledger) && TargetOf(r, ledger).Some?
    ensures ReceivedNoLater(r, d) && OccurredNoLater(r, d) && SameAmount(r, d)
    ensures ConvertAt(r.Body().amount, rate, targetScale) == ConvertAt(d.Body().amount, rate, targetScale)
  {
    var log := AdmittedLog(ledger);
    KeptIsFilter(ledger, keep);
    RefundAgreement(d, ledger);
    WinnerMeaning(d, ledger);
    var e :| e in log && e.refund == d;
    var j :| 0 <= j < |log| && log[j] == e;
    var i := ExactCancellation(Offered(ledger), ledger, j);
    LogEntry(log[i], ledger);
    BaseById(log[i].refund, r, ledger);
    WinnerMeaning(r, ledger);
    assert log[i] in log;
    EqualAmountsConvertEqually(r, d, rate, targetScale);
  }

  lemma EqualAmountsConvertEqually(a: Attempt, b: Attempt, rate: Rate, targetScale: nat)
    requires SameAmount(a, b)
    ensures ConvertAt(a.Body().amount, rate, targetScale) == ConvertAt(b.Body().amount, rate, targetScale)
  {
    var scale := Larger(a.Body().amount.scale, b.Body().amount.scale);
    ConvertAtScale(a.Body().amount, rate, targetScale, scale);
    ConvertAtScale(b.Body().amount, rate, targetScale, scale);
  }

  function Except(keep: Attempt -> bool, d: Attempt): Attempt -> bool { (a: Attempt) => keep(a) && a != d }

  function Differs(d: Attempt): Attempt -> bool { (a: Attempt) => a != d }

  lemma KeptExcept(ledger: seq<Attempt>, keep: Attempt -> bool, d: Attempt)
    ensures Kept(ledger, Except(keep, d)) == Filter(Kept(ledger, keep), Differs(d))
  {
    FilterFilter(Facts(ledger), keep, Differs(d), Except(keep, d));
  }

  /** The entry of a settled refund names no earlier refund, and its target is a purchase. */
  lemma SettledEntry(ledger: seq<Attempt>, r: Attempt)
    requires r in ledger && r.Body().status.Settled? && TargetOf(r, ledger).Some?
    ensures r.Body().reverses.None? && TargetOf(r, ledger).value.record.event.Purchase?
  {
    TargetMeansEntry(r, ledger);
    var e :| e in AdmittedLog(ledger) && e.refund == r;
    WinnerMeaning(r, ledger);
    LogEntry(e, ledger);
    ResolvedTarget(r, ledger);
    SettledIsPlain(Offered(ledger), ledger, e);
  }

  /** Settled refunds resolve alike with and without a reversal in view. */
  lemma SameTargetWithout(ledger: seq<Attempt>, keep: Attempt -> bool, d: Attempt, r: Attempt)
    requires InOrder(ledger) && d.record.event.Refund? && r != d
    requires r in Kept(ledger, keep) && r.Body().status.Settled?
    ensures TargetOf(r, Kept(ledger, Except(keep, d))) == TargetOf(r, Kept(ledger, keep))
  {
    KeptIsFilter(ledger, keep);
    KeptIsFilter(ledger, Except(keep, d));
    RedactionKeepsOrDropsTargets(ledger, keep, r);
    RedactionKeepsOrDropsTargets(ledger, Except(keep, d), r);
    if TargetOf(r, ledger).Some? { SettledEntry(ledger, r); }
  }

  ghost predicate Reverses(metric: Metric, d: Attempt, r: Attempt) { metric.cancels && CancelsRefund(metric, r)(d) }

  /** Whether a settled refund is deducted changes with the reversal d only if d reverses it and
      nothing else in view does. */
  lemma DeductionWithout(metric: Metric, ledger: seq<Attempt>, keep: Attempt -> bool, d: Attempt, r: Attempt)
    requires InOrder(ledger) && d.record.event.Refund? && d.Body().status.Reversed?
    requires r in Kept(ledger, keep)
    ensures r != d && !(Reverses(metric, d, r) && d in Kept(ledger, keep)
                        && forall x :: x in Kept(ledger, keep) && Reverses(metric, x, r) ==> x == d)
      ==> Deducted(metric, Kept(ledger, Except(keep, d)))(r) == Deducted(metric, Kept(ledger, keep))(r)
    ensures !Deducted(metric, Kept(ledger, keep))(d)
  {
    var with, without := Kept(ledger, keep), Kept(ledger, Except(keep, d));
    KeptIsFilter(ledger, keep);
    KeptIsFilter(ledger, Except(keep, d));
    CancelledWithout(metric, ledger, keep, d, r);
    if r != d && r.Body().status.Settled? {
      SameTargetWithout(ledger, keep, d, r);
      if TargetOf(r, with).Some? {
        TargetIsVisible(r, with);
        TargetIsVisible(r, without);
      }
    }
  }

  lemma CancelledWithout(metric: Metric, ledger: seq<Attempt>, keep: Attempt -> bool, d: Attempt, r: Attempt)
    ensures Cancelled(metric, Kept(ledger, Except(keep, d)), r) ==> Cancelled(metric, Kept(ledger, keep), r)
    ensures Cancelled(metric, Kept(ledger, keep), r) && !Cancelled(metric, Kept(ledger, Except(keep, d)), r) ==>
              d in Kept(ledger, keep) && forall x :: x in Kept(ledger, keep) && Reverses(metric, x, r) ==> x == d
  {
    KeptExcept(ledger, keep, d);
    FilterMembers(Kept(ledger, keep), Differs(d));
  }

  lemma SamePurchases(metric: Metric, ledger: seq<Attempt>, keep: Attempt -> bool, d: Attempt)
    requires d.record.event.Refund?
    ensures Purchases(metric, Kept(ledger, Except(keep, d))) == Purchases(metric, Kept(ledger, keep))
  {
    KeptExcept(ledger, keep, d);
    FilterFilter(Kept(ledger, keep), Differs(d), Counted(metric), Counted(metric));
  }

  /** A reversal of nothing that would be deducted without it changes nothing: in particular no
      reversal does where the definition does not let reversals cancel. */
  lemma IdleReversal(metric: Metric, ledger: seq<Attempt>, keep: Attempt -> bool, d: Attempt, money: Attempt -> int)
    requires InOrder(ledger) && d.record.event.Refund? && d.Body().status.Reversed?
    requires forall r :: r in Refunds(metric, Kept(ledger, Except(keep, d))) ==> !Reverses(metric, d, r)
    ensures Net(metric, Kept(ledger, Except(keep, d)), money) == Net(metric, Kept(ledger, keep), money)
  {
    var with, without := Kept(ledger, keep), Kept(ledger, Except(keep, d));
    KeptExcept(ledger, keep, d);
    SamePurchases(metric, ledger, keep, d);
    FilterMembers(with, Differs(d));
    FilterMembers(without, Deducted(metric, without));
    forall r | r in with
      ensures Deducted(metric, with)(r) == (Differs(d)(r) && Deducted(metric, without)(r))
    {
      DeductionWithout(metric, ledger, keep, d, r);
      if r != d { StillDeducted(metric, ledger, keep, d, r); }
    }
    FilterFilter(with, Differs(d), Deducted(metric, without), Deducted(metric, with));
  }

  /** What is deducted in view of a reversal is deducted without it, and again without what it
      does not reverse. */
  lemma StillDeducted(metric: Metric, ledger: seq<Attempt>, keep: Attempt -> bool, d: Attempt, r: Attempt)
    requires InOrder(ledger) && d.record.event.Refund? && d.Body().status.Reversed?
    requires r in Kept(ledger, keep) && r != d
    ensures Deducted(metric, Kept(ledger, keep))(r) ==> Deducted(metric, Kept(ledger, Except(keep, d)))(r)
  {
    DeductionWithout(metric, ledger, keep, d, r);
    if Reverses(metric, d, r) && d in Kept(ledger, keep) {
      assert Cancelled(metric, Kept(ledger, keep), r);
    }
  }

  /** However many reversals name one refund, net revenue restores it once: dropping one of two
      reversals of the same refund changes nothing. */
  lemma SecondReversalAddsNothing(metric: Metric, ledger: seq<Attempt>, keep: Attempt -> bool,
                                  one: Attempt, two: Attempt, money: Attempt -> int)
    requires InOrder(ledger) && one in Kept(ledger, keep) && one != two
    requires forall d :: d in {one, two} ==> d.record.event.Refund? && d.Body().status.Reversed? && metric.verified(d)
    requires one.Body().reverses == two.Body().reverses && one.SameTenant(two)
    ensures Net(metric, Kept(ledger, Except(keep, two)), money) == Net(metric, Kept(ledger, keep), money)
  {
    var without := Kept(ledger, Except(keep, two));
    KeptExcept(ledger, keep, two);
    FilterMembers(Kept(ledger, keep), Differs(two));
    FilterMembers(without, Deducted(metric, without));
    forall r | r in Refunds(metric, without) ensures !Reverses(metric, two, r) {
      assert Deducted(metric, without)(r) && !Cancelled(metric, without, r);
      assert Reverses(metric, two, r) ==> Reverses(metric, one, r);
    }
    IdleReversal(metric, ledger, keep, two, money);
  }

  lemma {:induction false} SumWithout(s: seq<Attempt>, f: Attempt -> bool, g: Attempt -> bool, r: Attempt,
                                      m: Attempt -> int)
    requires Distinct(s) && r in s && f(r) && !g(r)
    requires forall a :: a in s && a != r ==> f(a) == g(a)
    ensures Sum(Filter(s, f), m) == Sum(Filter(s, g), m) + m(r)
  {
    var front, last := s[..|s| - 1], s[|s| - 1];
    assert s == front + [last];
    if last == r {
      assert r !in front;
      FilterExt(front, f, g);
    } else {
      SumWithout(front, f, g, r, m);
    }
  }

  /** Where the definition lets reversals cancel, a first reversal restores exactly what the refund
      had taken off. */
  lemma FirstReversalRestores(metric: Metric, ledger: seq<Attempt>, keep: Attempt -> bool, d: Attempt, r: Attempt,
                              money: Attempt -> int)
    requires InOrder(ledger) && d in Kept(ledger, keep) && Reverses(metric, d, r)
    requires r in Refunds(metric, Kept(ledger, Except(keep, d)))
    ensures Net(metric, Kept(ledger, keep), money) == Net(metric, Kept(ledger, Except(keep, d)), money) + money(r)
  {
    var with, without := Kept(ledger, keep), Kept(ledger, Except(keep, d));
    KeptExcept(ledger, keep, d);
    SamePurchases(metric, ledger, keep, d);
    KeptIsFilter(ledger, keep);
    FilterMembers(with, Differs(d));
    FilterMember(without, Deducted(metric, without), r);
    var f := (a: Attempt) => Differs(d)(a) && Deducted(metric, without)(a);
    FilterFilter(with, Differs(d), Deducted(metric, without), f);
    forall a, b | a in with && b in with && a.Id() == b.Id() ensures a == b {
      KeptIsBase(ledger, keep, a);
      BaseById(a, b, with);
    }
    forall a | a in with && a != r ensures f(a) == Deducted(metric, with)(a) {
      assert Reverses(metric, d, a) ==> a.Id() == r.Id();
      DeductionWithout(metric, ledger, keep, d, a);
    }
    assert Cancelled(metric, with, r);
    DistinctFacts(ledger, keep);
    SumWithout(with, f, Deducted(metric, with), r, money);
  }

  lemma DistinctFacts(ledger: seq<Attempt>, keep: Attempt -> bool)
    ensures Distinct(Kept(ledger, keep))
  {
    var all, part := (a: Attempt) => true, Kept(ledger, keep);
    forall a | a in part ensures |Filter(part, SameRecord(a))| <= 1 { KeptIsBase(ledger, keep, a); }
    OnceEach(part, all);
    FilterAll(part, all);
  }
}
