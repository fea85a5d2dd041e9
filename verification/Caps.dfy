/** The cumulative refund cap and exact cancellation, over every log the admission loop can build. */
module Caps {
  import opened Sequences
  import opened Money
  import opened Ledger

  ghost predicate ScalesFit(log: Log, scale: nat) {
    forall e :: e in log ==> e.refund.Body().amount.scale <= scale
  }

  lemma {:induction false} MaxScaleIsLeast(prior: Log, floor: nat, bound: nat)
    ensures floor <= MaxScale(prior, floor) && ScalesFit(prior, MaxScale(prior, floor))
    ensures floor <= bound && ScalesFit(prior, bound) ==> MaxScale(prior, floor) <= bound
  {
    if prior != [] {
      var front := prior[..|prior| - 1];
      MaxScaleIsLeast(front, floor, bound);
      assert prior == front + [prior[|prior| - 1]];
    }
  }

  lemma UnitsScaleUp(a: Attempt, scale: nat, k: nat)
    requires a.Body().amount.scale <= scale
    ensures Units(a, scale + k) == Pow10(k) * Units(a, scale)
  {
    ExactScalesUp(a.Body().amount, scale, k);
  }

  lemma SumScalesUp(prior: Log, scale: nat, k: nat)
    requires ScalesFit(prior, scale)
    ensures Sum(prior, RefundUnits(scale + k)) == Pow10(k) * Sum(prior, RefundUnits(scale))
  {
    forall e | e in prior ensures RefundUnits(scale + k)(e) == Pow10(k) * RefundUnits(scale)(e) {
      UnitsScaleUp(e.refund, scale, k);
    }
    SumScale(prior, RefundUnits(scale), RefundUnits(scale + k), Pow10(k));
  }

  /** Comparing at a finer scale than needed changes nothing. */
  lemma CapAtAnyScale(r: Attempt, t: Attempt, prior: Log, scale: nat, k: nat)
    requires r.Body().amount.scale <= scale && t.Body().amount.scale <= scale && ScalesFit(prior, scale)
    ensures CapHoldsAt(r, t, prior, scale) <==> CapHoldsAt(r, t, prior, scale + k)
  {
    UnitsScaleUp(r, scale, k);
    UnitsScaleUp(t, scale, k);
    SumScalesUp(prior, scale, k);
    ScaledComparison(Pow10(k), Sum(prior, RefundUnits(scale)), Units(r, scale), Units(t, scale));
  }

  lemma ScaledComparison(p: int, a: int, b: int, c: int)
    requires p > 0
    ensures a + b <= c <==> p * a + p * b <= p * c
  { }

  /** The evaluator's comparison scale is as good as any common one. */
  lemma CapMeaning(r: Attempt, t: Attempt, log: Log, scale: nat)
    requires r.Body().amount.scale <= scale && t.Body().amount.scale <= scale
    requires ScalesFit(Filter(log, SettledOn(t)), scale)
    ensures CapHolds(r, t, log) <==> CapHoldsAt(r, t, Filter(log, SettledOn(t)), scale)
  {
    var prior := Filter(log, SettledOn(t));
    var floor := Larger(t.Body().amount.scale, r.Body().amount.scale);
    MaxScaleIsLeast(prior, floor, scale);
    CapAtAnyScale(r, t, prior, CapScale(r, t, prior), scale - CapScale(r, t, prior));
  }

  /** Money refunded on one purchase, settled entries only, at a scale. */
  function Refunded(log: Log, t: Attempt, scale: nat): int { Sum(Filter(log, SettledOn(t)), RefundUnits(scale)) }

  /** Cumulative cap: after every turn of the loop, over any ledger and any purchase, the settled
      refunds admitted so far, cancelled later or not, sum to at most the purchase, at every scale
      that can hold those refunds and the purchase. */
  lemma {:induction false} CumulativeCap(refunds: seq<Attempt>, ledger: seq<Attempt>, t: Attempt, scale: nat)
    requires t.Body().amount.scale <= scale && ScalesFit(Filter(Admit(refunds, ledger), SettledOn(t)), scale)
    ensures Refunded(Admit(refunds, ledger), t, scale) <= Units(t, scale)
  {
    if refunds != [] {
      var front, r := refunds[..|refunds| - 1], refunds[|refunds| - 1];
      var before, after := Admit(front, ledger), Admit(refunds, ledger);
      var prior := Filter(before, SettledOn(t));
      CapTurn(before, r, Resolve(r, ledger), t);
      assert forall e :: e in prior ==> e in Filter(after, SettledOn(t));
      CumulativeCap(front, ledger, t, scale);
      if Filter(after, SettledOn(t)) != prior {
        assert Admission(r, t) in Filter(after, SettledOn(t));
        CapMeaning(r, t, before, scale);
      }
    }
  }

  /** A turn leaves the settled entries of a purchase alone or adds the refund, within the cap. */
  lemma CapTurn(log: Log, r: Attempt, target: Option<Attempt>, t: Attempt)
    ensures var before, after := Filter(log, SettledOn(t)), Filter(Extend(log, r, target), SettledOn(t));
            after == before || (after == before + [Admission(r, t)] && CapHolds(r, t, log))
  {
    if target.Some? && Admissible(r, target.value, log) {
      FilterConcat(log, [Admission(r, target.value)], SettledOn(t));
      FilterOne(Admission(r, target.value), SettledOn(t));
    }
  }

  // ----- Exact cancellation

  /** A reversal d in the log cancels the earlier entry e exactly. */
  ghost predicate CancelsExactly(log: Log, i: nat, j: nat)
    requires i < |log| && j < |log|
  {
    var e, d := log[i], log[j];
    && i < j
    && d.refund.Body().status.Reversed? && e.refund.Body().status.Settled?
    && d.refund.Body().reverses == Some(e.refund.Id()) && e.refund.SameTenant(d.refund)
    && d.target == e.target
    && ReceivedNoLater(e.refund, d.refund) && OccurredNoLater(e.refund, d.refund)
    && SameAmount(e.refund, d.refund)
  }

  lemma {:induction false} FirstIndex<T>(s: seq<T>, f: T -> bool) returns (i: nat)
    requires FirstOf(s, f).Some?
    ensures i < |s| && Some(s[i]) == FirstOf(s, f) && f(s[i])
  {
    if FirstOf(s[..|s| - 1], f).Some? {
      i := FirstIndex(s[..|s| - 1], f);
    } else {
      i := |s| - 1;
    }
  }

  /** Every linked reversal in the log names one earlier settled entry of the same purchase, worth
      exactly the same; and an entry that names none is never a reversal of anything. */
  lemma {:induction false} ExactCancellation(refunds: seq<Attempt>, ledger: seq<Attempt>, j: nat) returns (i: nat)
    requires j < |Admit(refunds, ledger)| && Admit(refunds, ledger)[j].refund.Body().reverses.Some?
    ensures i < |Admit(refunds, ledger)| && CancelsExactly(Admit(refunds, ledger), i, j)
  {
    var front, r := refunds[..|refunds| - 1], refunds[|refunds| - 1];
    var before := Admit(front, ledger);
    if j < |before| {
      i := ExactCancellation(front, ledger, j);
    } else {
      i := NewCancellation(before, r, Resolve(r, ledger).value);
    }
  }

  lemma NewCancellation(log: Log, r: Attempt, t: Attempt) returns (i: nat)
    requires r.Body().reverses.Some? && ReversalHolds(r, t, log)
    ensures i < |log| && CancelsExactly(log + [Admission(r, t)], i, |log|)
  {
    i := FirstIndex(log, NamedBy(r));
  }

  /** A settled entry is never itself a linked reversal. */
  lemma SettledIsPlain(refunds: seq<Attempt>, ledger: seq<Attempt>, e: Admission)
    requires e in Admit(refunds, ledger) && e.refund.Body().status.Settled?
    ensures e.refund.Body().reverses.None?
  { }
}
