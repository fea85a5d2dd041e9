/** When a refund is admitted, in terms of the facts, of the entries before it and of the fields of the
    deliveries: the rules are enough as well as needed. */
module AdmissionRules {
  import opened Sequences
  import opened Timestamps
  import opened Money
  import opened Ledger
  import opened Caps
  import opened Decisions
  import opened Arrivals
  import opened DecisionRules

  // ----- The purchase

  ghost predicate NoLater(s: string, t: string) {
    Parse(s).Some? && Parse(t).Some? && Parse(s).value <= Parse(t).value
  }

  ghost predicate SameServer(a: Attempt, b: Attempt) {
    a.server.tenantId == b.server.tenantId && a.server.appId == b.server.appId
  }

  /** The refund fits the purchase: a settled one of the same server, installation, original transaction
      and currency, in its own scope, neither received nor occurred later, and not declared ineligible. */
  ghost predicate Fits(r: Attempt, p: Attempt) {
    var sale, back := p.record.payload, r.record.payload;
    && p.record.event == Purchase && sale.status == Settled
    && SameServer(p, r) && !Foreign(p)
    && p.record.recordId !in r.server.ineligibleTargets
    && NoLater(p.record.receivedAt, r.record.receivedAt) && NoLater(p.record.occurredAt, r.record.occurredAt)
    && sale.installationId == back.installationId
    && back.originalTransactionId
         == Some(if sale.originalTransactionId.Some? then sale.originalTransactionId.value else sale.transactionId)
    && sale.amount.currency == back.amount.currency
  }

  /** t is the one fact the refund fits, and the one it names if it names one. */
  ghost predicate OnlyFit(r: Attempt, t: Attempt, ledger: seq<Attempt>) {
    && BecomesFact(t, ledger) && Fits(r, t)
    && (forall p :: BecomesFact(p, ledger) && Fits(r, p) ==> p == t)
    && r.record.payload.correctionTarget in {None, Some(t.record.recordId)}
  }

  lemma FitsMatches(r: Attempt, p: Attempt)
    ensures MatchesRefund(r, p) <==> Fits(r, p)
  {
    NoLaterMeaning(p, r);
  }

  lemma FittingFact(r: Attempt, p: Attempt, ledger: seq<Attempt>)
    requires IsCommerce(r, Refund)
    ensures p in ledger && StrictTarget(r, ledger)(p) <==> BecomesFact(p, ledger) && Fits(r, p)
  {
    FitsMatches(r, p);
    if Fits(r, p) && p in ledger { PurchaseAgreement(p, ledger); }
  }

  lemma FactOnce(ledger: seq<Attempt>, p: Attempt)
    requires BecomesFact(p, ledger)
    ensures !Collides(p, ledger)
  {
    FactRules(p, ledger);
  }

  lemma OneInFilter(s: seq<Attempt>, f: Attempt -> bool, t: Attempt)
    requires t in s && f(t) && (forall p :: p in s && f(p) ==> p == t) && !Collides(t, s)
    ensures Filter(s, f) == [t]
  {
    FilterMembers(s, f);
    CountMeaning(s, f);
    assert t in Filter(s, f);
    forall i, j | 0 <= i < j < |s| && s[i] == t ensures s[j] != t {
      assert HasRecordId(t.record.recordId)(s[i]);
    }
  }

  lemma OneMeansAll(s: seq<Attempt>, f: Attempt -> bool, t: Attempt)
    requires |Filter(s, f)| == 1 && Filter(s, f)[0] == t
    ensures t in s && f(t) && forall p :: p in s && f(p) ==> p == t
  {
    FilterMembers(s, f);
    assert Filter(s, f) == [t];
    assert t in Filter(s, f);
    forall p | p in s && f(p) ensures p == t { assert p in Filter(s, f); }
  }

  /** The target is resolved to the only fit. */
  lemma ResolvedToOnlyFit(r: Attempt, t: Attempt, ledger: seq<Attempt>)
    requires IsCommerce(r, Refund)
    ensures Resolve(r, ledger) == Some(t) <==> OnlyFit(r, t, ledger)
  {
    var f := StrictTarget(r, ledger);
    forall p ensures p in ledger && f(p) <==> BecomesFact(p, ledger) && Fits(r, p) { FittingFact(r, p, ledger); }
    if Resolve(r, ledger) == Some(t) { OneMeansAll(ledger, f, t); }
    if OnlyFit(r, t, ledger) {
      FactOnce(ledger, t);
      OneInFilter(ledger, f, t);
    }
  }

  // ----- The entries before a refund

  ghost function Before(ledger: seq<Attempt>, r: Attempt): Admission -> bool {
    (e: Admission) => Precedes(ledger, e.refund, r)
  }

  /** The turn of a refund decides whether it has an entry. */
  lemma {:induction false} TurnDecides(refunds: seq<Attempt>, ledger: seq<Attempt>, i: nat, t: Attempt)
    requires DistinctIds(refunds) && i < |refunds|
    ensures Admission(refunds[i], t) in Admit(refunds, ledger) <==>
              Resolve(refunds[i], ledger) == Some(t) && Admissible(refunds[i], t, Admit(refunds[..i], ledger))
  {
    var front, last := refunds[..|refunds| - 1], refunds[|refunds| - 1];
    AdmitLog(front, ledger);
    if i < |front| {
      assert refunds[..i] == front[..i];
      TurnDecides(front, ledger, i, t);
      assert refunds[i].Id() != last.Id();
    } else {
      assert refunds[..i] == front;
      forall a | a in front ensures a != last { NotLast(refunds, a); }
    }
  }

  lemma NotLast(refunds: seq<Attempt>, a: Attempt)
    requires DistinctIds(refunds) && refunds != [] && a in refunds[..|refunds| - 1]
    ensures a != refunds[|refunds| - 1]
  {
    var j :| 0 <= j < |refunds| - 1 && refunds[j] == a;
    assert refunds[j].Id() != refunds[|refunds| - 1].Id();
  }

  /** What precedes the i-th refund among those offered. */
  lemma PrecedesOffered(refunds: seq<Attempt>, i: nat, a: Attempt)
    requires DistinctIds(refunds) && i < |refunds|
    ensures Precedes(refunds, a, refunds[i]) <==> a in refunds[..i]
  {
    if a in refunds[..i] {
      var j :| 0 <= j < i && refunds[..i][j] == a;
      assert refunds[j] == a;
    }
    if Precedes(refunds, a, refunds[i]) {
      var j, k :| 0 <= j < k < |refunds| && refunds[j] == a && refunds[k] == refunds[i];
      assert k == i;
      assert refunds[..i][j] == a;
    }
  }

  /** The log at the turn of the i-th refund is the part of the whole log before it. */
  lemma LogBefore(ledger: seq<Attempt>, i: nat)
    requires InOrder(ledger) && i < |Offered(ledger)|
    ensures Admit(Offered(ledger)[..i], ledger) == Filter(AdmittedLog(ledger), Before(ledger, Offered(ledger)[i]))
  {
    var offered, f := Offered(ledger), Before(ledger, Offered(ledger)[i]);
    var front, rest := offered[..i], offered[i..];
    var early := Admit(front, ledger);
    assert offered == front + rest;
    OfferedOnce(ledger);
    AdmitGrows(front, rest, ledger);
    AdmitLog(front, ledger);
    var news := NewEntries(early, AdmittedLog(ledger), rest);
    forall e: Admission ensures e.refund in front ==> f(e) { if e.refund in front { EarlierTurn(ledger, i, e); } }
    forall e: Admission ensures e.refund in rest ==> !f(e) { if e.refund in rest { LaterTurn(ledger, i, e); } }
    FilterConcat(early, news, f);
    FilterAll(early, f);
    FilterNone(news, f);
  }

  lemma EarlierTurn(ledger: seq<Attempt>, i: nat, e: Admission)
    requires InOrder(ledger) && i < |Offered(ledger)| && e.refund in Offered(ledger)[..i]
    ensures Before(ledger, Offered(ledger)[i])(e)
  {
    OfferedBefore(ledger, i, e.refund);
  }

  lemma LaterTurn(ledger: seq<Attempt>, i: nat, e: Admission)
    requires InOrder(ledger) && i < |Offered(ledger)| && e.refund in Offered(ledger)[i..]
    ensures !Before(ledger, Offered(ledger)[i])(e)
  {
    OfferedOnce(ledger);
    OfferedBefore(ledger, i, e.refund);
    NotBoth(Offered(ledger), i, e.refund);
  }

  lemma NotBoth(refunds: seq<Attempt>, i: nat, a: Attempt)
    requires DistinctIds(refunds) && i < |refunds| && a in refunds[i..]
    ensures a !in refunds[..i]
  {
    var j :| 0 <= j < |refunds| - i && refunds[i..][j] == a;
    forall k | 0 <= k < i ensures refunds[..i][k] != a { assert refunds[k].Id() != refunds[i + j].Id(); }
  }

  lemma OfferedBefore(ledger: seq<Attempt>, i: nat, a: Attempt)
    requires InOrder(ledger) && i < |Offered(ledger)| && a in Offered(ledger)
    ensures Precedes(ledger, a, Offered(ledger)[i]) <==> a in Offered(ledger)[..i]
  {
    OfferedOnce(ledger);
    OfferedInOrder(ledger);
    OfferedMembers(ledger);
    assert Offered(ledger)[i] in Offered(ledger);
    PrecedesOffered(Offered(ledger), i, a);
    PrecedesInFilter(ledger, RefundCandidate(ledger), a, Offered(ledger)[i]);
  }

  // ----- The three rules

  /** No earlier entry has the refund's transaction. */
  ghost predicate TransactionFree(r: Attempt, ledger: seq<Attempt>) {
    forall e :: e in AdmittedLog(ledger) && Precedes(ledger, e.refund, r) ==> !SameTransaction(e.refund, r)
  }

  ghost predicate SameValue(a: Amount, b: Amount) { a.unscaled * Pow10(b.scale) == b.unscaled * Pow10(a.scale) }

  /** The earlier entry e is the one r names, and r takes back exactly that. */
  ghost predicate TakesBack(r: Attempt, t: Attempt, e: Admission, ledger: seq<Attempt>) {
    var prior := e.refund;
    && Precedes(ledger, prior, r)
    && r.record.payload.reverses == Some(prior.record.recordId) && SameServer(prior, r)
    && r.record.payload.status == Reversed && prior.record.payload.status == Settled
    && e.target == t
    && NoLater(prior.record.receivedAt, r.record.receivedAt) && NoLater(prior.record.occurredAt, r.record.occurredAt)
    && SameValue(prior.record.payload.amount, r.record.payload.amount)
  }

  ghost function Value(a: Attempt, scale: nat): nat {
    var m := a.record.payload.amount;
    if m.scale <= scale then m.unscaled * Pow10(scale - m.scale) else 0
  }

  /** What the entries of a log before r have settled on t. */
  ghost function SettledBefore(log: Log, ledger: seq<Attempt>, r: Attempt, t: Attempt, scale: nat): int {
    if log == [] then 0
    else
      var rest, e := SettledBefore(log[..|log| - 1], ledger, r, t, scale), log[|log| - 1];
      if Precedes(ledger, e.refund, r) && e.target == t && e.refund.record.payload.status == Settled
      then rest + Value(e.refund, scale) else rest
  }

  lemma {:induction false} SettledBeforeIsSum(log: Log, ledger: seq<Attempt>, r: Attempt, t: Attempt, scale: nat)
    ensures Refunded(Filter(log, Before(ledger, r)), t, scale) == SettledBefore(log, ledger, r, t, scale)
  {
    if log != [] {
      var front, e := log[..|log| - 1], log[|log| - 1];
      SettledBeforeIsSum(front, ledger, r, t, scale);
      SumOneMore(Filter(front, Before(ledger, r)), e, SettledOn(t), RefundUnits(scale));
    }
  }

  lemma SameValueIsSameAmount(a: Attempt, b: Attempt)
    ensures SameAmount(a, b) <==> SameValue(a.record.payload.amount, b.record.payload.amount)
  {
    var m, n := a.record.payload.amount, b.record.payload.amount;
    if m.scale <= n.scale {
      CommonScale(m, n);
    } else {
      CommonScale(n, m);
    }
  }

  /** At the larger of two scales, values are equal exactly if the cross products are. */
  lemma CommonScale(m: Amount, n: Amount)
    requires m.scale <= n.scale
    ensures ExactAt(m, n.scale) == ExactAt(n, n.scale) <==> m.unscaled * Pow10(n.scale) == n.unscaled * Pow10(m.scale)
  {
    var gap := n.scale - m.scale;
    Pow10Adds(gap, m.scale);
    Regroup(m.unscaled, Pow10(gap), Pow10(m.scale));
    MulMonotone(Pow10(m.scale), m.unscaled * Pow10(gap), n.unscaled);
    assert Pow10(m.scale) * n.unscaled == n.unscaled * Pow10(m.scale);
    assert ExactAt(n, n.scale) == n.unscaled * Pow10(0) == n.unscaled;
  }

  lemma FreeMeaning(r: Attempt, ledger: seq<Attempt>)
    requires IsCommerce(r, Refund)
    ensures FirstOf(Filter(AdmittedLog(ledger), Before(ledger, r)), SameBusiness(r)).None?
       <==> TransactionFree(r, ledger)
  {
    var log, prior := AdmittedLog(ledger), Filter(AdmittedLog(ledger), Before(ledger, r));
    FirstFound(prior, SameBusiness(r));
    FilterMembers(log, Before(ledger, r));
    forall e | e in log ensures SameBusiness(r)(e) <==> SameTransaction(e.refund, r) { LogEntry(e, ledger); }
    forall e ensures e in prior <==> e in log && Precedes(ledger, e.refund, r) { }
  }

  lemma ReversalMeaning(r: Attempt, t: Attempt, ledger: seq<Attempt>)
    requires r.record.payload.reverses.Some?
    ensures ReversalHolds(r, t, Filter(AdmittedLog(ledger), Before(ledger, r)))
       <==> exists e :: e in AdmittedLog(ledger) && TakesBack(r, t, e, ledger)
  {
    var log, prior := AdmittedLog(ledger), Filter(AdmittedLog(ledger), Before(ledger, r));
    OfferedOnce(ledger);
    FirstFound(prior, NamedBy(r));
    FilterMembers(log, Before(ledger, r));
    var d := FirstOf(prior, NamedBy(r));
    forall e | e in log ensures TakesBack(r, t, e, ledger) <==> d == Some(e) && ReversalFits(r, t, d) {
      Named(r, t, e, ledger);
    }
  }

  /** An earlier entry takes part in a reversal exactly if it is the first one named. */
  lemma Named(r: Attempt, t: Attempt, e: Admission, ledger: seq<Attempt>)
    requires r.record.payload.reverses.Some? && e in AdmittedLog(ledger)
    ensures var d := FirstOf(Filter(AdmittedLog(ledger), Before(ledger, r)), NamedBy(r));
      TakesBack(r, t, e, ledger) <==> d == Some(e) && ReversalFits(r, t, d)
  {
    var log, prior := AdmittedLog(ledger), Filter(AdmittedLog(ledger), Before(ledger, r));
    OfferedOnce(ledger);
    FirstFound(prior, NamedBy(r));
    FilterMembers(log, Before(ledger, r));
    TakenBack(r, t, e, ledger);
    if TakesBack(r, t, e, ledger) {
      assert e in prior && NamedBy(r)(e);
      LogById(Offered(ledger), ledger, e, FirstOf(prior, NamedBy(r)).value);
    }
  }

  lemma TakenBack(r: Attempt, t: Attempt, e: Admission, ledger: seq<Attempt>)
    ensures TakesBack(r, t, e, ledger)
       <==> Precedes(ledger, e.refund, r) && NamedBy(r)(e) && ReversalFits(r, t, Some(e))
  {
    SameValueIsSameAmount(e.refund, r);
    NoLaterMeaning(e.refund, r);
  }

  lemma NoLaterMeaning(a: Attempt, b: Attempt)
    ensures ReceivedNoLater(a, b) <==> NoLater(a.record.receivedAt, b.record.receivedAt)
    ensures OccurredNoLater(a, b) <==> NoLater(a.record.occurredAt, b.record.occurredAt)
  { }

  lemma RoomMeaning(r: Attempt, t: Attempt, ledger: seq<Attempt>, scale: nat)
    requires r.record.payload.amount.scale <= scale && t.record.payload.amount.scale <= scale
    requires ScalesFit(AdmittedLog(ledger), scale)
    ensures CapHolds(r, t, Filter(AdmittedLog(ledger), Before(ledger, r)))
       <==> SettledBefore(AdmittedLog(ledger), ledger, r, t, scale) + Value(r, scale) <= Value(t, scale)
  {
    var prior := Filter(AdmittedLog(ledger), Before(ledger, r));
    FilterMembers(AdmittedLog(ledger), Before(ledger, r));
    RoomInLog(r, t, prior, scale);
    SettledBeforeIsSum(AdmittedLog(ledger), ledger, r, t, scale);
  }

  lemma RoomInLog(r: Attempt, t: Attempt, prior: Log, scale: nat)
    requires r.record.payload.amount.scale <= scale && t.record.payload.amount.scale <= scale
    requires ScalesFit(prior, scale)
    ensures CapHolds(r, t, prior) <==> Refunded(prior, t, scale) + Value(r, scale) <= Value(t, scale)
  {
    FilterMembers(prior, SettledOn(t));
    CapMeaning(r, t, prior, scale);
  }

  /** Exactly the refunds that are admitted, and against what: an acceptable refund of an installation is
      admitted against t exactly if t is its only fit; no earlier entry has its transaction; if it names
      a refund, it takes back an earlier entry on t; and if it is settled, what earlier entries settled
      on t leaves room for it, at any scale. So a reversal, or a pending refund, needs no room. */
  lemma AdmittedExactly(r: Attempt, t: Attempt, ledger: seq<Attempt>, scale: nat)
    requires InOrder(ledger) && ScalesFit(AdmittedLog(ledger), scale)
    requires r.record.payload.amount.scale <= scale && t.record.payload.amount.scale <= scale
    ensures Admission(r, t) in AdmittedLog(ledger) <==>
      && Acceptable(r, ledger) && IsCommerce(r, Refund)
      && OnlyFit(r, t, ledger)
      && TransactionFree(r, ledger)
      && (r.record.payload.reverses.Some? ==> exists e :: e in AdmittedLog(ledger) && TakesBack(r, t, e, ledger))
      && (r.record.payload.status == Settled ==>
            SettledBefore(AdmittedLog(ledger), ledger, r, t, scale) + Value(r, scale) <= Value(t, scale))
  {
    AcceptableIsBase(r, ledger);
    OfferedMembers(ledger);
    if r in ledger && Acceptable(r, ledger) && IsCommerce(r, Refund) {
      OfferedExactly(r, t, ledger);
      ResolvedToOnlyFit(r, t, ledger);
      FreeMeaning(r, ledger);
      if r.record.payload.reverses.Some? { ReversalMeaning(r, t, ledger); }
      RoomMeaning(r, t, ledger, scale);
    } else {
      if Admission(r, t) in AdmittedLog(ledger) { LogEntry(Admission(r, t), ledger); }
      if Acceptable(r, ledger) { BaseIsMember(r, ledger); }
    }
  }

  lemma OfferedExactly(r: Attempt, t: Attempt, ledger: seq<Attempt>)
    requires InOrder(ledger) && r in Offered(ledger)
    ensures Admission(r, t) in AdmittedLog(ledger) <==>
              Resolve(r, ledger) == Some(t) && Admissible(r, t, Filter(AdmittedLog(ledger), Before(ledger, r)))
  {
    var i :| 0 <= i < |Offered(ledger)| && Offered(ledger)[i] == r;
    OfferedOnce(ledger);
    TurnDecides(Offered(ledger), ledger, i, t);
    LogBefore(ledger, i);
  }
}
