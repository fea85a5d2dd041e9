/** Consent and the ledger together: which deliveries of a ledger consent lets become facts. */
module ConsentedFacts {
  import L = Ledger
  import D = Decisions
  import R = ConsentRules
  import opened Sequences
  import opened ConsentDecision

  /** What the consent decision reads of a delivery and of its server beyond the parts the ledger has. */
  datatype Input = Input(context: Context, purpose: Option<string>, revision: Option<int>, basisId: Option<string>,
                         sequence: int)

  /** Deliveries that carry consent themselves need none. */
  predicate Exempt(event: L.EventName) { event in {L.OtherEvent("consent_changed"), L.OtherEvent("privacy_control")} }

  function SubjectOf(a: L.Attempt, input: Input): Subject {
    Subject(input.purpose, Exempt(a.record.event), input.revision, input.basisId, input.sequence, a.record.receivedAt)
  }

  function OutcomeOf(a: L.Attempt, input: Input): Outcome { Decide(input.context, SubjectOf(a, input)) }

  /** What the ledger sees of a consent decision; an invalid control aborts the run before it. */
  function LedgerView(outcome: Outcome): L.ConsentOutcome
    requires !outcome.ControlInvalid?
  {
    match outcome
    case Decided(allowed, reason) =>
      if allowed then L.Allowed else if reason == RevisionUnconfirmedReason then L.RevisionUnconfirmed else L.Withdrawn
    case TimeInvalid => L.ConsentTimestampInvalid
  }

  /** Every delivery of the ledger is judged with the consent decision on its own input. */
  ghost predicate Governed(ledger: seq<L.Attempt>, inputs: L.Attempt -> Input) {
    forall a :: a in ledger ==>
      !OutcomeOf(a, inputs(a)).ControlInvalid? && a.consent == LedgerView(OutcomeOf(a, inputs(a)))
  }

  /** What consent demands, without the order in which the code asks for it: on the
      revision-controlled path the controls clear the record; and where a server withdrawal already
      stands, a documented basis was in force at receipt. */
  ghost predicate Permitted(context: Context, subject: Subject) {
    ConsentRequired(context, subject) ==>
      && (Controlled(context, subject) ==> Cleared(RelevantTo(context, subject), subject.revision))
      && (BeforeWithdrawal(context, subject) || FindBasis(context.bases, subject) == Found)
  }

  lemma AllowedMeansPermitted(context: Context, subject: Subject)
    requires !Decide(context, subject).ControlInvalid?
    ensures LedgerView(Decide(context, subject)) == L.Allowed <==> Permitted(context, subject)
  {
    if ConsentRequired(context, subject) && Controlled(context, subject) && Decide(context, subject).Decided? {
      NoStaleResurrection(context, subject);
    }
  }

  /** A delivery becomes a fact exactly if it stands alone, is eligible consent aside, has a target if
      it is a refund, and consent permits it: for a revision-controlled record that is the top
      revision, free of conflict, granted, and recognized after every unversioned denial, or no
      revision at all where nothing was ever recognized. */
  lemma FactsArePermitted(ledger: seq<L.Attempt>, inputs: L.Attempt -> Input, a: L.Attempt)
    requires Governed(ledger, inputs) && a in ledger
    ensures D.BecomesFact(a, ledger) <==>
      && D.StandingOf(a, ledger).duplicate == D.Unique
      && L.Eligible(a.(consent := L.Allowed))
      && (a.record.event.Refund? ==> D.HasTarget(a, ledger))
      && Permitted(inputs(a).context, SubjectOf(a, inputs(a)))
  {
    D.FactMeaning(a, ledger);
    AllowedMeansPermitted(inputs(a).context, SubjectOf(a, inputs(a)));
  }

  /** The subject has the fields of the record; consent is never asked of a delivery that carries it. */
  ghost predicate Describes(subject: Subject, a: L.Attempt, input: Input) {
    && subject.purpose == input.purpose && subject.revision == input.revision && subject.basisId == input.basisId
    && subject.sequence == input.sequence && subject.receivedAt == a.record.receivedAt
    && (subject.exempt <==>
          a.record.event == L.OtherEvent("consent_changed") || a.record.event == L.OtherEvent("privacy_control"))
  }

  /** The ledger sees consent exactly as the controls, the withdrawals and the bases give it. */
  lemma ViewFollowsRules(a: L.Attempt, input: Input, subject: Subject)
    requires Describes(subject, a, input) && !OutcomeOf(a, input).ControlInvalid?
    ensures var context, view := input.context, LedgerView(OutcomeOf(a, input));
      && (view == L.Allowed <==>
            (R.Asked(context, subject) ==>
              (R.UnderControls(context, subject) ==> R.ControlsClear(context, subject))
              && (R.NotYetWithdrawn(context, subject) || R.BasisInForce(context.bases, subject))))
      && (view == L.RevisionUnconfirmed <==>
            R.Asked(context, subject) && R.UnderControls(context, subject) && R.Unconfirmed(context, subject))
  {
    assert subject == SubjectOf(a, input);
    R.ConsentFollowsRules(input.context, subject);
    if R.Asked(input.context, subject) { R.ReasonFollowsRules(input.context, subject); }
    else { R.AskedMeaning(input.context, subject); }
  }
}
