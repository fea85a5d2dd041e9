/** From the snapshot of a purpose to the decision on one record. */
module ConsentDecision {
  import opened Sequences
  import opened Timestamps
  import opened Consent

  datatype Admission = RevisionUnconfirmed | Legacy | AdmissionWithdrawn | AdmissionNotRequired | AdmissionAllowed

  /** `purpose_consent_admission`. */
  function Admit(snapshot: Option<Snapshot>, revision: Option<int>): Admission {
    if revision.Some? && !Safe(revision.value) then RevisionUnconfirmed
    else if snapshot.None? then
      if revision.None? || revision.value == 0 then Legacy else RevisionUnconfirmed
    else
      var s := snapshot.value;
      if s.conflicting then RevisionUnconfirmed
      else if s.state.Denied? || s.state.Withdrawn? || (s.fence.Some? && s.fence.value.sequence >= s.sequence)
      then AdmissionWithdrawn
      else if revision != Some(s.revision) then RevisionUnconfirmed
      else if s.state.NotRequired? then AdmissionNotRequired else AdmissionAllowed
  }

  datatype Purpose = Purpose(id: string, consentRequired: bool)

  datatype Withdrawal = Withdrawal(purpose: string, sequence: int, recognizedAt: string)

  datatype Basis = Basis(id: string, purpose: string, effectiveAt: string)

  datatype Context = Context(purposes: seq<Purpose>, withdrawals: seq<Withdrawal>, bases: seq<Basis>,
                             controls: Option<seq<Control>>)

  datatype Subject = Subject(purpose: Option<string>, exempt: bool, revision: Option<int>, basisId: Option<string>,
                             sequence: int, receivedAt: string)

  datatype ReasonCode = NotRequiredReason | ValidForRevision | ValidBeforeWithdrawal | DocumentedBasis
                      | RevisionUnconfirmedReason | WithdrawnReason

  /** An invalid control and an unreadable time are raised, not decided. */
  datatype Outcome = Decided(allowed: bool, reason: ReasonCode) | ControlInvalid | TimeInvalid

  function ForPurpose(id: string): Purpose -> bool { (p: Purpose) => p.id == id }

  function WithdrawalFor(id: string): Withdrawal -> bool { (w: Withdrawal) => w.purpose == id }

  predicate ConsentRequired(context: Context, subject: Subject) {
    && subject.purpose.Some? && subject.purpose.value != ""
    && FirstOf(context.purposes, ForPurpose(subject.purpose.value)).Some?
    && FirstOf(context.purposes, ForPurpose(subject.purpose.value)).value.consentRequired
    && !subject.exempt
  }

  predicate Controlled(context: Context, subject: Subject) { context.controls.Some? || subject.revision.Some? }

  function ControlsOf(context: Context): seq<Control> { if context.controls.Some? then context.controls.value else [] }

  function SnapshotForRecord(context: Context, subject: Subject): Option<Snapshot>
    requires subject.purpose.Some?
  {
    if subject.purpose.value in PURPOSES then SnapshotOf(ControlsOf(context), subject.purpose.value, subject.sequence)
    else None
  }

  predicate BeforeWithdrawal(context: Context, subject: Subject)
    requires subject.purpose.Some?
  {
    var w := FirstOf(context.withdrawals, WithdrawalFor(subject.purpose.value));
    w.None? || subject.sequence < w.value.sequence
  }

  datatype Search = Found | NotFound | Unreadable

  predicate Names(basis: Basis, subject: Subject) {
    subject.purpose == Some(basis.purpose) && subject.basisId == Some(basis.id)
  }

  /** The first documented basis in force at receipt; times are read only for bases that match. */
  function FindBasis(bases: seq<Basis>, subject: Subject): Search {
    if bases == [] then NotFound
    else if !Names(bases[0], subject) then FindBasis(bases[1..], subject)
    else if Parse(bases[0].effectiveAt).None? || Parse(subject.receivedAt).None? then Unreadable
    else if Parse(bases[0].effectiveAt).value <= Parse(subject.receivedAt).value then Found
    else FindBasis(bases[1..], subject)
  }

  /** The path every record ends on that the controls have not settled. */
  function WithdrawalPath(context: Context, subject: Subject): Outcome
    requires subject.purpose.Some?
  {
    if BeforeWithdrawal(context, subject) then Decided(true, ValidBeforeWithdrawal)
    else match FindBasis(context.bases, subject)
      case Found => Decided(true, DocumentedBasis)
      case NotFound => Decided(false, WithdrawnReason)
      case Unreadable => TimeInvalid
  }

  /** `consent_decision`. */
  function Decide(context: Context, subject: Subject): Outcome {
    if !ConsentRequired(context, subject) then Decided(true, NotRequiredReason)
    else if Controlled(context, subject) then
      if !Safe(subject.sequence) || exists c :: c in ControlsOf(context) && !ValidControl(c) then ControlInvalid
      else
        var admission := Admit(SnapshotForRecord(context, subject), subject.revision);
        if admission.RevisionUnconfirmed? then Decided(false, RevisionUnconfirmedReason)
        else if admission.AdmissionWithdrawn? then Decided(false, WithdrawnReason)
        else if BeforeWithdrawal(context, subject) && admission.AdmissionNotRequired?
          then Decided(true, NotRequiredReason)
        else if BeforeWithdrawal(context, subject) && admission.AdmissionAllowed? then Decided(true, ValidForRevision)
        else WithdrawalPath(context, subject)
    else WithdrawalPath(context, subject)
  }

  // ----- What admission demands of the controls

  /** The fence and the states of the top revision, in terms of the set of controls. */
  ghost predicate Unfenced(e: set<Control>, revision: int) {
    forall c, d :: c in e && d in e && c.revision == Some(revision) && UnversionedDenial(d) ==> d.sequence < c.sequence
  }

  ghost predicate Uniform(e: set<Control>, revision: int) {
    exists state :: state in {Granted, NotRequired} && AllAre(e, revision, state)
  }

  /** The controls recognized so far clear a record at this revision: it carries the top revision,
      which only granting states were ever recorded for and which was first recognized after every
      unversioned denial; or nothing was recognized at all and it carries none. */
  ghost predicate Cleared(e: set<Control>, revision: Option<int>) {
    if Versioned(e) then
      && revision.Some?
      && IsTop(e, revision.value)
      && Uniform(e, revision.value)
      && Unfenced(e, revision.value)
    else !Fenced(e) && (revision.None? || revision == Some(0))
  }

  ghost predicate AllAre(e: set<Control>, revision: int, state: ConsentState) {
    forall c :: c in e && c.revision == Some(revision) ==> c.state == state
  }

  lemma FenceIsAhead(e: set<Control>, s: Snapshot, first: Control)
    requires FenceMatches(e, s.fence) && IsFirst(e, s.revision, first) && Carries(s, first)
    ensures (s.fence.Some? && s.fence.value.sequence >= s.sequence)
       <==> !Unfenced(e, s.revision)
  { }

  lemma StatesOfTop(e: set<Control>, s: Snapshot, first: Control)
    requires forall c :: c in e ==> ValidControl(c) && c.state != Unknown
    requires IsFirst(e, s.revision, first) && Carries(s, first)
    requires s.conflicting <==>
      exists c, d :: c in e && d in e && c.revision == d.revision == Some(s.revision) && c.state != d.state
    ensures !s.conflicting && !s.state.Denied? && !s.state.Withdrawn?
       <==> Uniform(e, s.revision)
  {
    if !s.conflicting && !s.state.Denied? && !s.state.Withdrawn? {
      assert ValidControl(first) && first.state != Unknown;
      assert AllAre(e, s.revision, s.state);
      assert s.state in {Granted, NotRequired};
    }
  }

  predicate Clears(admission: Admission) {
    admission.Legacy? || admission.AdmissionNotRequired? || admission.AdmissionAllowed?
  }

  lemma SnapshotClears(s: Snapshot, revision: Option<int>)
    requires Safe(s.revision)
    ensures Clears(Admit(Some(s), revision)) <==>
              revision == Some(s.revision) && !s.conflicting && !s.state.Denied? && !s.state.Withdrawn?
              && !(s.fence.Some? && s.fence.value.sequence >= s.sequence)
  { }

  /** Admission clears a record exactly if the set of relevant controls does. */
  lemma AdmissionMeansCleared(e: set<Control>, purpose: string, r: Option<Snapshot>, revision: Option<int>)
    requires forall c :: c in e ==> ValidControl(c) && c.state != Unknown
    requires Describes(e, purpose, r)
    ensures Clears(Admit(r, revision)) <==> Cleared(e, revision)
  {
    if Versioned(e) {
      VersionedCleared(e, purpose, r.value, revision);
    } else if Fenced(e) {
      var last :| IsLastFence(e, last) && Carries(r.value, last);
    }
  }

  lemma VersionedCleared(e: set<Control>, purpose: string, s: Snapshot, revision: Option<int>)
    requires forall c :: c in e ==> ValidControl(c) && c.state != Unknown
    requires Describes(e, purpose, Some(s)) && Versioned(e)
    ensures Clears(Admit(Some(s), revision)) <==> Cleared(e, revision)
  {
    var first :| IsFirst(e, s.revision, first) && Carries(s, first);
    assert ValidControl(first);
    SnapshotClears(s, revision);
    FenceIsAhead(e, s, first);
    StatesOfTop(e, s, first);
    if revision.Some? && IsTop(e, revision.value) { TopIsUnique(e, s.revision, revision.value); }
  }

  ghost function RelevantTo(context: Context, subject: Subject): set<Control>
    requires subject.purpose.Some?
  {
    if subject.purpose.value in PURPOSES then Relevant(ControlsOf(context), subject.purpose.value, subject.sequence)
    else {}
  }

  /** No stale resurrection: on the revision-controlled path a record is allowed exactly if the
      recognized controls clear it and, where a server withdrawal already stands, a documented
      basis is in force. Nothing else, and no basis by itself, lets a record through. */
  lemma NoStaleResurrection(context: Context, subject: Subject)
    requires ConsentRequired(context, subject) && Controlled(context, subject)
    requires Decide(context, subject).Decided?
    ensures Decide(context, subject).allowed <==>
      Cleared(RelevantTo(context, subject), subject.revision)
      && (BeforeWithdrawal(context, subject) || FindBasis(context.bases, subject) == Found)
  {
    var controls, e := ControlsOf(context), RelevantTo(context, subject);
    if subject.purpose.value in PURPOSES {
      SnapshotDescribes(controls, subject.purpose.value, subject.sequence);
    }
    AdmissionMeansCleared(e, subject.purpose.value, SnapshotForRecord(context, subject), subject.revision);
  }

  /** Bases never rescue a record the controls do not clear. */
  lemma BasesNeverRescue(context: Context, subject: Subject, bases: seq<Basis>)
    requires ConsentRequired(context, subject) && Controlled(context, subject)
    requires Decide(context, subject).Decided? && !Cleared(RelevantTo(context, subject), subject.revision)
    ensures Decide(context.(bases := bases), subject) == Decide(context, subject) && !Decide(context, subject).allowed
  {
    var e := RelevantTo(context, subject);
    if subject.purpose.value in PURPOSES {
      SnapshotDescribes(ControlsOf(context), subject.purpose.value, subject.sequence);
    }
    AdmissionMeansCleared(e, subject.purpose.value, SnapshotForRecord(context, subject), subject.revision);
    assert SnapshotForRecord(context.(bases := bases), subject) == SnapshotForRecord(context, subject);
  }

  /** What is found is a matching basis whose time has come; what is not found has none. */
  lemma {:induction false} FindBasisMeaning(bases: seq<Basis>, subject: Subject)
    requires FindBasis(bases, subject) != Unreadable
    ensures FindBasis(bases, subject) == Found <==>
      exists b :: b in bases && Names(b, subject) && Parse(b.effectiveAt).Some? && Parse(subject.receivedAt).Some?
                  && Parse(b.effectiveAt).value <= Parse(subject.receivedAt).value
  {
    if bases != [] {
      assert bases == [bases[0]] + bases[1..];
      if FindBasis(bases, subject) == FindBasis(bases[1..], subject) { FindBasisMeaning(bases[1..], subject); }
    }
  }
}
