/** What consent controls decide, stated on the fields of the controls and of the record. */
module ConsentRules {
  import opened Sequences
  import opened Ordering
  import opened Timestamps
  import opened Consent
  import opened ConsentDecision

  // ----- Controls

  ghost predicate IsPurpose(text: string) { text in {"attribution", "analytics", "revenue_measurement"} }

  /** The fields are of the kinds they must be; a purpose comes only with a revision. */
  ghost predicate Wellformed(c: Control) {
    && 0 <= c.sequence <= 9007199254740991
    && c.state in {Granted, Denied, Withdrawn, NotRequired, Unknown}
    && Parse(c.recognizedAt).Some?
    && (c.revision.None? || 1 <= c.revision.value <= 9007199254740991)
    && (c.purpose.None? || (IsPurpose(c.purpose.value) && c.revision.Some?))
  }

  /** The control is about the purpose, names a state, and is recognized by the sequence. */
  ghost predicate Speaks(c: Control, purpose: string, sequence: int) {
    c.purpose in {None, Some(purpose)} && c.state != Unknown && c.sequence <= sequence
  }

  /** A denial or withdrawal that carries no revision. */
  ghost predicate Denies(c: Control) { c.revision.None? && c.state in {Denied, Withdrawn} }

  function StateName(s: ConsentState): string {
    match s
    case Granted => "granted"
    case Denied => "denied"
    case Withdrawn => "withdrawn"
    case NotRequired => "not_required"
    case Unknown => "unknown"
    case Unrecognized(text) => text
  }

  /** By sequence, then by the instant of recognition, then by the name of the state. */
  ghost predicate RecognizedNoLater(a: Control, b: Control) {
    || a.sequence < b.sequence
    || (a.sequence == b.sequence && Parse(a.recognizedAt).Some? && Parse(b.recognizedAt).Some?
        && (Parse(a.recognizedAt).value < Parse(b.recognizedAt).value
            || (Parse(a.recognizedAt) == Parse(b.recognizedAt) && TextAtMost(StateName(a.state), StateName(b.state)))))
  }

  lemma WellformedMeaning(c: Control)
    ensures ValidControl(c) <==> Wellformed(c)
  {
    PurposesMeaning();
  }

  lemma PurposesMeaning()
    ensures forall text :: text in PURPOSES <==> IsPurpose(text)
  { }

  lemma RankMeaning(s: ConsentState, t: ConsentState)
    requires !s.Unrecognized? && !t.Unrecognized?
    ensures Rank(s) <= Rank(t) <==> TextAtMost(StateName(s), StateName(t))
  {
    if s == t {
      CompareFlips(CodePoints(StateName(s)), CodePoints(StateName(t)));
    } else {
      FirstLetters(StateName(s), StateName(t));
    }
  }

  lemma OneNumber(m: int, n: int)
    ensures Compare([m], [n]) < 0 <==> m < n
    ensures Compare([m], [n]) == 0 <==> m == n
  { }

  lemma RecognitionMeaning(a: Control, b: Control)
    requires Wellformed(a) && Wellformed(b)
    ensures Earlier(a, b) <==> RecognizedNoLater(a, b)
  {
    ThreeKeys([a.sequence], CodePoints(a.recognizedAt), [Rank(a.state)],
              [b.sequence], CodePoints(b.recognizedAt), [Rank(b.state)]);
    TwoKeys(CodePoints(a.recognizedAt), [Rank(a.state)], CodePoints(b.recognizedAt), [Rank(b.state)]);
    OneNumber(a.sequence, b.sequence);
    OneNumber(Rank(a.state), Rank(b.state));
    RankMeaning(a.state, b.state);
    TimesMeaning(a.recognizedAt, b.recognizedAt);
  }

  lemma TimesMeaning(s: string, t: string)
    requires Parse(s).Some? && Parse(t).Some?
    ensures Compare(CodePoints(s), CodePoints(t)) < 0 <==> Parse(s).value < Parse(t).value
    ensures Compare(CodePoints(s), CodePoints(t)) == 0 <==> Parse(s).value == Parse(t).value
  {
    StringOrderIsTimeOrder(s, t);
    StringOrderIsTimeOrder(t, s);
    CompareFlips(CodePoints(s), CodePoints(t));
  }

  lemma RelevantMeaning(controls: seq<Control>, purpose: string, sequence: int, c: Control)
    ensures c in Relevant(controls, purpose, sequence) <==> c in controls && Speaks(c, purpose, sequence)
  { }

  // ----- Snapshots

  /** The first control at the revision, which is the highest. */
  ghost predicate FirstAtTop(controls: seq<Control>, purpose: string, sequence: int, revision: int, c: Control) {
    && c in controls && Speaks(c, purpose, sequence) && c.revision == Some(revision)
    && forall d :: d in controls && Speaks(d, purpose, sequence) && d.revision.Some? ==>
         d.revision.value <= revision && (d.revision.value == revision ==> RecognizedNoLater(c, d))
  }

  /** The last unversioned denial. */
  ghost predicate LastDenial(controls: seq<Control>, purpose: string, sequence: int, c: Control) {
    && c in controls && Speaks(c, purpose, sequence) && Denies(c)
    && forall d :: d in controls && Speaks(d, purpose, sequence) && Denies(d) ==> RecognizedNoLater(d, c)
  }

  ghost predicate SomeVersioned(controls: seq<Control>, purpose: string, sequence: int) {
    exists c :: c in controls && Speaks(c, purpose, sequence) && c.revision.Some?
  }

  ghost predicate SomeDenial(controls: seq<Control>, purpose: string, sequence: int) {
    exists c :: c in controls && Speaks(c, purpose, sequence) && Denies(c)
  }

  ghost predicate Shows(s: Snapshot, c: Control) {
    s.state == c.state && s.sequence == c.sequence && s.recognizedAt == c.recognizedAt
  }

  ghost predicate Disagreement(controls: seq<Control>, purpose: string, sequence: int, revision: int) {
    exists c, d :: c in controls && d in controls && Speaks(c, purpose, sequence) && Speaks(d, purpose, sequence)
                   && c.revision == d.revision == Some(revision) && c.state != d.state
  }

  /** What the snapshot of a purpose must be. */
  ghost predicate RightSnapshot(controls: seq<Control>, purpose: string, sequence: int, r: Option<Snapshot>) {
    if SomeVersioned(controls, purpose, sequence) then
      && r.Some? && RightFields(controls, purpose, sequence, r.value)
      && exists c :: FirstAtTop(controls, purpose, sequence, r.value.revision, c) && Shows(r.value, c)
    else if SomeDenial(controls, purpose, sequence) then
      && r.Some? && RightFields(controls, purpose, sequence, r.value) && r.value.revision == 0
      && exists c :: LastDenial(controls, purpose, sequence, c) && Shows(r.value, c)
    else r.None?
  }

  ghost predicate RightFields(controls: seq<Control>, purpose: string, sequence: int, s: Snapshot) {
    && s.purpose == purpose
    && (s.conflicting <==> Disagreement(controls, purpose, sequence, s.revision))
    && if SomeDenial(controls, purpose, sequence) then
         s.fence.Some? && exists c :: LastDenial(controls, purpose, sequence, c)
                                      && s.fence.value == Fence(c.sequence, c.recognizedAt)
       else s.fence.None?
  }

  lemma TopMeaning(controls: seq<Control>, purpose: string, sequence: int, revision: int, c: Control)
    requires forall d :: d in controls ==> Wellformed(d)
    requires IsTop(Relevant(controls, purpose, sequence), revision)
    ensures IsFirst(Relevant(controls, purpose, sequence), revision, c)
       <==> FirstAtTop(controls, purpose, sequence, revision, c)
  {
    var e := Relevant(controls, purpose, sequence);
    forall d ensures d in e <==> d in controls && Speaks(d, purpose, sequence) {
      RelevantMeaning(controls, purpose, sequence, d);
    }
    forall d | c in e && d in e ensures Earlier(c, d) <==> RecognizedNoLater(c, d) { RecognitionMeaning(c, d); }
  }

  lemma FenceMeaning(controls: seq<Control>, purpose: string, sequence: int, c: Control)
    requires forall d :: d in controls ==> Wellformed(d)
    ensures IsLastFence(Relevant(controls, purpose, sequence), c) <==> LastDenial(controls, purpose, sequence, c)
  {
    var e := Relevant(controls, purpose, sequence);
    forall d ensures d in e <==> d in controls && Speaks(d, purpose, sequence) {
      RelevantMeaning(controls, purpose, sequence, d);
    }
    forall d ensures UnversionedDenial(d) <==> Denies(d) { }
    forall d | c in e && d in e ensures Earlier(d, c) <==> RecognizedNoLater(d, c) { RecognitionMeaning(d, c); }
  }

  /** Every snapshot, on the fields of the controls. */
  lemma SnapshotFollowsRules(controls: seq<Control>, purpose: string, sequence: int)
    requires forall c :: c in controls ==> Wellformed(c)
    ensures RightSnapshot(controls, purpose, sequence, SnapshotOf(controls, purpose, sequence))
  {
    var e, r := Relevant(controls, purpose, sequence), SnapshotOf(controls, purpose, sequence);
    forall c | c in controls ensures ValidControl(c) { WellformedMeaning(c); }
    SnapshotDescribes(controls, purpose, sequence);
    forall d ensures d in e <==> d in controls && Speaks(d, purpose, sequence) {
      RelevantMeaning(controls, purpose, sequence, d);
    }
    forall c ensures IsLastFence(e, c) <==> LastDenial(controls, purpose, sequence, c) {
      FenceMeaning(controls, purpose, sequence, c);
    }
    if r.Some? {
      forall c
        ensures IsFirst(e, r.value.revision, c) <==> FirstAtTop(controls, purpose, sequence, r.value.revision, c)
      {
        TopMeaning(controls, purpose, sequence, r.value.revision, c);
      }
    }
    Assembled(controls, purpose, sequence, e, r);
  }

  lemma Assembled(controls: seq<Control>, purpose: string, sequence: int, e: set<Control>, r: Option<Snapshot>)
    requires Describes(e, purpose, r)
    requires forall d :: d in e <==> d in controls && Speaks(d, purpose, sequence)
    requires forall c :: IsLastFence(e, c) <==> LastDenial(controls, purpose, sequence, c)
    requires r.Some? ==> forall c ::
               IsFirst(e, r.value.revision, c) <==> FirstAtTop(controls, purpose, sequence, r.value.revision, c)
    ensures RightSnapshot(controls, purpose, sequence, r)
  {
    assert Versioned(e) <==> SomeVersioned(controls, purpose, sequence);
    assert Fenced(e) <==> SomeDenial(controls, purpose, sequence);
  }

  /** A denial without a revision, once recognized, fences every purpose from then on. */
  lemma DenialFencesEveryPurpose(controls: seq<Control>, purpose: string, sequence: int, d: Control)
    requires forall c :: c in controls ==> Wellformed(c)
    requires d in controls && Denies(d) && d.sequence <= sequence
    ensures var s := SnapshotOf(controls, purpose, sequence);
            s.Some? && s.value.fence.Some? && s.value.fence.value.sequence >= d.sequence
  {
    SnapshotFollowsRules(controls, purpose, sequence);
    assert Speaks(d, purpose, sequence);
  }

  /** A revision, once recognized for the purpose or for all, is never undercut. */
  lemma RevisionsOnlyRise(controls: seq<Control>, purpose: string, sequence: int, c: Control)
    requires forall x :: x in controls ==> Wellformed(x)
    requires c in controls && c.sequence <= sequence && c.state != Unknown && c.purpose in {None, Some(purpose)}
    requires c.revision.Some?
    ensures var s := SnapshotOf(controls, purpose, sequence); s.Some? && s.value.revision >= c.revision.value
  {
    SnapshotFollowsRules(controls, purpose, sequence);
    assert Speaks(c, purpose, sequence);
  }

  ghost function Listed(controls: seq<Control>, purpose: string, sequence: int): seq<Snapshot> {
    var s := SnapshotOf(controls, purpose, sequence);
    if s.Some? then [s.value] else []
  }

  /** The purposes in the order in which they are reported. */
  lemma OutputFollowsRules(controls: seq<Control>, sequence: int)
    ensures Snapshots(controls, sequence, |PURPOSES|)
         == Listed(controls, "attribution", sequence) + Listed(controls, "analytics", sequence)
            + Listed(controls, "revenue_measurement", sequence)
  {
    assert Snapshots(controls, sequence, 0) == [];
    assert Snapshots(controls, sequence, 1) == Listed(controls, "attribution", sequence);
    assert Snapshots(controls, sequence, 2)
        == Snapshots(controls, sequence, 1) + Listed(controls, "analytics", sequence);
  }

  // ----- The decision on a record

  /** The record names a purpose that its server says needs consent, and is not itself about consent. */
  ghost predicate Asked(context: Context, subject: Subject) {
    && subject.purpose.Some? && subject.purpose.value != "" && !subject.exempt
    && exists p :: FirstWith(context.purposes, CalledIt(subject.purpose.value), p) && p.consentRequired
  }

  function CalledIt(id: string): Purpose -> bool { (p: Purpose) => p.id == id }

  function OfIt(id: string): Withdrawal -> bool { (w: Withdrawal) => w.purpose == id }

  ghost predicate UnderControls(context: Context, subject: Subject) {
    context.controls.Some? || subject.revision.Some?
  }

  ghost function Recorded(context: Context): seq<Control> {
    match context.controls
    case Some(controls) => controls
    case None => []
  }

  ghost predicate SpeaksTo(context: Context, subject: Subject, c: Control)
    requires subject.purpose.Some?
  {
    c in Recorded(context) && IsPurpose(subject.purpose.value) && Speaks(c, subject.purpose.value, subject.sequence)
  }

  ghost predicate AnyVersioned(context: Context, subject: Subject)
    requires subject.purpose.Some?
  {
    exists c :: SpeaksTo(context, subject, c) && c.revision.Some?
  }

  ghost predicate HighestRevision(context: Context, subject: Subject, revision: int)
    requires subject.purpose.Some?
  {
    && (exists c :: SpeaksTo(context, subject, c) && c.revision == Some(revision))
    && (forall c :: SpeaksTo(context, subject, c) && c.revision.Some? ==> c.revision.value <= revision)
  }

  /** At the revision only this state was ever recorded. */
  ghost predicate OnlyState(context: Context, subject: Subject, revision: int, state: ConsentState)
    requires subject.purpose.Some?
  {
    forall c :: SpeaksTo(context, subject, c) && c.revision == Some(revision) ==> c.state == state
  }

  /** Every denial without a revision came strictly before the revision. */
  ghost predicate DenialsBefore(context: Context, subject: Subject, revision: int)
    requires subject.purpose.Some?
  {
    forall c, d ::
      SpeaksTo(context, subject, c) && c.revision == Some(revision) && SpeaksTo(context, subject, d) && Denies(d) ==>
        d.sequence < c.sequence
  }

  /** The record carries the highest revision, which says the state and nothing else, after every denial. */
  ghost predicate ClearedAs(context: Context, subject: Subject, state: ConsentState)
    requires subject.purpose.Some?
  {
    && subject.revision.Some? && HighestRevision(context, subject, subject.revision.value)
    && OnlyState(context, subject, subject.revision.value, state)
    && DenialsBefore(context, subject, subject.revision.value)
  }

  /** Nothing was ever recorded for the record, and it claims no revision. */
  ghost predicate NothingRecorded(context: Context, subject: Subject)
    requires subject.purpose.Some?
  {
    && !AnyVersioned(context, subject)
    && (forall c :: SpeaksTo(context, subject, c) ==> !Denies(c))
    && subject.revision in {None, Some(0)}
  }

  ghost predicate ControlsClear(context: Context, subject: Subject)
    requires subject.purpose.Some?
  {
    || ClearedAs(context, subject, Granted) || ClearedAs(context, subject, NotRequired)
    || NothingRecorded(context, subject)
  }

  /** The first withdrawal listed for the purpose, if any, is of a later sequence. */
  ghost predicate NotYetWithdrawn(context: Context, subject: Subject)
    requires subject.purpose.Some?
  {
    forall w :: FirstWith(context.withdrawals, OfIt(subject.purpose.value), w) ==> subject.sequence < w.sequence
  }

  ghost predicate BasisFor(basis: Basis, subject: Subject) {
    subject.basisId == Some(basis.id) && subject.purpose == Some(basis.purpose)
  }

  /** The basis is one the record names, effective at receipt, and those listed before it can be read. */
  ghost predicate InForceAt(bases: seq<Basis>, subject: Subject, i: nat)
    requires i < |bases|
  {
    && BasisFor(bases[i], subject)
    && Parse(bases[i].effectiveAt).Some? && Parse(subject.receivedAt).Some?
    && Parse(bases[i].effectiveAt).value <= Parse(subject.receivedAt).value
    && forall j :: 0 <= j < i && BasisFor(bases[j], subject) ==> Parse(bases[j].effectiveAt).Some?
  }

  ghost predicate BasisInForce(bases: seq<Basis>, subject: Subject) {
    exists i :: 0 <= i < |bases| && InForceAt(bases, subject, i)
  }

  lemma AskedMeaning(context: Context, subject: Subject)
    ensures ConsentRequired(context, subject) <==> Asked(context, subject)
  {
    if subject.purpose.Some? {
      var id := subject.purpose.value;
      FirstExt(context.purposes, ForPurpose(id), CalledIt(id));
      forall p ensures FirstOf(context.purposes, ForPurpose(id)) == Some(p)
                  <==> FirstWith(context.purposes, CalledIt(id), p) { FirstMeaning(context.purposes, CalledIt(id), p); }
    }
  }

  lemma WithdrawalMeaning(context: Context, subject: Subject)
    requires subject.purpose.Some?
    ensures BeforeWithdrawal(context, subject) <==> NotYetWithdrawn(context, subject)
  {
    var id := subject.purpose.value;
    FirstExt(context.withdrawals, WithdrawalFor(id), OfIt(id));
    forall w ensures FirstOf(context.withdrawals, WithdrawalFor(id)) == Some(w)
                <==> FirstWith(context.withdrawals, OfIt(id), w) { FirstMeaning(context.withdrawals, OfIt(id), w); }
  }

  lemma {:induction false} BasisMeaning(bases: seq<Basis>, subject: Subject)
    ensures FindBasis(bases, subject) == Found <==> BasisInForce(bases, subject)
  {
    if bases != [] {
      BasisMeaning(bases[1..], subject);
      FirstOrRest(bases, subject);
    }
  }

  lemma InForceInRest(bases: seq<Basis>, subject: Subject, i: nat)
    requires i < |bases| - 1
    ensures InForceAt(bases, subject, i + 1) <==>
      InForceAt(bases[1..], subject, i) && (BasisFor(bases[0], subject) ==> Parse(bases[0].effectiveAt).Some?)
  {
    var rest := bases[1..];
    assert forall j :: 0 <= j <= i ==> rest[j] == bases[j + 1];
    if InForceAt(rest, subject, i) && (BasisFor(bases[0], subject) ==> Parse(bases[0].effectiveAt).Some?) {
      forall j | 0 <= j < i + 1 && BasisFor(bases[j], subject) ensures Parse(bases[j].effectiveAt).Some? {
        if j > 0 { assert bases[j] == rest[j - 1]; }
      }
    }
  }

  lemma RestInForce(bases: seq<Basis>, subject: Subject)
    requires bases != [] && BasisInForce(bases[1..], subject)
    requires BasisFor(bases[0], subject) ==> Parse(bases[0].effectiveAt).Some?
    ensures BasisInForce(bases, subject)
  {
    var i: nat :| i < |bases| - 1 && InForceAt(bases[1..], subject, i);
    InForceInRest(bases, subject, i);
  }

  /** The first basis settles it, or leaves it to the others. */
  lemma FirstOrRest(bases: seq<Basis>, subject: Subject)
    requires bases != []
    ensures BasisInForce(bases, subject) <==>
      || InForceAt(bases, subject, 0)
      || ((BasisFor(bases[0], subject) ==> Parse(bases[0].effectiveAt).Some?) && BasisInForce(bases[1..], subject))
  {
    if BasisInForce(bases, subject) {
      var i: nat :| i < |bases| && InForceAt(bases, subject, i);
      if i > 0 { InForceInRest(bases, subject, i - 1); }
    }
    if BasisInForce(bases[1..], subject) && (BasisFor(bases[0], subject) ==> Parse(bases[0].effectiveAt).Some?) {
      RestInForce(bases, subject);
    }
  }

  lemma RelevantToMeaning(context: Context, subject: Subject, c: Control)
    requires subject.purpose.Some?
    ensures c in RelevantTo(context, subject) <==> SpeaksTo(context, subject, c)
  {
    PurposesMeaning();
  }

  /** The controls clear the record as the rules say. */
  lemma ClearMeaning(context: Context, subject: Subject)
    requires subject.purpose.Some?
    ensures Cleared(RelevantTo(context, subject), subject.revision) <==> ControlsClear(context, subject)
  {
    var e := RelevantTo(context, subject);
    forall c ensures c in e <==> SpeaksTo(context, subject, c) { RelevantToMeaning(context, subject, c); }
    assert Versioned(e) <==> AnyVersioned(context, subject);
    forall d ensures UnversionedDenial(d) <==> Denies(d) { }
    if AnyVersioned(context, subject) && subject.revision.Some? {
      assert IsTop(e, subject.revision.value) <==> HighestRevision(context, subject, subject.revision.value);
      forall state ensures AllAre(e, subject.revision.value, state)
                      <==> OnlyState(context, subject, subject.revision.value, state) { }
      assert Unfenced(e, subject.revision.value) <==> DenialsBefore(context, subject, subject.revision.value);
    }
  }

  lemma InvalidMeaning(context: Context, subject: Subject)
    ensures (exists c :: c in ControlsOf(context) && !ValidControl(c))
       <==> exists c :: c in Recorded(context) && !Wellformed(c)
  {
    forall c ensures ValidControl(c) <==> Wellformed(c) { WellformedMeaning(c); }
  }

  /** Every consent decision, on the fields: an asked record under controls fails on a malformed control;
      otherwise a record is allowed exactly if nothing is asked, or the controls, where there are any,
      clear it, and no withdrawal stands without a basis in force. */
  lemma ConsentFollowsRules(context: Context, subject: Subject)
    ensures Decide(context, subject).ControlInvalid? <==>
      Asked(context, subject) && UnderControls(context, subject)
      && (!(0 <= subject.sequence <= 9007199254740991) || exists c :: c in Recorded(context) && !Wellformed(c))
    ensures !Decide(context, subject).ControlInvalid? ==>
      ((Decide(context, subject).Decided? && Decide(context, subject).allowed) <==>
        (Asked(context, subject) ==>
          (UnderControls(context, subject) ==> ControlsClear(context, subject))
          && (NotYetWithdrawn(context, subject) || BasisInForce(context.bases, subject))))
  {
    AskedMeaning(context, subject);
    InvalidMeaning(context, subject);
    if Asked(context, subject) {
      WithdrawalMeaning(context, subject);
      BasisMeaning(context.bases, subject);
      ClearMeaning(context, subject);
      if Controlled(context, subject) && Decide(context, subject).Decided? { NoStaleResurrection(context, subject); }
    }
  }

  // ----- The reason

  /** The record carries the highest revision; all its controls grant, and come strictly after the denial. */
  ghost predicate Outlasts(context: Context, subject: Subject, d: Control)
    requires subject.purpose.Some?
  {
    && subject.revision.Some? && HighestRevision(context, subject, subject.revision.value)
    && forall c :: SpeaksTo(context, subject, c) && c.revision == subject.revision ==>
         c.state in {Granted, NotRequired} && d.sequence < c.sequence
  }

  lemma ClearAfterDenial(context: Context, subject: Subject, d: Control)
    requires subject.purpose.Some? && ControlsClear(context, subject)
    requires SpeaksTo(context, subject, d) && Denies(d)
    ensures Outlasts(context, subject, d)
  { }

  /** Once a denial or withdrawal without a revision speaks to the record, it is allowed only under a
      revision all of whose controls come strictly after that denial. */
  lemma DenialOutlasted(context: Context, subject: Subject, d: Control, reason: ReasonCode)
    requires subject.purpose.Some? && SpeaksTo(context, subject, d) && Denies(d)
    requires Asked(context, subject) && UnderControls(context, subject)
    ensures Decide(context, subject) == Decided(true, reason) ==> Outlasts(context, subject, d)
  {
    ConsentFollowsRules(context, subject);
    if ControlsClear(context, subject) { ClearAfterDenial(context, subject, d); }
  }

  ghost predicate AnyDenial(context: Context, subject: Subject)
    requires subject.purpose.Some?
  {
    exists c :: SpeaksTo(context, subject, c) && Denies(c)
  }

  ghost predicate OneState(context: Context, subject: Subject, revision: int)
    requires subject.purpose.Some?
  {
    exists state :: OnlyState(context, subject, revision, state)
  }

  ghost predicate Standing(context: Context, subject: Subject, revision: int)
    requires subject.purpose.Some?
  {
    && (OnlyState(context, subject, revision, Granted) || OnlyState(context, subject, revision, NotRequired))
    && DenialsBefore(context, subject, revision)
  }

  /** The revision of the record cannot be confirmed: it is out of range, or claims one where nothing was
      recorded, or the highest one is contested, or stands but is not the record's. */
  ghost predicate Unconfirmed(context: Context, subject: Subject)
    requires subject.purpose.Some?
  {
    || (subject.revision.Some? && !(0 <= subject.revision.value <= 9007199254740991))
    || (!AnyVersioned(context, subject) && !AnyDenial(context, subject) && subject.revision !in {None, Some(0)})
    || (exists revision :: HighestRevision(context, subject, revision)
          && (!OneState(context, subject, revision)
              || (Standing(context, subject, revision) && subject.revision != Some(revision))))
  }

  ghost predicate AllWellformed(context: Context) { forall c :: c in Recorded(context) ==> Wellformed(c) }

  /** The snapshot of the record, in terms of what speaks to it. */
  lemma RecordSnapshot(context: Context, subject: Subject)
    requires subject.purpose.Some? && AllWellformed(context)
    ensures var r, p, q := SnapshotForRecord(context, subject), subject.purpose.value, subject.sequence;
      && (r.Some? <==> AnyVersioned(context, subject) || AnyDenial(context, subject))
      && (r.Some? ==> RightSnapshot(Recorded(context), p, q, r))
      && (r.Some? ==> IsPurpose(p))
      && (AnyVersioned(context, subject) ==> HighestRevision(context, subject, r.value.revision))
  {
    PurposesMeaning();
    SnapshotFollowsRules(Recorded(context), subject.purpose.value, subject.sequence);
  }

  lemma OneHighest(context: Context, subject: Subject, m: int, n: int)
    requires subject.purpose.Some? && HighestRevision(context, subject, m) && HighestRevision(context, subject, n)
    ensures m == n
  { }

  /** The control that a snapshot of a recorded revision shows, and that speaks first at it. */
  lemma ShownAtTop(context: Context, subject: Subject) returns (s: Snapshot, c: Control)
    requires subject.purpose.Some? && AllWellformed(context) && AnyVersioned(context, subject)
    ensures SnapshotForRecord(context, subject) == Some(s) && HighestRevision(context, subject, s.revision)
    ensures RightFields(Recorded(context), subject.purpose.value, subject.sequence, s)
    ensures FirstAtTop(Recorded(context), subject.purpose.value, subject.sequence, s.revision, c) && Shows(s, c)
    ensures SpeaksTo(context, subject, c)
  {
    RecordSnapshot(context, subject);
    s := SnapshotForRecord(context, subject).value;
    c :| FirstAtTop(Recorded(context), subject.purpose.value, subject.sequence, s.revision, c) && Shows(s, c);
  }

  lemma StateAtTop(context: Context, subject: Subject, s: Snapshot, c: Control, state: ConsentState)
    requires subject.purpose.Some? && SpeaksTo(context, subject, c)
    requires c.revision == Some(s.revision) && s.state == c.state
    requires s.conflicting <==>
      Disagreement(Recorded(context), subject.purpose.value, subject.sequence, s.revision)
    ensures OnlyState(context, subject, s.revision, state) <==> !s.conflicting && state == s.state
  { }

  lemma DenialsBeforeTop(context: Context, subject: Subject, s: Snapshot, c: Control)
    requires subject.purpose.Some? && SpeaksTo(context, subject, c) && Shows(s, c)
    requires FirstAtTop(Recorded(context), subject.purpose.value, subject.sequence, s.revision, c)
    requires RightFields(Recorded(context), subject.purpose.value, subject.sequence, s)
    ensures DenialsBefore(context, subject, s.revision) <==> (s.fence.None? || s.fence.value.sequence < s.sequence)
  {
    if s.fence.Some? {
      var d :| LastDenial(Recorded(context), subject.purpose.value, subject.sequence, d)
               && s.fence.value == Fence(d.sequence, d.recognizedAt);
      assert SpeaksTo(context, subject, d);
    }
  }

  /** The highest revision in terms of the snapshot: contested, its state, and whether a denial fences it. */
  ghost predicate Tells(context: Context, subject: Subject, s: Snapshot)
    requires subject.purpose.Some?
  {
    && HighestRevision(context, subject, s.revision)
    && (forall state :: OnlyState(context, subject, s.revision, state) <==> !s.conflicting && state == s.state)
    && (DenialsBefore(context, subject, s.revision) <==> (s.fence.None? || s.fence.value.sequence < s.sequence))
  }

  lemma TopTells(context: Context, subject: Subject) returns (s: Snapshot)
    requires subject.purpose.Some? && AllWellformed(context) && AnyVersioned(context, subject)
    ensures SnapshotForRecord(context, subject) == Some(s) && Tells(context, subject, s)
    ensures s.state in {Granted, Denied, Withdrawn, NotRequired} && 1 <= s.revision <= 9007199254740991
  {
    var c;
    s, c := ShownAtTop(context, subject);
    forall state ensures OnlyState(context, subject, s.revision, state) <==> !s.conflicting && state == s.state {
      StateAtTop(context, subject, s, c, state);
    }
    DenialsBeforeTop(context, subject, s, c);
    TopIsSpoken(context, subject, s.revision);
    assert Wellformed(c);
  }

  /** The parts of the rules that the snapshot of a recorded revision settles. */
  lemma TopSettles(context: Context, subject: Subject, s: Snapshot)
    requires subject.purpose.Some? && AnyVersioned(context, subject) && Tells(context, subject, s)
    ensures OneState(context, subject, s.revision) <==> !s.conflicting
    ensures forall n :: HighestRevision(context, subject, n) ==> n == s.revision
    ensures forall state :: ClearedAs(context, subject, state) <==>
              subject.revision == Some(s.revision) && !s.conflicting && state == s.state
              && (s.fence.None? || s.fence.value.sequence < s.sequence)
  {
    forall n | HighestRevision(context, subject, n) ensures n == s.revision {
      OneHighest(context, subject, n, s.revision);
    }
    if !s.conflicting { assert OnlyState(context, subject, s.revision, s.state); }
  }

  lemma VersionedUnconfirmed(context: Context, subject: Subject, s: Snapshot)
    requires subject.purpose.Some? && AnyVersioned(context, subject) && Tells(context, subject, s)
    requires s.state in {Granted, Denied, Withdrawn, NotRequired}
    ensures Unconfirmed(context, subject) <==> Admit(Some(s), subject.revision).RevisionUnconfirmed?
  {
    TopSettles(context, subject, s);
    assert Standing(context, subject, s.revision) <==>
      !s.conflicting && s.state in {Granted, NotRequired} && (s.fence.None? || s.fence.value.sequence < s.sequence);
  }

  lemma VersionedAdmission(context: Context, subject: Subject, s: Snapshot)
    requires subject.purpose.Some? && AnyVersioned(context, subject) && Tells(context, subject, s)
    requires 1 <= s.revision <= 9007199254740991
    ensures var admission := Admit(Some(s), subject.revision);
      && (s.state == Granted || s.state == NotRequired || s.state == Denied || s.state == Withdrawn ==>
            && (admission.AdmissionAllowed? <==> ClearedAs(context, subject, Granted))
            && (admission.AdmissionNotRequired? <==> ClearedAs(context, subject, NotRequired)))
      && (admission.Legacy? <==> NothingRecorded(context, subject))
  {
    TopSettles(context, subject, s);
  }

  lemma DenialTells(context: Context, subject: Subject) returns (s: Snapshot)
    requires subject.purpose.Some? && AllWellformed(context)
    requires !AnyVersioned(context, subject) && AnyDenial(context, subject)
    ensures SnapshotForRecord(context, subject) == Some(s) && !s.conflicting && s.state in {Denied, Withdrawn}
    ensures exists d :: SpeaksTo(context, subject, d) && Denies(d)
  {
    RecordSnapshot(context, subject);
    s := SnapshotForRecord(context, subject).value;
    var d :| LastDenial(Recorded(context), subject.purpose.value, subject.sequence, d) && Shows(s, d);
    assert SpeaksTo(context, subject, d);
    assert !Disagreement(Recorded(context), subject.purpose.value, subject.sequence, s.revision);
  }

  lemma NoRecordAtAll(context: Context, subject: Subject)
    requires subject.purpose.Some? && AllWellformed(context)
    requires !AnyVersioned(context, subject) && !AnyDenial(context, subject)
    ensures SnapshotForRecord(context, subject) == None
    ensures forall d :: SpeaksTo(context, subject, d) ==> !Denies(d)
  {
    RecordSnapshot(context, subject);
  }

  lemma UnversionedAdmission(context: Context, subject: Subject)
    requires subject.purpose.Some? && AllWellformed(context) && !AnyVersioned(context, subject)
    ensures var admission := Admit(SnapshotForRecord(context, subject), subject.revision);
      && (admission.RevisionUnconfirmed? <==> Unconfirmed(context, subject))
      && !admission.AdmissionAllowed? && !admission.AdmissionNotRequired?
      && (admission.Legacy? <==> NothingRecorded(context, subject))
  {
    if AnyDenial(context, subject) {
      var s := DenialTells(context, subject);
    } else {
      NoRecordAtAll(context, subject);
    }
  }

  /** What admission comes to, on the fields. */
  lemma AdmissionFollowsRules(context: Context, subject: Subject)
    requires subject.purpose.Some? && AllWellformed(context)
    ensures var admission := Admit(SnapshotForRecord(context, subject), subject.revision);
      && (admission.RevisionUnconfirmed? <==> Unconfirmed(context, subject))
      && (admission.AdmissionAllowed? <==> ClearedAs(context, subject, Granted))
      && (admission.AdmissionNotRequired? <==> ClearedAs(context, subject, NotRequired))
      && (admission.Legacy? <==> NothingRecorded(context, subject))
  {
    if AnyVersioned(context, subject) {
      var s := TopTells(context, subject);
      VersionedUnconfirmed(context, subject, s);
      VersionedAdmission(context, subject, s);
    } else {
      UnversionedAdmission(context, subject);
    }
  }

  lemma TopIsSpoken(context: Context, subject: Subject, revision: int)
    requires subject.purpose.Some? && AllWellformed(context) && HighestRevision(context, subject, revision)
    ensures 1 <= revision <= 9007199254740991
  { }

  /** The reason a decision is given with, on the fields. */
  lemma ReasonFollowsRules(context: Context, subject: Subject)
    requires !Decide(context, subject).ControlInvalid? && Asked(context, subject)
    ensures var d, under := Decide(context, subject), UnderControls(context, subject);
      && (d == Decided(false, RevisionUnconfirmedReason) <==> under && Unconfirmed(context, subject))
      && (d == Decided(true, NotRequiredReason) <==>
            under && ClearedAs(context, subject, NotRequired) && NotYetWithdrawn(context, subject))
      && (d == Decided(true, ValidForRevision) <==>
            under && ClearedAs(context, subject, Granted) && NotYetWithdrawn(context, subject))
      && (d == Decided(true, ValidBeforeWithdrawal) <==>
            (under ==> NothingRecorded(context, subject)) && NotYetWithdrawn(context, subject))
      && (d == Decided(true, DocumentedBasis) <==>
            (under ==> ControlsClear(context, subject)) && !NotYetWithdrawn(context, subject)
            && BasisInForce(context.bases, subject))
  {
    AskedMeaning(context, subject);
    InvalidMeaning(context, subject);
    WithdrawalMeaning(context, subject);
    BasisMeaning(context.bases, subject);
    if UnderControls(context, subject) { AdmissionFollowsRules(context, subject); }
  }
}
