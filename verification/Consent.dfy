/** Purpose consent as a replicated log: controls carry revisions, arrive late, repeat and conflict;
    unversioned withdrawals act as fences. */
module Consent {
  import opened Sequences
  import opened Ordering
  import opened Timestamps

  datatype ConsentState = Granted | Denied | Withdrawn | NotRequired | Unknown | Unrecognized(text: string)

  /** None stands for an absent field. */
  datatype Control = Control(sequence: int, recognizedAt: string, state: ConsentState,
                             purpose: Option<string>, revision: Option<int>)

  const MAX_SAFE := 9007199254740991

  const PURPOSES: seq<string> := ["attribution", "analytics", "revenue_measurement"]

  predicate Safe(n: int) { 0 <= n <= MAX_SAFE }

  predicate ValidControl(c: Control) {
    && Safe(c.sequence)
    && !c.state.Unrecognized?
    && (c.purpose.Some? ==> c.purpose.value in PURPOSES && c.revision.Some?)
    && (c.revision.Some? ==> Safe(c.revision.value) && c.revision.value != 0)
    && Parse(c.recognizedAt).Some?
  }

  // ----- The order of recognition

  /** Alphabetical place of the state names. */
  function Rank(s: ConsentState): int {
    match s
    case Denied => 0
    case Granted => 1
    case NotRequired => 2
    case Unknown => 3
    case Withdrawn => 4
    case Unrecognized(_) => 5
  }

  function ControlKey(c: Control): seq<seq<int>> { [[c.sequence], CodePoints(c.recognizedAt), [Rank(c.state)]] }

  function ByRecognition(): (Control, Control) -> bool {
    (a: Control, b: Control) => CompareTuples(ControlKey(a), ControlKey(b)) <= 0
  }

  function Earlier(a: Control, b: Control): bool { CompareTuples(ControlKey(a), ControlKey(b)) <= 0 }

  lemma RecognitionIsPreorder()
    ensures TotalPreorder(ByRecognition())
  {
    forall x, y ensures ByRecognition()(x, y) || ByRecognition()(y, x) { TuplesFlip(ControlKey(x), ControlKey(y)); }
    forall x, y, z | ByRecognition()(x, y) && ByRecognition()(y, z) ensures ByRecognition()(x, z) {
      TuplesTransitive(ControlKey(x), ControlKey(y), ControlKey(z));
    }
  }

  /** Controls of equal rank carry the same sequence, time and state. */
  lemma EqualRecognition(a: Control, b: Control)
    requires Earlier(a, b) && Earlier(b, a) && !a.state.Unrecognized? && !b.state.Unrecognized?
    ensures a.sequence == b.sequence && a.recognizedAt == b.recognizedAt && a.state == b.state
  {
    TuplesFlip(ControlKey(a), ControlKey(b));
    var k, l := ControlKey(a), ControlKey(b);
    assert k[0] == l[0] && k[1] == l[1] && k[2] == l[2];
    assert k[0][0] == l[0][0] && k[2][0] == l[2][0];
    CodePointsInjective(a.recognizedAt, b.recognizedAt);
  }

  // ----- Snapshots

  datatype Fence = Fence(sequence: int, recognizedAt: string)

  datatype Snapshot = Snapshot(purpose: string, revision: int, state: ConsentState, sequence: int,
                               recognizedAt: string, conflicting: bool, fence: Option<Fence>)

  predicate Counts(c: Control, purpose: string, sequence: int) {
    c.sequence <= sequence && c.state != Unknown && (c.purpose.None? || c.purpose.value == purpose)
  }

  function Counted(purpose: string, sequence: int): Control -> bool { (c: Control) => Counts(c, purpose, sequence) }

  predicate UnversionedDenial(c: Control) { c.revision.None? && (c.state.Denied? || c.state.Withdrawn?) }

  function Fences(): Control -> bool { (c: Control) => UnversionedDenial(c) }

  function AtRevision(revision: int): Control -> bool { (c: Control) => c.revision == Some(revision) }

  function LastOf<T>(s: seq<T>, f: T -> bool): Option<T> {
    if s == [] then None else if f(s[|s| - 1]) then Some(s[|s| - 1]) else LastOf(s[..|s| - 1], f)
  }

  /** The highest revision, zero if no control carries one. */
  function TopRevision(s: seq<Control>): int {
    if s == [] then 0
    else
      var rest, c := TopRevision(s[..|s| - 1]), s[|s| - 1];
      if c.revision.Some? && c.revision.value > rest then c.revision.value else rest
  }

  function Eligible(controls: seq<Control>, purpose: string, sequence: int): seq<Control> {
    SortBy(Filter(controls, Counted(purpose, sequence)), ByRecognition())
  }

  function SnapshotOf(controls: seq<Control>, purpose: string, sequence: int): Option<Snapshot> {
    var eligible := Eligible(controls, purpose, sequence);
    var fence := LastOf(eligible, Fences());
    var revision := TopRevision(eligible);
    var first := FirstOf(eligible, AtRevision(revision));
    Assemble(eligible, purpose, revision, first, fence)
  }

  /** The latest revision as first recognized, or the fence where nothing is versioned. */
  function Assemble(eligible: seq<Control>, purpose: string, revision: int, first: Option<Control>,
                    fence: Option<Control>): Option<Snapshot> {
    var selected := if first.Some? then first else fence;
    if selected.None? then None
    else
      var c := selected.value;
      Some(Snapshot(purpose, revision, c.state, c.sequence, c.recognizedAt,
                    exists d :: d in eligible && AtRevision(revision)(d) && d.state != c.state,
                    if fence.Some? then Some(Fence(fence.value.sequence, fence.value.recognizedAt)) else None))
  }

  /** `purpose_consent_at`: one snapshot per purpose that has one; None where a control or the
      sequence is invalid. */
  method PurposeConsentAt(controls: seq<Control>, sequence: int) returns (output: Option<seq<Snapshot>>)
    ensures output.None? <==> !Safe(sequence) || exists c :: c in controls && !ValidControl(c)
    ensures output.Some? ==> output.value == Snapshots(controls, sequence, |PURPOSES|)
  {
    if !Safe(sequence) { return None; }
    for i := 0 to |controls|
      invariant forall j :: 0 <= j < i ==> ValidControl(controls[j])
    {
      if !ValidControl(controls[i]) { return None; }
    }
    var snapshots: seq<Snapshot> := [];
    for i := 0 to |PURPOSES|
      invariant snapshots == Snapshots(controls, sequence, i)
    {
      var snapshot := PurposeSnapshot(controls, PURPOSES[i], sequence);
      if snapshot.Some? { snapshots := snapshots + [snapshot.value]; }
    }
    output := Some(snapshots);
  }

  /** Backwards through the sorted controls to the last unversioned denial. */
  method FindFence(eligible: seq<Control>) returns (fence: Option<Control>)
    ensures fence == LastOf(eligible, Fences())
  {
    var i := |eligible|;
    assert eligible[..i] == eligible;
    while i > 0
      invariant 0 <= i <= |eligible|
      invariant LastOf(eligible, Fences()) == LastOf(eligible[..i], Fences())
    {
      i := i - 1;
      assert eligible[..i + 1][..i] == eligible[..i];
      if UnversionedDenial(eligible[i]) { return Some(eligible[i]); }
    }
    return None;
  }

  /** One purpose: filter, sort in place, scan backwards for the fence, pick the latest revision. */
  method PurposeSnapshot(controls: seq<Control>, purpose: string, sequence: int) returns (snapshot: Option<Snapshot>)
    ensures snapshot == SnapshotOf(controls, purpose, sequence)
  {
    var eligible := Filter(controls, Counted(purpose, sequence));
    eligible := SortBy(eligible, ByRecognition());
    var fence := FindFence(eligible);
    var revision := TopRevision(eligible);
    var latest := Filter(eligible, AtRevision(revision));
    FirstIsHeadOfFilter(eligible, AtRevision(revision));
    FilterMembers(eligible, AtRevision(revision));
    var selected := if latest != [] then Some(latest[0]) else fence;
    if selected.None? { return None; }
    var c := selected.value;
    var conflicting := exists d :: d in latest && d.state != c.state;
    snapshot := Some(Snapshot(purpose, revision, c.state, c.sequence, c.recognizedAt, conflicting,
      if fence.Some? then Some(Fence(fence.value.sequence, fence.value.recognizedAt)) else None));
  }

  function Snapshots(controls: seq<Control>, sequence: int, n: nat): seq<Snapshot>
    requires n <= |PURPOSES|
  {
    if n == 0 then []
    else
      var s := SnapshotOf(controls, PURPOSES[n - 1], sequence);
      Snapshots(controls, sequence, n - 1) + (if s.Some? then [s.value] else [])
  }

  // ----- What a snapshot says about the set of controls

  ghost function Relevant(controls: seq<Control>, purpose: string, sequence: int): set<Control> {
    set c | c in controls && Counts(c, purpose, sequence)
  }

  ghost predicate Versioned(e: set<Control>) { exists c :: c in e && c.revision.Some? }

  ghost predicate Fenced(e: set<Control>) { exists c :: c in e && UnversionedDenial(c) }

  /** revision is the top one of e, zero if there is none. */
  ghost predicate IsTop(e: set<Control>, revision: int) {
    && (forall c :: c in e && c.revision.Some? ==> c.revision.value <= revision)
    && (if Versioned(e) then exists c :: c in e && c.revision == Some(revision) else revision == 0)
  }

  /** c is recognized first among the controls of e at the revision. */
  ghost predicate IsFirst(e: set<Control>, revision: int, c: Control) {
    c in e && c.revision == Some(revision) && forall d :: d in e && d.revision == Some(revision) ==> Earlier(c, d)
  }

  /** c is recognized last among the unversioned denials of e. */
  ghost predicate IsLastFence(e: set<Control>, c: Control) {
    c in e && UnversionedDenial(c) && forall d :: d in e && UnversionedDenial(d) ==> Earlier(d, c)
  }

  ghost predicate Carries(s: Snapshot, c: Control) {
    s.state == c.state && s.sequence == c.sequence && s.recognizedAt == c.recognizedAt
  }

  ghost predicate FenceMatches(e: set<Control>, fence: Option<Fence>) {
    if Fenced(e) then fence.Some? && exists c :: IsLastFence(e, c) && fence.value == Fence(c.sequence, c.recognizedAt)
    else fence.None?
  }

  ghost predicate Describes(e: set<Control>, purpose: string, r: Option<Snapshot>) {
    && (r.Some? <==> Versioned(e) || Fenced(e))
    && (r.Some? ==>
          var s := r.value;
          && s.purpose == purpose
          && IsTop(e, s.revision)
          && (if Versioned(e) then exists c :: IsFirst(e, s.revision, c) && Carries(s, c)
              else exists c :: IsLastFence(e, c) && Carries(s, c))
          && (s.conflicting <==>
                exists c, d :: c in e && d in e && c.revision == d.revision == Some(s.revision) && c.state != d.state)
          && FenceMatches(e, s.fence))
  }

  lemma {:induction false} LastFound(s: seq<Control>, f: Control -> bool)
    ensures LastOf(s, f).Some? ==> LastOf(s, f).value in s && f(LastOf(s, f).value)
    ensures LastOf(s, f).None? <==> forall x :: x in s ==> !f(x)
  {
    if s != [] {
      LastFound(s[..|s| - 1], f);
      assert s == s[..|s| - 1] + [s[|s| - 1]];
    }
  }

  lemma InFrontIsEarlier(s: seq<Control>, x: Control)
    requires SortedBy(s, ByRecognition()) && s != [] && x in s[..|s| - 1]
    ensures Earlier(x, s[|s| - 1])
  {
    var i :| 0 <= i < |s| - 1 && s[i] == x;
    assert ByRecognition()(s[i], s[|s| - 1]);
  }

  lemma EarlierThanItself(x: Control)
    ensures Earlier(x, x)
  {
    TuplesFlip(ControlKey(x), ControlKey(x));
  }

  lemma FrontSorted(s: seq<Control>)
    requires SortedBy(s, ByRecognition()) && s != []
    ensures SortedBy(s[..|s| - 1], ByRecognition()) && s == s[..|s| - 1] + [s[|s| - 1]]
  { }

  lemma {:induction false} FirstIsMinimal(s: seq<Control>, f: Control -> bool, x: Control)
    requires SortedBy(s, ByRecognition()) && x in s && f(x)
    ensures FirstOf(s, f).Some? && Earlier(FirstOf(s, f).value, x)
  {
    var front := s[..|s| - 1];
    FrontSorted(s);
    FirstFound(front, f);
    if x in front {
      FirstIsMinimal(front, f, x);
    } else if FirstOf(front, f).Some? {
      InFrontIsEarlier(s, FirstOf(front, f).value);
    } else {
      EarlierThanItself(x);
    }
  }

  lemma {:induction false} LastIsMaximal(s: seq<Control>, f: Control -> bool, x: Control)
    requires SortedBy(s, ByRecognition()) && x in s && f(x)
    ensures LastOf(s, f).Some? && Earlier(x, LastOf(s, f).value)
  {
    FrontSorted(s);
    if !f(s[|s| - 1]) {
      LastIsMaximal(s[..|s| - 1], f, x);
    } else if x in s[..|s| - 1] {
      InFrontIsEarlier(s, x);
    } else {
      EarlierThanItself(x);
    }
  }

  lemma {:induction false} TopIsTop(s: seq<Control>)
    requires forall c :: c in s && c.revision.Some? ==> c.revision.value > 0
    ensures forall c :: c in s && c.revision.Some? ==> c.revision.value <= TopRevision(s)
    ensures (exists c :: c in s && c.revision.Some?) ==> exists c :: c in s && c.revision == Some(TopRevision(s))
    ensures (forall c :: c in s ==> c.revision.None?) ==> TopRevision(s) == 0
    ensures TopRevision(s) >= 0
  {
    if s != [] {
      var front, last := s[..|s| - 1], s[|s| - 1];
      assert s == front + [last];
      TopIsTop(front);
      assert last in s;
      if exists c :: c in front && c.revision == Some(TopRevision(front)) {
        var c :| c in front && c.revision == Some(TopRevision(front));
        assert c in s;
      }
    }
  }

  lemma EligibleMembers(controls: seq<Control>, purpose: string, sequence: int)
    ensures forall c :: c in Eligible(controls, purpose, sequence) <==> c in Relevant(controls, purpose, sequence)
    ensures SortedBy(Eligible(controls, purpose, sequence), ByRecognition())
  {
    var kept := Filter(controls, Counted(purpose, sequence));
    FilterMembers(controls, Counted(purpose, sequence));
    SortElements(kept, ByRecognition());
    RecognitionIsPreorder();
    SortSorts(kept, ByRecognition());
  }

  lemma TopDescribes(controls: seq<Control>, purpose: string, sequence: int)
    requires forall c :: c in controls ==> ValidControl(c)
    ensures IsTop(Relevant(controls, purpose, sequence), TopRevision(Eligible(controls, purpose, sequence)))
  {
    EligibleMembers(controls, purpose, sequence);
    TopIsTop(Eligible(controls, purpose, sequence));
  }

  lemma FirstDescribes(controls: seq<Control>, purpose: string, sequence: int, revision: int)
    ensures var c := FirstOf(Eligible(controls, purpose, sequence), AtRevision(revision));
            if c.Some? then IsFirst(Relevant(controls, purpose, sequence), revision, c.value)
            else forall d :: d in Relevant(controls, purpose, sequence) ==> d.revision != Some(revision)
  {
    var s := Eligible(controls, purpose, sequence);
    EligibleMembers(controls, purpose, sequence);
    FirstFound(s, AtRevision(revision));
    forall d | d in s && d.revision == Some(revision) ensures Earlier(FirstOf(s, AtRevision(revision)).value, d) {
      FirstIsMinimal(s, AtRevision(revision), d);
    }
  }

  lemma FenceDescribes(controls: seq<Control>, purpose: string, sequence: int)
    ensures var c := LastOf(Eligible(controls, purpose, sequence), Fences());
            if c.Some? then IsLastFence(Relevant(controls, purpose, sequence), c.value)
            else !Fenced(Relevant(controls, purpose, sequence))
  {
    var s := Eligible(controls, purpose, sequence);
    EligibleMembers(controls, purpose, sequence);
    LastFound(s, Fences());
    forall d | d in s && UnversionedDenial(d) ensures Earlier(d, LastOf(s, Fences()).value) {
      LastIsMaximal(s, Fences(), d);
    }
  }

  /** The computed snapshot is the one the set of relevant controls calls for. */
  lemma SnapshotDescribes(controls: seq<Control>, purpose: string, sequence: int)
    requires forall c :: c in controls ==> ValidControl(c)
    ensures Describes(Relevant(controls, purpose, sequence), purpose, SnapshotOf(controls, purpose, sequence))
  {
    var e, s := Relevant(controls, purpose, sequence), Eligible(controls, purpose, sequence);
    var revision := TopRevision(s);
    EligibleMembers(controls, purpose, sequence);
    TopDescribes(controls, purpose, sequence);
    FirstDescribes(controls, purpose, sequence, revision);
    FenceDescribes(controls, purpose, sequence);
    Assembled(e, s, purpose, revision, FirstOf(s, AtRevision(revision)), LastOf(s, Fences()));
  }

  lemma Assembled(e: set<Control>, s: seq<Control>, purpose: string, revision: int, first: Option<Control>,
                  fence: Option<Control>)
    requires forall c :: c in s <==> c in e
    requires IsTop(e, revision)
    requires if first.Some? then IsFirst(e, revision, first.value)
             else forall d :: d in e ==> d.revision != Some(revision)
    requires if fence.Some? then IsLastFence(e, fence.value) else !Fenced(e)
    ensures Describes(e, purpose, Assemble(s, purpose, revision, first, fence))
  { }

  lemma FirstIsUnique(e: set<Control>, revision: int, c: Control, d: Control)
    requires forall x :: x in e ==> ValidControl(x)
    requires IsFirst(e, revision, c) && IsFirst(e, revision, d)
    ensures c.sequence == d.sequence && c.recognizedAt == d.recognizedAt && c.state == d.state
  {
    EqualRecognition(c, d);
  }

  lemma LastFenceIsUnique(e: set<Control>, c: Control, d: Control)
    requires forall x :: x in e ==> ValidControl(x)
    requires IsLastFence(e, c) && IsLastFence(e, d)
    ensures c.sequence == d.sequence && c.recognizedAt == d.recognizedAt && c.state == d.state
  {
    EqualRecognition(c, d);
  }

  lemma FenceIsUnique(e: set<Control>, x: Option<Fence>, y: Option<Fence>)
    requires forall c :: c in e ==> ValidControl(c)
    requires FenceMatches(e, x) && FenceMatches(e, y)
    ensures x == y
  {
    if Fenced(e) {
      var c :| IsLastFence(e, c) && x.value == Fence(c.sequence, c.recognizedAt);
      var d :| IsLastFence(e, d) && y.value == Fence(d.sequence, d.recognizedAt);
      LastFenceIsUnique(e, c, d);
    }
  }

  lemma TopIsUnique(e: set<Control>, revision: int, other: int)
    requires IsTop(e, revision) && IsTop(e, other)
    ensures revision == other
  { }

  /** A set of relevant controls calls for at most one snapshot. */
  lemma SnapshotUnique(e: set<Control>, purpose: string, r: Option<Snapshot>, t: Option<Snapshot>)
    requires forall c :: c in e ==> ValidControl(c)
    requires Describes(e, purpose, r) && Describes(e, purpose, t)
    ensures r == t
  {
    if r.Some? {
      var x, y := r.value, t.value;
      TopIsUnique(e, x.revision, y.revision);
      FenceIsUnique(e, x.fence, y.fence);
      if Versioned(e) {
        var c :| IsFirst(e, x.revision, c) && Carries(x, c);
        var d :| IsFirst(e, y.revision, d) && Carries(y, d);
        FirstIsUnique(e, x.revision, c, d);
      } else {
        var c :| IsLastFence(e, c) && Carries(x, c);
        var d :| IsLastFence(e, d) && Carries(y, d);
        LastFenceIsUnique(e, c, d);
      }
    }
  }

  // ----- Stability

  /** Two views differ at most in versioned controls below a revision both hold. */
  ghost predicate DifferBelowTop(e: set<Control>, f: set<Control>) {
    forall c :: c in (e - f) + (f - e) ==>
      c.revision.Some? && exists d :: d in e * f && d.revision.Some? && d.revision.value > c.revision.value
  }

  lemma SameTop(e: set<Control>, f: set<Control>, revision: int)
    requires DifferBelowTop(e, f) && IsTop(e, revision) && Versioned(e)
    ensures IsTop(f, revision) && Versioned(f)
    ensures forall c: Control :: c.revision == Some(revision) ==> (c in e <==> c in f)
  { }

  lemma OnlyVersionedDiffer(e: set<Control>, f: set<Control>, c: Control)
    requires DifferBelowTop(e, f)
    ensures (c in e) != (c in f) ==> c.revision.Some? && Versioned(e) && Versioned(f)
  { }

  lemma DescribesTransfers(e: set<Control>, f: set<Control>, purpose: string, r: Option<Snapshot>)
    requires DifferBelowTop(e, f) && Describes(e, purpose, r)
    ensures Describes(f, purpose, r)
  {
    forall c
      ensures (c in e) != (c in f) ==> c.revision.Some? && Versioned(e) && Versioned(f)
    {
      OnlyVersionedDiffer(e, f, c);
    }
    forall c ensures IsLastFence(e, c) <==> IsLastFence(f, c) { }
    assert Fenced(e) == Fenced(f);
    if Versioned(e) {
      var s := r.value;
      SameTop(e, f, s.revision);
      forall c ensures IsFirst(e, s.revision, c) <==> IsFirst(f, s.revision, c) { }
    } else {
      assert e == f;
    }
  }

  /** Stability: the snapshot of a purpose depends only on which controls are present, not on their
      order or number; and unknown states, controls recognized after the sequence, and versioned
      controls below the current revision make no difference, whether added or removed. */
  lemma SnapshotStable(one: seq<Control>, two: seq<Control>, purpose: string, sequence: int)
    requires forall c :: c in one || c in two ==> ValidControl(c)
    requires DifferBelowTop(Relevant(one, purpose, sequence), Relevant(two, purpose, sequence))
    ensures SnapshotOf(one, purpose, sequence) == SnapshotOf(two, purpose, sequence)
  {
    SnapshotDescribes(one, purpose, sequence);
    SnapshotDescribes(two, purpose, sequence);
    DescribesTransfers(Relevant(one, purpose, sequence), Relevant(two, purpose, sequence), purpose,
                       SnapshotOf(one, purpose, sequence));
    SnapshotUnique(Relevant(two, purpose, sequence), purpose,
                   SnapshotOf(one, purpose, sequence), SnapshotOf(two, purpose, sequence));
  }

  /** The whole output depends only on which controls are present. */
  lemma {:induction false} OrderAndRepetitionIgnored(one: seq<Control>, two: seq<Control>, sequence: int, n: nat)
    requires n <= |PURPOSES|
    requires forall c :: c in one || c in two ==> ValidControl(c)
    requires forall c :: c in one <==> c in two
    ensures Snapshots(one, sequence, n) == Snapshots(two, sequence, n)
  {
    if n > 0 {
      OrderAndRepetitionIgnored(one, two, sequence, n - 1);
      assert Relevant(one, PURPOSES[n - 1], sequence) == Relevant(two, PURPOSES[n - 1], sequence);
      SnapshotStable(one, two, PURPOSES[n - 1], sequence);
    }
  }

  /** A control that says nothing new: of unknown state, not yet recognized, or versioned below a
      revision already recognized for the purpose. */
  ghost predicate Stale(controls: seq<Control>, c: Control, purpose: string, sequence: int) {
    || c.state == Unknown
    || c.sequence > sequence
    || (c.revision.Some?
        && exists d :: d in Relevant(controls, purpose, sequence)
                       && d.revision.Some? && d.revision.value > c.revision.value)
  }

  /** A stale control changes no snapshot it is stale for, wherever it is inserted. */
  lemma StaleControlIgnored(before: seq<Control>, after: seq<Control>, c: Control, purpose: string, sequence: int)
    requires forall d :: d in before + after || d == c ==> ValidControl(d)
    requires Stale(before + after, c, purpose, sequence)
    ensures SnapshotOf(before + [c] + after, purpose, sequence) == SnapshotOf(before + after, purpose, sequence)
  {
    var one, two := before + [c] + after, before + after;
    forall d ensures d in one <==> d in two || d == c { }
    var e, f := Relevant(one, purpose, sequence), Relevant(two, purpose, sequence);
    forall d | d in (e - f) + (f - e) ensures d == c && Counts(c, purpose, sequence) { }
    if c in (e - f) + (f - e) {
      var d :| d in f && d.revision.Some? && d.revision.value > c.revision.value;
      assert d in e * f;
    }
    SnapshotStable(one, two, purpose, sequence);
  }
}
