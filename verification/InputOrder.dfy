/** The order in which deliveries are handed over never matters. */
module InputOrder {
  import opened Sequences
  import opened Ordering
  import opened Ledger
  import opened Decisions

  /** The record digest determines the record. */
  ghost predicate DigestsFaithful(deliveries: seq<Attempt>) {
    forall a, b :: a in deliveries && b in deliveries && a.digest == b.digest ==> a.record == b.record
  }

  ghost predicate Rearranged(one: seq<Attempt>, two: seq<Attempt>) {
    InOrder(one) && InOrder(two) && multiset(one) == multiset(two)
  }

  lemma ByKeyIsPreorder()
    ensures TotalPreorder(ByKey())
  {
    forall x, y ensures ByKey()(x, y) || ByKey()(y, x) { TuplesFlip(SortKey(x), SortKey(y)); }
    forall x, y, z | ByKey()(x, y) && ByKey()(y, z) ensures ByKey()(x, z) {
      TuplesTransitive(SortKey(x), SortKey(y), SortKey(z));
    }
  }

  lemma SameMembers(one: seq<Attempt>, two: seq<Attempt>, a: Attempt)
    requires multiset(one) == multiset(two)
    ensures a in one <==> a in two
  {
    assert a in one <==> a in multiset(one);
    assert a in two <==> a in multiset(two);
  }

  /** Deliveries of equal rank share their record id and their digest. */
  lemma EqualRank(a: Attempt, b: Attempt)
    requires ByKey()(a, b) && ByKey()(b, a)
    ensures a.Id() == b.Id() && a.digest == b.digest
  {
    TuplesFlip(SortKey(a), SortKey(b));
    assert SortKey(a)[1] == SortKey(b)[1] && SortKey(a)[6] == SortKey(b)[6];
    Utf16KeyInjective(a.Id(), b.Id());
    Utf16KeyInjective(a.digest, b.digest);
  }

  lemma {:induction false} FilterCounts<T>(s: seq<T>, f: T -> bool, x: T)
    ensures multiset(Filter(s, f))[x] == if f(x) then multiset(s)[x] else 0
  {
    if s != [] {
      FilterCounts(s[..|s| - 1], f, x);
      assert s == s[..|s| - 1] + [s[|s| - 1]];
    }
  }

  lemma {:induction false} MultisetSize<T>(s: seq<T>)
    ensures |multiset(s)| == |s|
  { }

  lemma SameFilterBag(one: seq<Attempt>, two: seq<Attempt>, f: Attempt -> bool)
    requires multiset(one) == multiset(two)
    ensures multiset(Filter(one, f)) == multiset(Filter(two, f))
    ensures |Filter(one, f)| == |Filter(two, f)|
  {
    forall x ensures multiset(Filter(one, f))[x] == multiset(Filter(two, f))[x] {
      FilterCounts(one, f, x);
      FilterCounts(two, f, x);
    }
    MultisetSize(Filter(one, f));
    MultisetSize(Filter(two, f));
  }

  /** A part whose members are told apart by record id comes out in one order only. */
  lemma SamePart(one: seq<Attempt>, two: seq<Attempt>, f: Attempt -> bool)
    requires Rearranged(one, two)
    requires forall a, b :: a in one && b in one && f(a) && f(b) && a.Id() == b.Id() ==> a == b
    ensures Filter(one, f) == Filter(two, f)
  {
    SameFilterBag(one, two, f);
    FilterSorted(one, f, ByKey());
    FilterSorted(two, f, ByKey());
    FilterMembers(one, f);
    forall a, b | a in Filter(one, f) && b in Filter(one, f) && ByKey()(a, b) && ByKey()(b, a) ensures a == b {
      EqualRank(a, b);
    }
    SortedUnique(Filter(one, f), Filter(two, f), ByKey());
  }

  lemma {:induction false} FirstIsLeast(s: seq<Attempt>, f: Attempt -> bool, a: Attempt)
    requires InOrder(s) && a in s && f(a)
    ensures FirstOf(s, f).Some? && ByKey()(FirstOf(s, f).value, a)
  {
    var front := s[..|s| - 1];
    FrontInOrder(s);
    FirstFound(front, f);
    if a in front {
      FirstIsLeast(front, f, a);
    } else if FirstOf(front, f).Some? {
      InFrontIsLess(s, FirstOf(front, f).value);
    } else {
      ByKeyIsPreorder();
    }
  }

  lemma FrontInOrder(s: seq<Attempt>)
    requires InOrder(s) && s != []
    ensures InOrder(s[..|s| - 1]) && s == s[..|s| - 1] + [s[|s| - 1]]
  { }

  lemma InFrontIsLess(s: seq<Attempt>, a: Attempt)
    requires InOrder(s) && s != [] && a in s[..|s| - 1]
    ensures ByKey()(a, s[|s| - 1])
  {
    var i :| 0 <= i < |s| - 1 && s[i] == a;
    assert ByKey()(s[i], s[|s| - 1]);
  }

  /** The first deliveries of a scope have the same rank. */
  lemma SameFirstRank(one: seq<Attempt>, two: seq<Attempt>, a: Attempt)
    requires Rearranged(one, two) && a in one
    ensures FirstOf(one, SameScope(a)).Some? && FirstOf(two, SameScope(a)).Some?
    ensures var x, y := FirstOf(one, SameScope(a)).value, FirstOf(two, SameScope(a)).value;
            x in one && y in one && x.Id() == y.Id() && x.digest == y.digest
  {
    SameMembers(one, two, a);
    FirstIsLeast(one, SameScope(a), a);
    FirstIsLeast(two, SameScope(a), a);
    FirstFound(one, SameScope(a));
    FirstFound(two, SameScope(a));
    var x, y := FirstOf(one, SameScope(a)).value, FirstOf(two, SameScope(a)).value;
    SameMembers(one, two, x);
    SameMembers(one, two, y);
    FirstIsLeast(one, SameScope(a), y);
    FirstIsLeast(two, SameScope(a), x);
    EqualRank(x, y);
  }

  lemma SameBaseAcceptance(one: seq<Attempt>, two: seq<Attempt>, a: Attempt)
    requires Rearranged(one, two) && a in one
    ensures BaseAccepted(a, one) == BaseAccepted(a, two)
  {
    SameFilterBag(one, two, SameRecord(a));
    SameFirstRank(one, two, a);
    SameMembers(one, two, a);
    var x, y := FirstOf(one, SameScope(a)).value, FirstOf(two, SameScope(a)).value;
    SameMembers(one, two, y);
    SameMembers(one, two, x);
    if BaseAccepted(a, one) { BaseById(a, y, one); }
    if BaseAccepted(a, two) { BaseById(a, x, two); }
  }

  lemma SameBasePart(one: seq<Attempt>, two: seq<Attempt>, f: Attempt -> bool, g: Attempt -> bool)
    requires Rearranged(one, two)
    requires forall a :: a in one ==> (f(a) ==> BaseAccepted(a, one)) && f(a) == g(a)
    ensures Filter(one, f) == Filter(two, g)
  {
    forall a, b | a in one && b in one && f(a) && f(b) && a.Id() == b.Id() ensures a == b { BaseById(a, b, one); }
    SamePart(one, two, f);
    forall a | a in two ensures f(a) == g(a) { SameMembers(one, two, a); }
    FilterExt(two, f, g);
  }

  lemma SameGroups(one: seq<Attempt>, two: seq<Attempt>, a: Attempt)
    requires Rearranged(one, two)
    ensures BusinessGroup(a, one) == BusinessGroup(a, two)
  {
    forall c | c in one ensures InGroup(a, one)(c) == InGroup(a, two)(c) { SameBaseAcceptance(one, two, c); }
    SameBasePart(one, two, InGroup(a, one), InGroup(a, two));
  }

  lemma SameResolution(one: seq<Attempt>, two: seq<Attempt>, r: Attempt)
    requires Rearranged(one, two)
    ensures Resolve(r, one) == Resolve(r, two)
  {
    forall p | p in one ensures StrictTarget(r, one)(p) == StrictTarget(r, two)(p) {
      SameBaseAcceptance(one, two, p);
      SameGroups(one, two, p);
    }
    SameBasePart(one, two, StrictTarget(r, one), StrictTarget(r, two));
  }

  lemma {:induction false} SameTurns(refunds: seq<Attempt>, one: seq<Attempt>, two: seq<Attempt>)
    requires Rearranged(one, two)
    ensures Admit(refunds, one) == Admit(refunds, two)
  {
    if refunds != [] {
      SameTurns(refunds[..|refunds| - 1], one, two);
      SameResolution(one, two, refunds[|refunds| - 1]);
    }
  }

  lemma SameLog(one: seq<Attempt>, two: seq<Attempt>)
    requires Rearranged(one, two)
    ensures AdmittedLog(one) == AdmittedLog(two)
  {
    OfferedInOrder(one);
    OfferedInOrder(two);
    forall a | a in one ensures RefundCandidate(one)(a) == RefundCandidate(two)(a) { SameBaseAcceptance(one, two, a); }
    SameBasePart(one, two, RefundCandidate(one), RefundCandidate(two));
    SameTurns(Offered(one), one, two);
  }

  lemma {:induction false} IndexIsThere(s: seq<Attempt>, a: Attempt)
    requires a in s
    ensures IndexOf(s, a) < |s| && s[IndexOf(s, a)] == a
  {
    if a in s[..|s| - 1] { IndexIsThere(s[..|s| - 1], a); }
  }

  lemma EarlierIsLess(s: seq<Attempt>, a: Attempt, b: Attempt)
    requires InOrder(s) && a in s && b in s && a.Id() != b.Id()
    ensures IndexOf(s, a) < IndexOf(s, b) <==> ByKey()(a, b) && !ByKey()(b, a)
  {
    IndexIsThere(s, a);
    IndexIsThere(s, b);
    if ByKey()(a, b) && ByKey()(b, a) { EqualRank(a, b); }
  }

  lemma SameBeatenBy(one: seq<Attempt>, two: seq<Attempt>, a: Attempt)
    requires Rearranged(one, two) && a in one && a in two
    ensures WinnerOf(a, one) == WinnerOf(a, two)
    ensures BeatenBy(a, WinnerOf(a, one), one) == BeatenBy(a, WinnerOf(a, two), two)
  {
    SameLog(one, two);
    FirstFound(AdmittedLog(one), SameBusiness(a));
    if WinnerOf(a, one).Some? {
      var e := FirstOf(AdmittedLog(one), SameBusiness(a)).value;
      LogEntry(e, one);
      LogEntry(e, two);
      if e.refund.Id() == a.Id() {
        BaseById(e.refund, a, one);
      } else {
        EarlierIsLess(one, e.refund, a);
        EarlierIsLess(two, e.refund, a);
      }
    }
  }

  lemma SameDeliveryStandings(one: seq<Attempt>, two: seq<Attempt>, a: Attempt)
    requires Rearranged(one, two) && DigestsFaithful(one) && a in one && a in two
    ensures var x, y := DeliveryStanding(a, one), DeliveryStanding(a, two);
            x.duplicate == y.duplicate && x.canonical.Id() == y.canonical.Id()
    ensures DeliveryStanding(a, one).duplicate == Unique ==> DeliveryStanding(a, one) == DeliveryStanding(a, two)
  {
    SameFilterBag(one, two, SameRecord(a));
    SameFirstRank(one, two, a);
    var x, y := FirstOf(one, SameScope(a)).value, FirstOf(two, SameScope(a)).value;
    RecordCountPositive(a, one);
    if |Filter(one, SameRecord(a))| == 1 {
      if x == a { OnlyOne(one, SameRecord(a), a, y); }
      if y == a { OnlyOne(one, SameRecord(a), a, x); }
    }
  }

  lemma SameStandings(one: seq<Attempt>, two: seq<Attempt>, a: Attempt)
    requires Rearranged(one, two) && DigestsFaithful(one) && a in one && a in two
    ensures var x, y := StandingOf(a, one), StandingOf(a, two);
            x.duplicate == y.duplicate && x.canonical.Id() == y.canonical.Id()
  {
    SameDeliveryStandings(one, two, a);
    if DeliveryStanding(a, one).duplicate == Unique {
      if a.AnchoredPurchase() { SameGroups(one, two, a); } else { SameBeatenBy(one, two, a); }
    }
  }

  lemma SameHasTargets(one: seq<Attempt>, two: seq<Attempt>, a: Attempt)
    requires Rearranged(one, two)
    ensures HasTarget(a, one) == HasTarget(a, two)
  {
    SameLog(one, two);
    FirstFound(one, LegacyTarget(a));
    FirstFound(two, LegacyTarget(a));
    forall c ensures c in one <==> c in two { SameMembers(one, two, c); }
  }

  lemma VerdictById(a: Attempt, x: Standing, y: Standing, targeted: bool)
    requires x.duplicate == y.duplicate && x.canonical.Id() == y.canonical.Id()
    ensures Verdict(a, x, targeted) == Verdict(a, y, targeted)
  { }

  lemma FlattenIsInOrder(deliveries: seq<Attempt>)
    ensures InOrder(Flatten(deliveries)) && multiset(Flatten(deliveries)) == multiset(deliveries)
  {
    ByKeyIsPreorder();
    SortSorts(deliveries, ByKey());
    SortElements(deliveries, ByKey());
  }

  /** What the deliveries are sorted by, in turn: receipt, record, delivery, tenant, app, schema, digest. */
  function SortTexts(a: Attempt): seq<string> {
    [a.record.receivedAt, a.record.recordId, a.record.deliveryId, a.server.tenantId, a.server.appId,
     a.record.schemaVersion, a.digest]
  }

  lemma ByTexts(a: Attempt, b: Attempt)
    ensures ByKey()(a, b) <==> TextsInOrder(SortTexts(a), SortTexts(b))
  {
    assert SortKey(a) == KeysOf(SortTexts(a)) && SortKey(b) == KeysOf(SortTexts(b));
    KeysMeaning(SortTexts(a), SortTexts(b));
  }

  /** The order of the flattened deliveries: of two, the first text in which they differ is before. */
  lemma FlattenOrder(deliveries: seq<Attempt>, i: nat, j: nat)
    requires i < j < |Flatten(deliveries)|
    ensures TextsInOrder(SortTexts(Flatten(deliveries)[i]), SortTexts(Flatten(deliveries)[j]))
  {
    FlattenIsInOrder(deliveries);
    ByTexts(Flatten(deliveries)[i], Flatten(deliveries)[j]);
  }

  /** Input-order independence: any rearrangement of the deliveries, colliding ones included, gives
      every delivery the same decision and the run the same admissions. */
  lemma InputOrderIsImmaterial(one: seq<Attempt>, two: seq<Attempt>)
    requires multiset(one) == multiset(two) && DigestsFaithful(one)
    ensures AdmittedLog(Flatten(one)) == AdmittedLog(Flatten(two))
    ensures forall a :: a in one ==> (a in Flatten(one) && a in Flatten(two)
                                      && Decide(a, Flatten(one)) == Decide(a, Flatten(two)))
  {
    FlattenIsInOrder(one);
    FlattenIsInOrder(two);
    var f, g := Flatten(one), Flatten(two);
    SameLog(f, g);
    forall a ensures (a in f <==> a in one) && (a in g <==> a in one) {
      SameMembers(f, one, a);
      SameMembers(g, one, a);
    }
    forall a | a in one ensures Decide(a, f) == Decide(a, g) {
      SameStandings(f, g, a);
      SameHasTargets(f, g, a);
      VerdictById(a, StandingOf(a, f), StandingOf(a, g), HasTarget(a, f));
    }
  }
}
