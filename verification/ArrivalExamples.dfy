/** Concrete deliveries whose decisions a later arrival rewrites. */
module ArrivalExamples {
  import opened Sequences
  import opened Ordering
  import opened Timestamps
  import opened Money
  import opened Ledger
  import opened Decisions
  import opened Arrivals

  function Delivered(recordId: string, receivedAt: string, occurredAt: string, event: EventName, payload: Payload,
                     digest: string, consent: ConsentOutcome): Attempt
  {
    Attempt(
      Server("t", "a", "p", None, {}),
      Record(recordId, "d", recordId, "sdk", "t", "a", "v", receivedAt, occurredAt, event, false, payload, ""),
      "b", digest, consent)
  }

  function Sale(recordId: string, receivedAt: string, digest: string, consent: ConsentOutcome): Attempt {
    var payload := Payload(Some("i"), "x", None, None, None, Settled, Amount(100, 2, "USD"), "");
    Delivered(recordId, receivedAt, receivedAt, Purchase, payload, digest, consent)
  }

  /** A refund without an installation that names the record it corrects. */
  function Correction(recordId: string, receivedAt: string, digest: string, target: string): Attempt {
    var payload := Payload(None, "y", None, Some(target), None, Settled, Amount(100, 2, "USD"), "");
    Delivered(recordId, receivedAt, receivedAt, Refund, payload, digest, Allowed)
  }

  lemma {:induction false} TwoDigits(s: string)
    requires |s| == 2
    ensures Number(s) == 10 * (s[0] as int - '0' as int) + (s[1] as int - '0' as int)
  {
    assert Number(s[..1]) == 10 * Number(s[..1][..0]) + (s[0] as int - '0' as int);
  }

  lemma {:induction false} ThreeDigits(s: string)
    requires |s| == 3
    ensures Number(s) == 100 * (s[0] as int - '0' as int) + 10 * (s[1] as int - '0' as int) + (s[2] as int - '0' as int)
  {
    TwoDigits(s[..2]);
  }

  lemma {:induction false} FourDigits(s: string)
    requires |s| == 4
    ensures Number(s) == 1000 * (s[0] as int - '0' as int) + 100 * (s[1] as int - '0' as int)
                         + 10 * (s[2] as int - '0' as int) + (s[3] as int - '0' as int)
  {
    ThreeDigits(s[..3]);
  }

  /** Midnight UTC of 2026-01-0x, character by character. */
  predicate JanuaryText(s: string, digit: char) {
    && |s| == 24
    && s[0] == '2' && s[1] == '0' && s[2] == '2' && s[3] == '6' && s[4] == '-'
    && s[5] == '0' && s[6] == '1' && s[7] == '-' && s[8] == '0' && s[9] == digit && s[10] == 'T'
    && s[11] == '0' && s[12] == '0' && s[13] == ':' && s[14] == '0' && s[15] == '0' && s[16] == ':'
    && s[17] == '0' && s[18] == '0' && s[19] == '.' && s[20] == '0' && s[21] == '0' && s[22] == '0' && s[23] == 'Z'
  }

  lemma JanuaryFields(s: string, digit: char)
    requires JanuaryText(s, digit) && '1' <= digit <= '9'
    ensures FieldsOf(s) == Fields(2026, 1, digit as int - '0' as int, 0, 0, 0, 0)
  {
    FourDigits(s[0..4]); TwoDigits(s[5..7]); TwoDigits(s[8..10]);
    TwoDigits(s[11..13]); TwoDigits(s[14..16]); TwoDigits(s[17..19]); ThreeDigits(s[20..23]);
  }

  lemma JanuaryMatches(s: string, digit: char)
    requires JanuaryText(s, digit) && '1' <= digit <= '9'
    ensures Matches(s)
  { }

  lemma January(s: string, digit: char)
    requires JanuaryText(s, digit) && '1' <= digit <= '9'
    ensures Parse(s).Some?
  {
    JanuaryFields(s, digit);
    JanuaryMatches(s, digit);
    JanuaryDay(FieldsOf(s));
  }

  lemma JanuaryDay(f: Fields)
    requires f == Fields(2026, 1, f.day, 0, 0, 0, 0) && 1 <= f.day <= 9
    ensures f.Valid()
  { }

  lemma SameStart(monday: string, tuesday: string)
    requires JanuaryText(monday, '5') && JanuaryText(tuesday, '6')
    ensures monday[..9] == tuesday[..9]
  { }

  lemma JanuaryOrder(monday: string, tuesday: string)
    requires JanuaryText(monday, '5') && JanuaryText(tuesday, '6')
    ensures Valid(monday) && Valid(tuesday) && Compare(Utf16Key(monday), Utf16Key(tuesday)) < 0
  {
    January(monday, '5');
    January(tuesday, '6');
    SameStart(monday, tuesday);
    ParsedSmaller(monday, tuesday, 9);
    StringOrderIsTimeOrder(monday, tuesday);
  }

  /** A purchase refused for withdrawn consent stands alone; a consented delivery of the same
      transaction arrives the next day; the refused one is now recorded as its duplicate. */
  lemma RefusedPurchaseIsRewritten(monday: string, tuesday: string, x: string, y: string)
    requires JanuaryText(monday, '5') && JanuaryText(tuesday, '6')
    ensures var a, q := Sale("r1", monday, x, Withdrawn), Sale("r2", tuesday, y, Allowed);
      && ArrivesAfter([a], [q])
      && Decide(a, [a]) == Decision(false, Unique, Some(ConsentWithdrawn), Some("r1"))
      && Decide(a, [a] + [q]) == Decision(false, DuplicateDelivery, Some(ConsentWithdrawn), Some("r2"))
  {
    var a, q := Sale("r1", monday, x, Withdrawn), Sale("r2", tuesday, y, Allowed);
    JanuaryOrder(monday, tuesday);
    assert "r1"[1] == '1' && "r2"[1] == '2';
    OneOrder(a, q);
    Standings(a, q);
    WithdrawnVerdict(a, Standing(Unique, a), HasTarget(a, [a]));
    WithdrawnVerdict(a, Standing(DuplicateDelivery, q), HasTarget(a, [a] + [q]));
  }

  /** A refund without an installation is refused while the purchase it names is unknown; the
      purchase arrives the next day; the refund is now accepted, and a fact. */
  lemma EarlyCorrectionIsCompleted(monday: string, tuesday: string, x: string, y: string)
    requires JanuaryText(monday, '5') && JanuaryText(tuesday, '6')
    ensures var a, q := Correction("r1", monday, x, "r2"), Sale("r2", tuesday, y, Allowed);
      && ArrivesAfter([a], [q])
      && Decide(a, [a]) == Decision(false, Unique, Some(RefundTargetInvalid), Some("r1"))
      && Decide(a, [a] + [q]) == Decision(true, Unique, None, Some("r1"))
  {
    var a, q := Correction("r1", monday, x, "r2"), Sale("r2", tuesday, y, Allowed);
    JanuaryOrder(monday, tuesday);
    assert "r1"[1] == '1' && "r2"[1] == '2';
    OneOrder(a, q);
    CorrectionStandings(a, q);
    CorrectionTargets(a, q);
    CorrectionVerdict(a, Standing(Unique, a));
  }

  lemma CorrectionStandings(a: Attempt, q: Attempt)
    requires a.LegacyRefund() && a.Id() != q.Id() && a.record.eventId != q.record.eventId
    ensures StandingOf(a, [a]) == StandingOf(a, [a] + [q]) == Standing(Unique, a)
  {
    FilterOne(a, SameRecord(a)); FilterOne(a, SameScope(a));
    FilterPair(a, q, SameRecord(a)); FilterPair(a, q, SameScope(a));
  }

  lemma CorrectionTargets(a: Attempt, q: Attempt)
    requires a.LegacyRefund() && a.Id() != q.Id() && a.SameTenant(q) && a.Body().correctionTarget == Some(q.Id())
    ensures !HasTarget(a, [a]) && HasTarget(a, [a] + [q])
  {
    FilterOne(a, LegacyTarget(a));
    FilterPair(a, q, LegacyTarget(a));
  }

  lemma CorrectionVerdict(a: Attempt, standing: Standing)
    requires a.record.event.Refund? && Eligible(a) && standing == Standing(Unique, a)
    ensures Verdict(a, standing, false) == Decision(false, Unique, Some(RefundTargetInvalid), Some(a.Id()))
    ensures Verdict(a, standing, true) == Decision(true, Unique, None, Some(a.Id()))
  { }

  lemma WithdrawnVerdict(a: Attempt, standing: Standing, targeted: bool)
    requires a.consent == Withdrawn && a.OwnScope() && Valid(a.record.receivedAt) && Valid(a.record.occurredAt)
    requires standing == Standing(Unique, a) || standing.duplicate == DuplicateDelivery
    ensures Verdict(a, standing, targeted)
         == Decision(false, standing.duplicate, Some(ConsentWithdrawn), Some(standing.canonical.Id()))
  { }

  lemma OneOrder(a: Attempt, q: Attempt)
    requires Compare(Utf16Key(a.record.receivedAt), Utf16Key(q.record.receivedAt)) < 0 && a.Id() != q.Id()
    ensures ArrivesAfter([a], [q])
  { }

  lemma Standings(a: Attempt, q: Attempt)
    requires a.AnchoredPurchase() && q.AnchoredPurchase() && KeyOfBusiness(a) == KeyOfBusiness(q)
    requires a.Id() != q.Id() && a.record.eventId != q.record.eventId && a.Body() == q.Body()
    requires !Eligible(a) && Eligible(q)
    ensures StandingOf(a, [a]) == Standing(Unique, a)
    ensures StandingOf(a, [a] + [q]) == Standing(DuplicateDelivery, q)
  {
    FilterOne(a, SameRecord(a)); FilterOne(a, SameScope(a));
    FilterPair(a, q, SameRecord(a)); FilterPair(a, q, SameScope(a));
    LaterIsBase(a, q);
    Groups(a, q);
  }

  lemma LaterIsBase(a: Attempt, q: Attempt)
    requires a.Id() != q.Id() && a.record.eventId != q.record.eventId && Eligible(q)
    ensures BaseAccepted(q, [a] + [q])
  {
    FilterPair(a, q, SameRecord(q)); FilterPair(a, q, SameScope(q));
  }

  lemma Groups(a: Attempt, q: Attempt)
    requires a.AnchoredPurchase() && q.AnchoredPurchase() && KeyOfBusiness(a) == KeyOfBusiness(q)
    requires !Eligible(a) && BaseAccepted(q, [a] + [q])
    ensures BusinessGroup(a, [a]) == [] && BusinessGroup(a, [a] + [q]) == [q]
  {
    FilterOne(a, InGroup(a, [a]));
    FilterPair(a, q, InGroup(a, [a] + [q]));
  }
}
