/** Engagement credit: each outcome belongs to at most one open, the latest one before it, chosen
    before any date, campaign, inactivity or privacy filter is applied. */
module Engagement {
  import opened Sequences
  import opened Ordering
  import opened Timestamps

  datatype Scope = Scope(tenantId: string, appId: string, installationId: Option<string>)

  /** at is the instant of occurrence; at / DAY_MS is the UTC day of the ten-character prefix. */
  datatype Open = Open(scope: Scope, recordId: string, at: int, campaign: string)

  datatype EventKind = SessionStart | CustomEvent | DeepLinkOpen | Install | OtherKind

  /** A visible or included delivery, with the parts the metric reads. */
  datatype Item = Item(scope: Scope, recordId: string, at: int, kind: EventKind, sdk: bool, counts: bool,
                       converted: nat)

  /** One evaluation: the anchor day, an optional campaign, and which records are still available. */
  datatype View = View(day: int, campaign: Option<string>, available: (Scope, string) -> bool)

  /** The outcome window, and the opens that qualify for credit. */
  datatype Rule = Rule(window: int, eligible: Open -> bool)

  // ----- The winning open

  function ByRecord(): (Open, Open) -> bool {
    (a: Open, b: Open) => Compare(Utf16Key(a.recordId), Utf16Key(b.recordId)) <= 0
  }

  function LatestFirst(): (Open, Open) -> bool { (a: Open, b: Open) => a.at >= b.at }

  function Ordered(opens: seq<Open>): seq<Open> { SortBy(SortBy(opens, ByRecord()), LatestFirst()) }

  function Precedes(item: Item): Open -> bool { (o: Open) => o.scope == item.scope && o.at <= item.at }

  function Winner(opens: seq<Open>, item: Item): Option<Open> { FirstOf(Ordered(opens), Precedes(item)) }

  /** a is preferred to b: later, or equally late with a smaller record id. */
  predicate Preferred(a: Open, b: Open) {
    a.at > b.at || (a.at == b.at && Compare(Utf16Key(a.recordId), Utf16Key(b.recordId)) <= 0)
  }

  function Preference(): (Open, Open) -> bool { (a: Open, b: Open) => Preferred(a, b) }

  lemma RecordPreorder()
    ensures TotalPreorder(ByRecord()) && TotalPreorder(LatestFirst())
  {
    forall x, y
      ensures ByRecord()(x, y) || ByRecord()(y, x)
    {
      CompareFlips(Utf16Key(x.recordId), Utf16Key(y.recordId));
    }
    forall x, y, z | ByRecord()(x, y) && ByRecord()(y, z) ensures ByRecord()(x, z) {
      CompareTransitive(Utf16Key(x.recordId), Utf16Key(y.recordId), Utf16Key(z.recordId));
    }
  }

  /** The two stable sorts together order by preference. */
  lemma OrderedByPreference(opens: seq<Open>)
    ensures SortedBy(Ordered(opens), Preference())
    ensures forall o :: o in Ordered(opens) <==> o in opens
  {
    var byRecord := SortBy(opens, ByRecord());
    RecordPreorder();
    SortSorts(opens, ByRecord());
    SortIsStable(byRecord, LatestFirst(), ByRecord());
    SortElements(opens, ByRecord());
    SortElements(byRecord, LatestFirst());
    var s := Ordered(opens);
    assert SortedBy(s, (x, y) => LatestFirst()(x, y) && (LatestFirst()(y, x) ==> ByRecord()(x, y)));
  }

  lemma {:induction false} FirstPreferred(s: seq<Open>, f: Open -> bool, o: Open)
    requires SortedBy(s, Preference()) && o in s && f(o)
    ensures FirstOf(s, f).Some? && Preferred(FirstOf(s, f).value, o)
  {
    var front, last := s[..|s| - 1], s[|s| - 1];
    assert s == front + [last];
    CompareFlips(Utf16Key(o.recordId), Utf16Key(o.recordId));
    FirstFound(front, f);
    if o in front {
      FirstPreferred(front, f, o);
    } else if FirstOf(front, f).Some? {
      var i :| 0 <= i < |front| && front[i] == FirstOf(front, f).value;
      assert Preference()(s[i], s[|s| - 1]);
    }
  }

  /** The winner is the latest open of the item's installation at or before it, the smallest record
      id among equally late ones; there is one whenever any such open exists. */
  lemma WinnerIsLatest(opens: seq<Open>, item: Item)
    ensures Winner(opens, item).Some? <==> exists o :: o in opens && Precedes(item)(o)
    ensures Winner(opens, item).Some? ==>
              Winner(opens, item).value in opens && Precedes(item)(Winner(opens, item).value)
    ensures forall o :: o in opens && Precedes(item)(o) ==>
              Winner(opens, item).Some? && Preferred(Winner(opens, item).value, o)
  {
    OrderedByPreference(opens);
    FirstFound(Ordered(opens), Precedes(item));
    forall o | o in opens && Precedes(item)(o)
      ensures Winner(opens, item).Some? && Preferred(Winner(opens, item).value, o)
    {
      FirstPreferred(Ordered(opens), Precedes(item), o);
    }
  }

  // ----- Credit

  predicate Selected(view: View, o: Open) {
    view.available(o.scope, o.recordId) && o.at / DAY_MS == view.day
    && (view.campaign.None? || view.campaign.value == o.campaign)
  }

  predicate IsCredited(rule: Rule, view: View, opens: seq<Open>, item: Item) {
    var anchor := Winner(opens, item);
    item.counts && anchor.Some? && item.at < anchor.value.at + rule.window
    && Selected(view, anchor.value) && rule.eligible(anchor.value)
  }

  function Credited(rule: Rule, view: View, opens: seq<Open>): Item -> bool {
    (item: Item) => IsCredited(rule, view, opens, item)
  }

  function Money(): Item -> int { (item: Item) => item.converted }

  function Revenue(rule: Rule, view: View, opens: seq<Open>, visible: seq<Item>): int {
    Sum(Filter(visible, Credited(rule, view, opens)), Money())
  }

  function ScopesOf(items: seq<Item>, credited: Item -> bool): set<Scope> {
    set item | item in items && credited(item) :: item.scope
  }

  function Converters(rule: Rule, view: View, opens: seq<Open>, visible: seq<Item>): set<Scope> {
    ScopesOf(visible, Credited(rule, view, opens))
  }

  predicate AnySelected(view: View, opens: seq<Open>) { exists o :: o in opens && Selected(view, o) }

  const DAY_RULE := Rule(DAY_MS, (o: Open) => true)

  /** Distinct converted installations, or the accumulated converted revenue. */
  function Outcome(rule: Rule, view: View, opens: seq<Open>, visible: seq<Item>, count: bool): int {
    if count then |Converters(rule, view, opens, visible)| else Revenue(rule, view, opens, visible)
  }

  function DayValue(opens: seq<Open>, visible: seq<Item>, view: View, count: bool): Option<int> {
    if AnySelected(view, opens) then Some(Outcome(DAY_RULE, view, opens, visible, count)) else None
  }

  /** `engagement_value`: undefined without a selected open, else the outcomes credited within one day. */
  method EngagementValue(opens: seq<Open>, visible: seq<Item>, view: View, count: bool) returns (value: Option<int>)
    ensures value == DayValue(opens, visible, view, count)
  {
    if !AnySelected(view, opens) { return None; }
    var total, converted := Accumulate(visible, Credited(DAY_RULE, view, opens));
    value := Some(if count then |converted| else total);
  }

  lemma OneMoreScope(seen: seq<Item>, item: Item, credited: Item -> bool)
    ensures ScopesOf(seen + [item], credited)
         == ScopesOf(seen, credited) + (if credited(item) then {item.scope} else {})
  {
    forall x ensures x in seen + [item] <==> x in seen || x == item { }
  }

  /** One pass over the outcomes: revenue and converted scopes of the credited ones. */
  method Accumulate(visible: seq<Item>, credited: Item -> bool) returns (revenue: int, converted: set<Scope>)
    ensures revenue == Sum(Filter(visible, credited), Money())
    ensures converted == ScopesOf(visible, credited)
  {
    revenue, converted := 0, {};
    for i := 0 to |visible|
      invariant revenue == Sum(Filter(visible[..i], credited), Money())
      invariant converted == ScopesOf(visible[..i], credited)
    {
      assert visible[..i + 1] == visible[..i] + [visible[i]];
      SumOneMore(visible[..i], visible[i], credited, Money());
      OneMoreScope(visible[..i], visible[i], credited);
      if credited(visible[i]) {
        converted := converted + {visible[i].scope};
        revenue := revenue + visible[i].converted;
      }
    }
    assert visible[..|visible|] == visible;
  }

  // ----- Conservation over campaigns

  function ForCampaign(view: View, campaign: string): View { view.(campaign := Some(campaign)) }

  function CampaignOf(opens: seq<Open>): Item -> Option<string> {
    (item: Item) => var o := Winner(opens, item); if o.Some? then Some(o.value.campaign) else None
  }

  function CampaignRevenue(rule: Rule, view: View, opens: seq<Open>, visible: seq<Item>): string -> int {
    (c: string) => Revenue(rule, ForCampaign(view, c), opens, visible)
  }

  function Labels(campaigns: seq<string>): seq<Option<string>> {
    seq(|campaigns|, i requires 0 <= i < |campaigns| => Some(campaigns[i]))
  }

  lemma {:induction false} SumLabels(campaigns: seq<string>, g: string -> int, h: Option<string> -> int)
    requires forall c :: c in campaigns ==> h(Some(c)) == g(c)
    ensures Sum(Labels(campaigns), h) == Sum(campaigns, g)
  {
    if campaigns != [] {
      SumLabels(campaigns[..|campaigns| - 1], g, h);
      assert Labels(campaigns)[..|campaigns| - 1] == Labels(campaigns[..|campaigns| - 1]);
    }
  }

  lemma CampaignPart(rule: Rule, view: View, opens: seq<Open>, visible: seq<Item>, campaign: string)
    requires view.campaign.None?
    ensures Filter(visible, Credited(rule, ForCampaign(view, campaign), opens))
         == Filter(Filter(visible, Credited(rule, view, opens)), OfClass(CampaignOf(opens), Some(campaign)))
  { }

  /** Conservation: for a fixed day, revenue summed over any distinct campaigns that cover the opens
      is the ungrouped revenue; a campaign without a selected open contributes nothing. */
  lemma RevenueConserved(rule: Rule, view: View, opens: seq<Open>, visible: seq<Item>, campaigns: seq<string>)
    requires view.campaign.None? && Distinct(campaigns)
    requires forall o :: o in opens ==> o.campaign in campaigns
    ensures Sum(campaigns, CampaignRevenue(rule, view, opens, visible)) == Revenue(rule, view, opens, visible)
    ensures forall v: View :: !AnySelected(v, opens) ==> Revenue(rule, v, opens, visible) == 0
  {
    var credited, kind := Filter(visible, Credited(rule, view, opens)), CampaignOf(opens);
    FilterMembers(visible, Credited(rule, view, opens));
    forall item | item in credited ensures kind(item) in Labels(campaigns) {
      WinnerIsLatest(opens, item);
      var c := Winner(opens, item).value.campaign;
      var i :| 0 <= i < |campaigns| && campaigns[i] == c;
      assert Labels(campaigns)[i] == Some(c);
    }
    SumByClass(credited, Labels(campaigns), kind, Money());
    forall c ensures ClassSum(credited, kind, Money())(Some(c)) == CampaignRevenue(rule, view, opens, visible)(c) {
      CampaignPart(rule, view, opens, visible, c);
    }
    SumLabels(campaigns, CampaignRevenue(rule, view, opens, visible), ClassSum(credited, kind, Money()));
    forall v: View | !AnySelected(v, opens) ensures Revenue(rule, v, opens, visible) == 0 {
      forall item ensures !Credited(rule, v, opens)(item) { WinnerIsLatest(opens, item); }
      FilterNone(visible, Credited(rule, v, opens));
    }
  }

  function ConverterCount(rule: Rule, view: View, opens: seq<Open>, visible: seq<Item>): string -> int {
    (c: string) => |Converters(rule, ForCampaign(view, c), opens, visible)|
  }

  lemma SubsetSize<T>(a: set<T>, b: set<T>)
    requires a <= b
    ensures |a| <= |b|
  {
    assert |b| == |a| + |b - a| by { assert b == a + (b - a); }
  }

  lemma UnionSize<T>(a: set<T>, b: set<T>)
    ensures |a + b| <= |a| + |b|
  { }

  ghost function CoveredBy(rule: Rule, view: View, opens: seq<Open>, visible: seq<Item>,
                           campaigns: seq<string>): set<Scope> {
    set item | item in visible && IsCredited(rule, view, opens, item) && Winner(opens, item).value.campaign in campaigns
      :: item.scope
  }

  lemma {:induction false} CoveredSize(rule: Rule, view: View, opens: seq<Open>, visible: seq<Item>,
                                       campaigns: seq<string>)
    requires view.campaign.None?
    ensures |CoveredBy(rule, view, opens, visible, campaigns)|
         <= Sum(campaigns, ConverterCount(rule, view, opens, visible))
  {
    if campaigns == [] {
      assert CoveredBy(rule, view, opens, visible, campaigns) == {};
    } else {
      var front, last := campaigns[..|campaigns| - 1], campaigns[|campaigns| - 1];
      assert campaigns == front + [last];
      CoveredSize(rule, view, opens, visible, front);
      var a, b := CoveredBy(rule, view, opens, visible, front),
               Converters(rule, ForCampaign(view, last), opens, visible);
      assert CoveredBy(rule, view, opens, visible, campaigns) <= a + b;
      SubsetSize(CoveredBy(rule, view, opens, visible, campaigns), a + b);
      UnionSize(a, b);
    }
  }

  /** Distinct converters are only sub-additive: no campaign exceeds the total, and the total does
      not exceed the sum. */
  lemma ConvertersSubadditive(rule: Rule, view: View, opens: seq<Open>, visible: seq<Item>, campaigns: seq<string>)
    requires view.campaign.None? && forall o :: o in opens ==> o.campaign in campaigns
    ensures |Converters(rule, view, opens, visible)| <= Sum(campaigns, ConverterCount(rule, view, opens, visible))
    ensures forall c :: ConverterCount(rule, view, opens, visible)(c) <= |Converters(rule, view, opens, visible)|
  {
    CoveredSize(rule, view, opens, visible, campaigns);
    forall item
      ensures Winner(opens, item).Some? ==> Winner(opens, item).value.campaign in campaigns
    {
      WinnerIsLatest(opens, item);
    }
    assert Converters(rule, view, opens, visible) == CoveredBy(rule, view, opens, visible, campaigns);
    forall c ensures ConverterCount(rule, view, opens, visible)(c) <= |Converters(rule, view, opens, visible)| {
      SubsetSize(Converters(rule, ForCampaign(view, c), opens, visible), Converters(rule, view, opens, visible));
    }
  }

  // ----- Redaction

  ghost predicate RedactsMore(view: View, later: View) {
    later.day == view.day && later.campaign == view.campaign
    && forall scope, id :: later.available(scope, id) ==> view.available(scope, id)
  }

  /** Redaction never moves credit: an outcome credited after further redaction was credited to the
      same open before; so no group's revenue rises, whatever opens or outcomes are removed. */
  lemma RedactionNeverRaises(rule: Rule, later: Rule, view: View, redacted: View, opens: seq<Open>, visible: seq<Item>,
                             keep: Item -> bool)
    requires RedactsMore(view, redacted)
    requires later.window == rule.window && forall o :: later.eligible(o) ==> rule.eligible(o)
    ensures forall item :: IsCredited(later, redacted, opens, item) ==> IsCredited(rule, view, opens, item)
    ensures Revenue(later, redacted, opens, Filter(visible, keep)) <= Revenue(rule, view, opens, visible)
    ensures Converters(later, redacted, opens, Filter(visible, keep)) <= Converters(rule, view, opens, visible)
  {
    var f, g := Credited(later, redacted, opens), Credited(rule, view, opens);
    var both := (item: Item) => keep(item) && f(item);
    var again := (item: Item) => g(item) && both(item);
    FilterFilter(visible, keep, f, both);
    FilterExt(visible, both, again);
    FilterFilter(visible, g, both, again);
    SumFilterAtMost(Filter(visible, g), both, Money());
    FilterMembers(visible, keep);
  }

  // ----- The inactivity policy

  datatype OpenState = EligibleOpen | ActiveOpen | UnknownOpen

  predicate InHistory(o: Open, item: Item) { item.scope == o.scope && item.sdk && item.at < o.at }

  predicate IsActivity(o: Open, days: nat, item: Item) {
    InHistory(o, item) && item.at >= o.at - days * DAY_MS
    && (item.kind.SessionStart? || item.kind.CustomEvent? || item.kind.DeepLinkOpen?)
  }

  predicate IsPriorInstall(o: Open, days: nat, item: Item) {
    InHistory(o, item) && item.kind.Install? && item.at <= o.at - days * DAY_MS
  }

  predicate Available(view: View, item: Item) { view.available(item.scope, item.recordId) }

  function StateOf(o: Open, included: seq<Item>, days: nat, view: View): OpenState {
    if days == 0 then EligibleOpen
    else if exists item :: item in included && IsActivity(o, days, item) && Available(view, item) then ActiveOpen
    else if (exists item :: item in included && IsActivity(o, days, item) && !Available(view, item))
         || !exists item :: item in included && IsPriorInstall(o, days, item) && Available(view, item)
    then UnknownOpen
    else EligibleOpen
  }

  /** Further redaction never makes an open eligible, and never resolves an unknown one. */
  lemma StateOnlyDegrades(o: Open, included: seq<Item>, days: nat, view: View, redacted: View)
    requires RedactsMore(view, redacted)
    ensures StateOf(o, included, days, redacted).EligibleOpen? ==> StateOf(o, included, days, view).EligibleOpen?
    ensures StateOf(o, included, days, view).UnknownOpen? ==> StateOf(o, included, days, redacted).UnknownOpen?
    ensures StateOf(o, included, days, redacted).ActiveOpen? ==> StateOf(o, included, days, view).ActiveOpen?
  { }

  datatype PolicyResult = Value(value: int) | InsufficientHistory | EmptyCohort

  function PolicyRule(window: int, included: seq<Item>, days: nat, view: View): Rule {
    Rule(window, (o: Open) => StateOf(o, included, days, view).EligibleOpen?)
  }

  predicate SomeUnknown(opens: seq<Open>, included: seq<Item>, days: nat, view: View) {
    exists o :: o in opens && Selected(view, o) && StateOf(o, included, days, view).UnknownOpen?
  }

  predicate SomeEligible(opens: seq<Open>, included: seq<Item>, days: nat, view: View) {
    exists o :: o in opens && Selected(view, o) && StateOf(o, included, days, view).EligibleOpen?
  }

  /** Whether the policy can tell the state of every selected open, and whether one is eligible. */
  method PolicyPopulation(opens: seq<Open>, included: seq<Item>, view: View, days: nat)
    returns (unknown: bool, eligible: bool)
    ensures unknown == SomeUnknown(opens, included, days, view)
    ensures eligible == SomeEligible(opens, included, days, view)
  {
    unknown, eligible := false, false;
    for i := 0 to |opens|
      invariant unknown == SomeUnknown(opens[..i], included, days, view)
      invariant eligible == SomeEligible(opens[..i], included, days, view)
    {
      assert opens[..i + 1] == opens[..i] + [opens[i]];
      OneMoreOpen(opens[..i], opens[i], included, days, view);
      var state := StateOf(opens[i], included, days, view);
      if Selected(view, opens[i]) {
        unknown, eligible := unknown || state.UnknownOpen?, eligible || state.EligibleOpen?;
      }
    }
    assert opens[..|opens|] == opens;
  }

  lemma OneMoreOpen(opens: seq<Open>, o: Open, included: seq<Item>, days: nat, view: View)
    ensures var state := StateOf(o, included, days, view);
      && SomeUnknown(opens + [o], included, days, view)
           == (SomeUnknown(opens, included, days, view) || (Selected(view, o) && state.UnknownOpen?))
      && SomeEligible(opens + [o], included, days, view)
           == (SomeEligible(opens, included, days, view) || (Selected(view, o) && state.EligibleOpen?))
  {
    forall x ensures x in opens + [o] <==> x in opens || x == o { }
  }

  function PolicyValue(opens: seq<Open>, included: seq<Item>, visible: seq<Item>, view: View,
                       window: int, days: nat, count: bool): PolicyResult {
    if SomeUnknown(opens, included, days, view) then InsufficientHistory
    else if !SomeEligible(opens, included, days, view) then EmptyCohort
    else Value(Outcome(PolicyRule(window, included, days, view), view, opens, visible, count))
  }

  /** `engagement_policy_value` for ad revenue and conversions. */
  method EngagementPolicyValue(opens: seq<Open>, included: seq<Item>, visible: seq<Item>, view: View,
                               window: int, days: nat, count: bool) returns (result: PolicyResult)
    ensures result == PolicyValue(opens, included, visible, view, window, days, count)
  {
    var unknown, eligible := PolicyPopulation(opens, included, view, days);
    if unknown { return InsufficientHistory; }
    if !eligible { return EmptyCohort; }
    var total, converted := Accumulate(visible, Credited(PolicyRule(window, included, days, view), view, opens));
    result := Value(if count then |converted| else total);
  }

  /** Under the policy, a defined value never rises with further redaction; and an undefined one
      becomes defined only if every open that made it so has itself been removed. */
  lemma PolicyRedaction(opens: seq<Open>, included: seq<Item>, visible: seq<Item>, view: View, redacted: View,
                        window: int, days: nat, keep: Item -> bool)
    requires RedactsMore(view, redacted)
    ensures Revenue(PolicyRule(window, included, days, redacted), redacted, opens, Filter(visible, keep))
         <= Revenue(PolicyRule(window, included, days, view), view, opens, visible)
    ensures !SomeUnknown(opens, included, days, redacted) ==>
              forall o :: o in opens && Selected(view, o) && StateOf(o, included, days, view).UnknownOpen?
                          ==> !redacted.available(o.scope, o.recordId)
    ensures SomeEligible(opens, included, days, redacted) ==> SomeEligible(opens, included, days, view)
  {
    forall o
      ensures StateOf(o, included, days, redacted).EligibleOpen? ==> StateOf(o, included, days, view).EligibleOpen?
      ensures StateOf(o, included, days, view).UnknownOpen? ==> StateOf(o, included, days, redacted).UnknownOpen?
    {
      StateOnlyDegrades(o, included, days, view, redacted);
    }
    RedactionNeverRaises(PolicyRule(window, included, days, view), PolicyRule(window, included, days, redacted),
                         view, redacted, opens, visible, keep);
  }
}
