/** Engagement credit and the inactivity policy, stated on the fields of the opens and of the outcomes. */
module EngagementRules {
  import opened Sequences
  import opened Ordering
  import opened Timestamps
  import E = Engagement

  // ----- The state of an open

  ghost predicate SameInstallation(o: E.Open, item: E.Item) {
    o.scope.tenantId == item.scope.tenantId && o.scope.appId == item.scope.appId
    && o.scope.installationId == item.scope.installationId
  }

  /** An SDK delivery shows the installation in use within the days before the open. */
  ghost predicate InUse(o: E.Open, days: nat, item: E.Item) {
    SameInstallation(o, item) && item.sdk && item.kind in {E.SessionStart, E.CustomEvent, E.DeepLinkOpen}
    && o.at - days * 86_400_000 <= item.at < o.at
  }

  /** An SDK install that is at least that many days older than the open. */
  ghost predicate InstalledLongAgo(o: E.Open, days: nat, item: E.Item) {
    SameInstallation(o, item) && item.sdk && item.kind == E.Install
    && item.at <= o.at - days * 86_400_000 && item.at < o.at
  }

  ghost predicate Remains(view: E.View, item: E.Item) { view.available(item.scope, item.recordId) }

  /** With an inactivity period, an open is active exactly if a record of use in that period remains. It is
      eligible exactly if there never was one, remaining or not, and the record of an older install
      remains; and otherwise it is unknown. */
  lemma StateFollowsRules(o: E.Open, included: seq<E.Item>, days: nat, view: E.View)
    ensures var state := E.StateOf(o, included, days, view);
      && (state == E.ActiveOpen <==>
            days > 0 && exists item :: item in included && InUse(o, days, item) && Remains(view, item))
      && (state == E.EligibleOpen <==>
            days == 0
            || ((forall item :: item in included ==> !InUse(o, days, item))
                && exists item :: item in included && InstalledLongAgo(o, days, item) && Remains(view, item)))
      && (state == E.UnknownOpen <==>
            days > 0
            && (forall item :: item in included && InUse(o, days, item) ==> !Remains(view, item))
            && ((exists item :: item in included && InUse(o, days, item))
                || forall item :: item in included && InstalledLongAgo(o, days, item) ==> !Remains(view, item)))
  {
    forall item
      ensures E.IsActivity(o, days, item) <==> InUse(o, days, item)
      ensures E.IsPriorInstall(o, days, item) <==> InstalledLongAgo(o, days, item)
      ensures E.Available(view, item) <==> Remains(view, item)
    { }
  }

  // ----- The open that wins an outcome

  ghost predicate MayWin(o: E.Open, item: E.Item) { SameInstallation(o, item) && o.at <= item.at }

  /** The i-th open wins: it is the latest of those that may; among equally late ones it has the smallest
      record id by code units, and among those it comes first. */
  ghost predicate WinsAt(opens: seq<E.Open>, i: int, item: E.Item) {
    0 <= i < |opens| && MayWin(opens[i], item)
    && forall j :: 0 <= j < |opens| && j != i && MayWin(opens[j], item) ==> Ahead(opens, i, j)
  }

  ghost predicate Ahead(opens: seq<E.Open>, i: int, j: int)
    requires 0 <= i < |opens| && 0 <= j < |opens|
  {
    var a, b := opens[i], opens[j];
    b.at < a.at || (b.at == a.at && (Utf16Less(a.recordId, b.recordId) || (a.recordId == b.recordId && i < j)))
  }

  /** The opens that tie with one: as late, of the same record id, and before the item. */
  function TiesWith(w: E.Open, item: E.Item): E.Open -> bool {
    (o: E.Open) => E.Precedes(item)(o) && o.at == w.at && o.recordId == w.recordId
  }

  lemma TiedTogether(s: seq<E.Open>, w: E.Open, item: E.Item)
    ensures SortedBy(Filter(s, TiesWith(w, item)), E.ByRecord())
    ensures SortedBy(Filter(s, TiesWith(w, item)), E.LatestFirst())
  {
    var f := TiesWith(w, item);
    FilterMembers(s, f);
    CompareFlips(Utf16Key(w.recordId), Utf16Key(w.recordId));
    forall i | 0 <= i < |Filter(s, f)| ensures f(Filter(s, f)[i]) { assert Filter(s, f)[i] in Filter(s, f); }
  }

  /** The sorts keep ties in their order. */
  lemma TiesKeepOrder(opens: seq<E.Open>, w: E.Open, item: E.Item)
    ensures Filter(E.Ordered(opens), TiesWith(w, item)) == Filter(opens, TiesWith(w, item))
  {
    var f, byRecord := TiesWith(w, item), SortBy(opens, E.ByRecord());
    E.RecordPreorder();
    SortSorts(opens, E.ByRecord());
    SortFilter(opens, E.ByRecord(), f);
    TiedTogether(opens, w, item);
    SortOfSorted(Filter(opens, f), E.ByRecord());
    SortFilter(byRecord, E.LatestFirst(), f);
    TiedTogether(byRecord, w, item);
    SortOfSorted(Filter(byRecord, f), E.LatestFirst());
  }

  /** The winner is the first of its ties. */
  lemma FirstOfItsTies(opens: seq<E.Open>, w: E.Open, item: E.Item)
    requires E.Winner(opens, item) == Some(w)
    ensures FirstOf(opens, TiesWith(w, item)) == Some(w)
  {
    var ordered, f, g := E.Ordered(opens), TiesWith(w, item), E.Precedes(item);
    FirstFound(ordered, g);
    FirstSurvivesFilter(ordered, f, g);
    FilterMembers(ordered, f);
    FirstExt(Filter(ordered, f), f, g);
    FirstIsHeadOfFilter(ordered, f);
    FilterFilter(ordered, f, f, f);
    FirstIsHeadOfFilter(Filter(ordered, f), f);
    TiesKeepOrder(opens, w, item);
    FirstIsHeadOfFilter(opens, f);
  }

  lemma WinnerWins(opens: seq<E.Open>, item: E.Item, w: E.Open) returns (i: int)
    requires E.Winner(opens, item) == Some(w)
    ensures WinsAt(opens, i, item) && opens[i] == w
  {
    E.WinnerIsLatest(opens, item);
    FirstOfItsTies(opens, w, item);
    FirstMeaning(opens, TiesWith(w, item), w);
    i :| 0 <= i < |opens| && opens[i] == w && forall j :: 0 <= j < i ==> !TiesWith(w, item)(opens[j]);
    forall j | 0 <= j < |opens| && j != i && MayWin(opens[j], item) ensures Ahead(opens, i, j) {
      var o := opens[j];
      assert o in opens && E.Precedes(item)(o);
      Utf16Trichotomy(w.recordId, o.recordId);
      assert E.Preferred(w, o);
    }
  }

  lemma AheadOneWay(opens: seq<E.Open>, i: int, j: int)
    requires 0 <= i < |opens| && 0 <= j < |opens| && i != j
    ensures !Ahead(opens, i, j) || !Ahead(opens, j, i)
  {
    Utf16Trichotomy(opens[i].recordId, opens[j].recordId);
  }

  lemma OneWins(opens: seq<E.Open>, item: E.Item, i: int, j: int)
    requires WinsAt(opens, i, item) && WinsAt(opens, j, item)
    ensures i == j
  {
    if i != j { AheadOneWay(opens, i, j); }
  }

  lemma WinningPlace(opens: seq<E.Open>, i: int, item: E.Item)
    requires WinsAt(opens, i, item)
    ensures E.Winner(opens, item) == Some(opens[i])
  {
    E.WinnerIsLatest(opens, item);
    assert opens[i] in opens && E.Precedes(item)(opens[i]);
    var j := WinnerWins(opens, item, E.Winner(opens, item).value);
    OneWins(opens, item, i, j);
  }

  /** Exactly one place wins, if any open may. */
  lemma WinnerFollowsRules(opens: seq<E.Open>, item: E.Item, w: E.Open)
    ensures E.Winner(opens, item) == Some(w) <==> exists i :: WinsAt(opens, i, item) && opens[i] == w
    ensures E.Winner(opens, item) == None <==> forall o :: o in opens ==> !MayWin(o, item)
  {
    E.WinnerIsLatest(opens, item);
    forall o ensures E.Precedes(item)(o) <==> MayWin(o, item) { }
    if E.Winner(opens, item) == Some(w) { var i := WinnerWins(opens, item, w); }
    if i :| WinsAt(opens, i, item) && opens[i] == w { WinningPlace(opens, i, item); }
  }

  // ----- Credit and values

  /** What remains of the opens of the requested day and campaign. */
  ghost predicate Asked(view: E.View, o: E.Open) {
    view.available(o.scope, o.recordId) && view.day * 86_400_000 <= o.at < (view.day + 1) * 86_400_000
    && view.campaign in {None, Some(o.campaign)}
  }

  lemma AskedMeaning(view: E.View, o: E.Open)
    ensures E.Selected(view, o) <==> Asked(view, o)
  {
    WithinDay(o.at, view.day);
  }

  lemma WithinDay(at: int, day: int)
    ensures at / DAY_MS == day <==> day * 86_400_000 <= at < (day + 1) * 86_400_000
  { }

  /** The outcome counts, and the open that wins it is asked for, passes, and has not expired. */
  ghost predicate Earns(window: int, passes: E.Open -> bool, view: E.View, opens: seq<E.Open>, item: E.Item) {
    item.counts && exists i :: EarnsAt(window, passes, view, opens, i, item)
  }

  ghost predicate EarnsAt(window: int, passes: E.Open -> bool, view: E.View, opens: seq<E.Open>, i: int, item: E.Item) {
    WinsAt(opens, i, item) && EarnsFor(window, passes, view, opens[i], item)
  }

  ghost predicate EarnsFor(window: int, passes: E.Open -> bool, view: E.View, o: E.Open, item: E.Item) {
    Asked(view, o) && passes(o) && item.at - o.at < window
  }

  lemma CreditFollowsRules(rule: E.Rule, view: E.View, opens: seq<E.Open>, item: E.Item)
    ensures E.IsCredited(rule, view, opens, item) <==> Earns(rule.window, rule.eligible, view, opens, item)
  {
    var winner := E.Winner(opens, item);
    if winner.Some? {
      AskedMeaning(view, winner.value);
      var i := WinnerWins(opens, item, winner.value);
      assert E.IsCredited(rule, view, opens, item) ==> EarnsAt(rule.window, rule.eligible, view, opens, i, item);
    }
    if i :| EarnsAt(rule.window, rule.eligible, view, opens, i, item) { WinningPlace(opens, i, item); }
  }

  /** What the outcomes earn. */
  ghost function Earned(window: int, passes: E.Open -> bool, view: E.View, opens: seq<E.Open>,
                        visible: seq<E.Item>): int {
    if visible == [] then 0
    else
      var rest, item := Earned(window, passes, view, opens, visible[..|visible| - 1]), visible[|visible| - 1];
      if Earns(window, passes, view, opens, item) then rest + item.converted else rest
  }

  lemma {:induction false} RevenueFollowsRules(rule: E.Rule, view: E.View, opens: seq<E.Open>, visible: seq<E.Item>)
    ensures E.Revenue(rule, view, opens, visible) == Earned(rule.window, rule.eligible, view, opens, visible)
  {
    if visible != [] {
      var front, item := visible[..|visible| - 1], visible[|visible| - 1];
      RevenueFollowsRules(rule, view, opens, front);
      CreditFollowsRules(rule, view, opens, item);
      assert visible == front + [item];
      SumOneMore(front, item, E.Credited(rule, view, opens), E.Money());
    }
  }

  ghost predicate Converts(window: int, passes: E.Open -> bool, view: E.View, opens: seq<E.Open>,
                           visible: seq<E.Item>, scope: E.Scope) {
    exists item :: item in visible && item.scope == scope && Earns(window, passes, view, opens, item)
  }

  lemma ConvertersFollowRules(rule: E.Rule, view: E.View, opens: seq<E.Open>, visible: seq<E.Item>, scope: E.Scope)
    ensures scope in E.Converters(rule, view, opens, visible)
       <==> Converts(rule.window, rule.eligible, view, opens, visible, scope)
  {
    forall item
      ensures E.IsCredited(rule, view, opens, item) <==> Earns(rule.window, rule.eligible, view, opens, item)
    {
      CreditFollowsRules(rule, view, opens, item);
    }
  }

  /** The value is the number of converting installations, or what the outcomes earn. */
  ghost predicate IsValue(value: int, count: bool, window: int, passes: E.Open -> bool, view: E.View,
                          opens: seq<E.Open>, visible: seq<E.Item>) {
    if count then
      exists converted: set<E.Scope> ::
        value == |converted|
        && forall scope :: scope in converted <==> Converts(window, passes, view, opens, visible, scope)
    else value == Earned(window, passes, view, opens, visible)
  }

  lemma {:induction false} SameEarned(f: E.Open -> bool, g: E.Open -> bool, window: int, view: E.View,
                                      opens: seq<E.Open>, visible: seq<E.Item>)
    requires forall o :: f(o) == g(o)
    ensures Earned(window, f, view, opens, visible) == Earned(window, g, view, opens, visible)
    ensures forall item :: Earns(window, f, view, opens, item) <==> Earns(window, g, view, opens, item)
  {
    forall item, i
      ensures EarnsAt(window, f, view, opens, i, item) <==> EarnsAt(window, g, view, opens, i, item)
    { }
    if visible != [] { SameEarned(f, g, window, view, opens, visible[..|visible| - 1]); }
  }

  lemma SamePasses(f: E.Open -> bool, g: E.Open -> bool, count: bool, window: int, view: E.View,
                   opens: seq<E.Open>, visible: seq<E.Item>)
    requires forall o :: f(o) == g(o)
    ensures forall value :: IsValue(value, count, window, f, view, opens, visible)
                       <==> IsValue(value, count, window, g, view, opens, visible)
  {
    SameEarned(f, g, window, view, opens, visible);
    forall scope
      ensures Converts(window, f, view, opens, visible, scope) <==> Converts(window, g, view, opens, visible, scope)
    { }
  }

  lemma OutcomeFollowsRules(rule: E.Rule, view: E.View, opens: seq<E.Open>, visible: seq<E.Item>, count: bool)
    ensures IsValue(E.Outcome(rule, view, opens, visible, count),
                    count, rule.window, rule.eligible, view, opens, visible)
  {
    RevenueFollowsRules(rule, view, opens, visible);
    var converted := E.Converters(rule, view, opens, visible);
    forall scope
      ensures scope in converted <==> Converts(rule.window, rule.eligible, view, opens, visible, scope)
    {
      ConvertersFollowRules(rule, view, opens, visible, scope);
    }
  }

  ghost function AnyOpen(): E.Open -> bool { (o: E.Open) => true }

  /** Without a policy the value is undefined exactly if no open is asked for; and any open earns, for
      less than one day. */
  lemma DayValueFollowsRules(opens: seq<E.Open>, visible: seq<E.Item>, view: E.View, count: bool)
    ensures var value := E.DayValue(opens, visible, view, count);
      && (value == None <==> forall o :: o in opens ==> !Asked(view, o))
      && (value.Some? ==> IsValue(value.value, count, 86_400_000, AnyOpen(), view, opens, visible))
  {
    OutcomeFollowsRules(E.DAY_RULE, view, opens, visible, count);
    SamePasses(E.DAY_RULE.eligible, AnyOpen(), count, E.DAY_RULE.window, view, opens, visible);
    forall o ensures E.Selected(view, o) <==> Asked(view, o) { AskedMeaning(view, o); }
  }

  /** An open that the policy lets earn: installed long ago, as far as the remaining records show, and
      not used since by any. */
  ghost predicate Dormant(included: seq<E.Item>, days: nat, view: E.View, o: E.Open) {
    days == 0
    || ((forall item :: item in included ==> !InUse(o, days, item))
        && exists item :: item in included && InstalledLongAgo(o, days, item) && Remains(view, item))
  }

  ghost function DormantOpens(included: seq<E.Item>, days: nat, view: E.View): E.Open -> bool {
    (o: E.Open) => Dormant(included, days, view, o)
  }

  ghost predicate KnownActive(included: seq<E.Item>, days: nat, view: E.View, o: E.Open) {
    days > 0 && exists item :: item in included && InUse(o, days, item) && Remains(view, item)
  }

  lemma PopulationFollowsRules(opens: seq<E.Open>, included: seq<E.Item>, view: E.View, days: nat)
    ensures E.SomeUnknown(opens, included, days, view) <==>
              exists o :: o in opens && Asked(view, o)
                          && !DormantOpens(included, days, view)(o) && !KnownActive(included, days, view, o)
    ensures E.SomeUnknown(opens, included, days, view) || E.SomeEligible(opens, included, days, view) <==>
              exists o :: o in opens && Asked(view, o) && !KnownActive(included, days, view, o)
  {
    forall o
      ensures E.Selected(view, o) <==> Asked(view, o)
      ensures E.StateOf(o, included, days, view) == E.ActiveOpen <==> KnownActive(included, days, view, o)
      ensures E.StateOf(o, included, days, view) == E.EligibleOpen <==> DormantOpens(included, days, view)(o)
    {
      AskedMeaning(view, o);
      StateFollowsRules(o, included, days, view);
    }
  }

  /** Under the policy: the history is insufficient exactly if some open that is asked for is neither
      dormant nor known to be active, the cohort empty exactly if all of them are active, and otherwise
      the dormant ones earn for less than the window. */
  lemma PolicyValueFollowsRules(opens: seq<E.Open>, included: seq<E.Item>, visible: seq<E.Item>, view: E.View,
                                window: int, days: nat, count: bool)
    ensures var result, dormant :=
              E.PolicyValue(opens, included, visible, view, window, days, count), DormantOpens(included, days, view);
      && (result == E.InsufficientHistory <==>
            exists o :: o in opens && Asked(view, o) && !dormant(o) && !KnownActive(included, days, view, o))
      && (result == E.EmptyCohort <==>
            forall o :: o in opens && Asked(view, o) ==> KnownActive(included, days, view, o))
      && (result.Value? ==> IsValue(result.value, count, window, dormant, view, opens, visible))
  {
    var rule := E.PolicyRule(window, included, days, view);
    OutcomeFollowsRules(rule, view, opens, visible, count);
    PopulationFollowsRules(opens, included, view, days);
    forall o ensures rule.eligible(o) == DormantOpens(included, days, view)(o) {
      StateFollowsRules(o, included, days, view);
    }
    SamePasses(rule.eligible, DormantOpens(included, days, view), count, window, view, opens, visible);
  }
}
