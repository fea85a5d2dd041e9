# Verified model of the OpenMasu reference evaluator

This Dafny 4.11 project models the parts of the OpenMasu reference evaluator that decide which
deliveries become facts and what money those facts produce, plus two small algorithms of its tools.
`dafny verify dfyconfig.toml` checks all of it.

**The admission ledger.** Deliveries are put in a total order and judged by `decide`. Base acceptance,
the business group of a purchase and the sequential admission of refunds derive acceptance again on
their own, and are run again over shorter lists: the accepted facts, the facts up to a watermark, the
facts left after redaction. Nothing in the code says that these re-evaluations agree. Here the
admission of refunds is a log of (refund, purchase) entries (`Ledger.Admit`); the loop over three
dictionaries is a method that refines it (`AdmissionLoop`). The central result is one equation between
logs, `Restriction.RestrictedAdmission`: over any part of the accepted facts, admission yields exactly
the entries whose refund, purchase and, for a cancellation, reversed refund are all present. The
fixpoint, watermark and redaction results are its consequences.

**Money.** The cumulative cap is proved at every decimal scale after every turn of the loop, although
the loop compares at a different scale each time. From it follow bounds on purchase-net revenue, exact
and rounded, at one rate or at dated ones, and what linked reversals restore. `Reproducibility` joins the
ledger and the money: an evaluation at a watermark, before or after redaction, gives the same net
whatever arrives past it.

**Cost grains, engagement credit, consent.** An index over submasks replaces a pairwise overlap test;
each outcome is credited to one open chosen before any filter; consent controls are a replicated log,
and `ConsentedFacts` says exactly which deliveries of a ledger consent lets become facts.

**Rules on the fields.** For every main operation there is a second, independent statement of what it
decides, written on the fields of its inputs and on their places in the lists, without the definitions the
operation itself is built from: `DecisionRules` (every decision, its reason and what it repeats),
`AdmissionRules` (exactly which refunds are admitted against what), `ConsentRules` (snapshots, decisions and
reasons), `EngagementRules` (the state of an open, the winning open, both values), `RevenueRules` (what adds
to net revenue and what reduces it), `ModuleRules` (dependencies, runtime imports, violations), and the
closing sections of `Costs`, `Money`, `Ordering` and `Timestamps`. Each is proved equal to the operation on
all inputs.

**Tools.** The depth-first searches of the module-boundary check are classes over the sets they mutate;
the worker pool of the load tool is a transition system over every interleaving of its awaits, rejected
tasks included.

## How to read the model

- Python compares deliveries by identity. The model compares values. The two agree wherever the code
  asks: base acceptance and a unique standing both require that the record id occurs once, so an equal
  delivery is the same one, and a delivery that occurs twice is a collision either way.
- `Attempt.digest` stands for the hash of the record, and payloads are compared directly, which is
  equality of their hashes under an injective hash. `rest` fields stand for fields no rule here reads.
- `Attempt.consent` is what `consent_decision` yields for the delivery. It depends on the delivery
  alone; the `ConsentDecision` module models it, and `ConsentedFacts` derives it from the delivery and
  the parts of the input that only consent reads.
- A `TimestampInvalidError` that leaves `decide` becomes the decision `TimestampInvalid`, as in `evaluate`.
- `NetRevenue.Metric` holds what a metric definition decides about single deliveries (windows, cohort
  membership, verified projections), whether a refund deducts only from a purchase that counts, and
  whether it has a refund reversal policy; results about it hold for every such choice.
- Rates are a function of the delivery; `NetRevenue.RateFor` is the one a policy selects, and
  `NetRevenue.MoneyOf` is what an evaluation adds for a delivery under a policy.
- Strings hold Unicode scalar values; sort keys are their UTF-16 code units.

## Properties that do not hold as one would expect

**Later arrivals and earlier decisions.** One would expect a later arrival never to touch an earlier
decision. It can, in two ways.

- A purchase refused for a reason of its own, such as withdrawn consent, stands as `unique` until an
  acceptable delivery of the same transaction arrives, and is then recorded as its duplicate, with
  another canonical record id (`ArrivalExamples.RefusedPurchaseIsRewritten`). Acceptance, refusal reason
  and the facts stay as they were.
- A refund without an installation that names its record is refused by `decide` while that record is
  unknown. When the record arrives, the refund is accepted and becomes a fact
  (`ArrivalExamples.EarlyCorrectionIsCompleted`). A whole evaluation does not get that far: it first
  checks that every such record is in its input (tools/python_evaluator.py:393-399), and over inputs
  that pass the check only the first case remains (`Arrivals.CheckedDecisionsStand`).

`Arrivals.DecisionsStand` proves, as an equivalence over every delivery, that these are the only cases.
Admissions are touched by neither, so net revenue over any view up to a watermark stays as it was
(`Reproducibility.SameNet`); the list of facts in view stays exactly if no refund of the second kind is in it
(`Reproducibility.SameFacts`), and so always over checked inputs.

**Rounding and dated rates.** One would expect a purchase less its refunds to stay above zero but for
rounding. Under dated rates it need not: `RisingRates.DoublingBreaksTheBound` gives a table of two rates
under which a purchase repaid in full is left a whole unit of currency below zero.
`RisingRates.BoundedExactlyIfNeverRising` gives the exact condition on the policy: over every ledger, view
and metric, each counted purchase, and the whole of every metric whose refunds deduct only from counted
purchases, is at least minus half a unit per amount converted, exactly if the rates are not dated or none
in force is higher than one of its currency in force on an earlier date (`DatedRates.NeverRises`, which
can be computed from the table). Any rate that rises breaks it, by however little. What holds at any rates
is `NetRevenue.RoundingError`: rounding itself never moves the contribution of a counted purchase by more
than half a unit for each amount converted.

## Model

| member | source | states |
|---|---|---|
| Timestamps.StringOrderIsTimeOrder | tools/python_evaluator.py:152-162 | On accepted timestamps, both string comparisons in use (UTF-16 key and code point) order exactly as instants do, and equal instants are equal strings |
| Timestamps.DatePrefixIsDay | tools/python_evaluator.py:2110 | Two accepted timestamps share their ten-character prefix exactly if they fall on the same UTC day |
| Timestamps.DatesIncrease | tools/python_evaluator.py:152-162 | Calendar order of valid dates is strict order of day numbers, across leap years |
| Timestamps.TimestampsNameInstants | tools/python_evaluator.py:152-162 | The accepted timestamps name every millisecond of the years 1000 to 9999, and no other instant |
| Timestamps.TimestampsAreWritten | tools/python_evaluator.py:152-162 | An accepted timestamp is a date, a T, a time of day to the millisecond and a Z, each part in digits of fixed width |
| Ordering.Utf16KeyInjective | tools/python_evaluator.py:165-167 | The UTF-16 sort key determines the string |
| Ordering.CharUnitsMeaning | tools/python_evaluator.py:165-167 | A character of the basic plane is its own code unit, and any other one the surrogate pair that encodes it |
| Ordering.CompareMeaning | tools/python_evaluator.py:165-167 | One key is below another exactly if it ends or is smaller at the place where the two part |
| InputOrder.InputOrderIsImmaterial | tools/python_evaluator.py:257-271 | Any rearrangement of the deliveries, colliding ones included, gives every delivery the same decision and the run the same admissions |
| InputOrder.FlattenIsInOrder | tools/python_evaluator.py:266-271 | Flattening yields the same deliveries, sorted by the seven-part key |
| InputOrder.FlattenOrder | tools/python_evaluator.py:266-271 | Of two flattened deliveries the earlier one is no greater in the first differing text among receipt time, record id, delivery id, tenant, app, schema version and digest |
| Decisions.FactMeaning | tools/python_evaluator.py:811-875 | A delivery becomes a fact exactly if it stands alone, is eligible, and has a target if it is a refund |
| Decisions.StandingMeaning | tools/python_evaluator.py:831-851 | Collisions are repeated record ids and never accepted; repeats name another delivery of the scope or business key, with the same payload exactly if duplicates; conflicts are never accepted |
| Decisions.PurchaseAgreement | tools/python_evaluator.py:479-503 | An anchored purchase is accepted and unique exactly if it is base-accepted and heads its business group |
| Decisions.RefundAgreement | tools/python_evaluator.py:845-851 | An anchored refund is accepted and unique exactly if it is the winner of its own business key in the admission log |
| Decisions.OneFactPerTransaction | tools/python_evaluator.py:831-875 | At most one accepted fact per tenant, app, kind and transaction id |
| Decisions.PurchaseIsRepresented | tools/python_evaluator.py:499-503 | Every base-accepted anchored purchase is represented by exactly one fact with its transaction id |
| Decisions.BusinessRepeatNamesAFact | tools/python_evaluator.py:839-851 | A delivery recorded as a business repeat names, as canonical, a fact with the same business key |
| Decisions.AdmittedAgainstTheOnlyFit | tools/python_evaluator.py:506-542 | An admitted refund and its purchase are facts of one app, installation, original transaction and currency, in receipt and occurrence order, and no other fact fits the refund |
| DecisionRules.AcceptableIsBase | tools/python_evaluator.py:428-450 | A delivery is base-accepted exactly if its times and cutoff are read, its scope is its own, it is consented, not before the cutoff and not an aggregate with an installation, its record id occurs once, and it is the first of its event |
| DecisionRules.DecisionFollowsRules | tools/python_evaluator.py:811-875 | Every decision on the fields: accepted exactly if no rule is broken, else refused for the first rule broken in the order of the code, and recorded as what it repeats |
| DecisionRules.FactRules | tools/python_evaluator.py:811-875 | A delivery becomes a fact exactly if it is sound, collides with nothing, repeats nothing, and has its target if it is a refund |
| AdmissionRules.ResolvedToOnlyFit | tools/python_evaluator.py:506-542 | A refund resolves to a purchase exactly if that is the only fact that fits it, on the fields of both, and is the one it names, if it names one |
| AdmissionRules.AdmittedExactly | tools/python_evaluator.py:556-610 | An acceptable refund is admitted against a purchase exactly if that is its only fit, no earlier entry has its transaction, a linked one takes back an earlier settled entry of that purchase and value, and a settled one finds room at any common scale; others need no room |
| AdmissionLoop.AdmittedRefunds | tools/python_evaluator.py:556-610 | The loop over winners, targets and settled refunds returns exactly the winners and targets of the admission log |
| AdmissionLoop.ResolveRefundTarget | tools/python_evaluator.py:613-619 | The target looked up after the loop is the one of the log, none for unanchored refunds |
| AdmissionLoop.DecideDelivery | tools/python_evaluator.py:811-875 | The stepwise decision, over the dictionaries, is the decision of the specification |
| Restriction.RestrictedAdmission | tools/python_evaluator.py:556-610 | Over any part of the accepted facts, admission yields exactly the surviving entries of the full run, in order and with the same targets |
| Restriction.FactsAdmitTheSame | tools/python_evaluator.py:2978-2982 | Over the accepted facts alone, every target and winner is as over all deliveries |
| Restriction.RedactionKeepsOrDropsTargets | tools/python_evaluator.py:2283-2286 | After redacting any set of facts, a refund keeps its target exactly if the target and the refund it reverses remain; none gains one |
| Restriction.WatermarkCutsTheLog | tools/python_evaluator.py:2263-2268 | Cutting the facts at any watermark string cuts the log there and changes no remaining target |
| Restriction.WatermarkIsAnInstant | tools/python_evaluator.py:2263-2268 | At a watermark that is an instant, exactly the facts received by that instant remain |
| Arrivals.LogGrows | tools/python_evaluator.py:556-610 | Deliveries received strictly later, with fresh record ids, only append entries for later refunds to the log |
| Arrivals.SameTargetAndWinner | tools/python_evaluator.py:613-619 | Later arrivals never change a target or a held business key |
| Arrivals.DecisionsStand | tools/python_evaluator.py:811-875 | Later arrivals leave a decision as it was exactly unless the delivery is an overtaken purchase or a completed legacy refund; only completion changes acceptance, reason or facts, and it always makes a fact |
| Arrivals.CheckedDecisionsStand | tools/python_evaluator.py:393-399 | Over an input in which every record a legacy refund names is present, only overtaken purchases are decided anew, and acceptance, reason and facts never change |
| ArrivalExamples.RefusedPurchaseIsRewritten | tools/python_evaluator.py:839-844 | A refused purchase becomes a duplicate of a consented delivery that arrives the next day |
| ArrivalExamples.EarlyCorrectionIsCompleted | tools/python_evaluator.py:465-476 | A refund without an installation is refused, and accepted once the purchase it names has arrived the next day |
| Reproducibility.SameAdmissions | tools/python_evaluator.py:2263-2286 | Arrivals out of view never change the admissions among the facts in a view, redacted or not |
| Reproducibility.SameFacts | tools/python_evaluator.py:2263-2286 | The facts in a view are unchanged exactly if no legacy refund among them was waiting for a record that arrived out of view |
| Reproducibility.CheckedFactsReproduce | tools/python_evaluator.py:393-399 | Over an input that passed the reference check, the facts in a view are the same whatever arrives out of it |
| Reproducibility.SameNet | tools/python_evaluator.py:2263-2286 | Net revenue over any view up to a watermark, redacted or not, is the same whatever arrives out of view, for every metric definition and conversion |
| Caps.CumulativeCap | tools/python_evaluator.py:595-609 | After every turn, settled refunds admitted against a purchase sum to at most its amount, at every decimal scale that holds them and the purchase |
| Caps.CapMeaning | tools/python_evaluator.py:545-546 | The comparison at the largest scale present is the comparison at any common scale |
| Caps.ExactCancellation | tools/python_evaluator.py:581-594 | Every linked reversal admitted names an earlier admitted settled refund of the same purchase and exact amount |
| Money.RoundHalfEvenMeaning | tools/python_evaluator.py:1189-1198 | Rounding returns the one nearest integer with ties to even; it is odd-symmetric and unchanged by scaling both arguments |
| Money.ConvertAtScale | tools/python_evaluator.py:1233-1243 | Conversion is the rounded quotient of the exact value at any scale that holds the amount |
| Money.EqualValuesConvertEqually | tools/python_evaluator.py:1233-1243 | Amounts of one currency and equal exact value convert equally under any policy, missing rates included |
| Money.ConversionFollowsRules | tools/python_evaluator.py:1233-1243 | An amount converts at the first rate of its currency, for a dated policy also of its date and published by the watermark, to the nearest unit of the target scale with ties to even; and not at all exactly if there is none |
| NetRevenue.PurchaseNet | tools/python_evaluator.py:2196-2224 | The two passes with a purchase dictionary compute counted purchases minus deducted refunds |
| NetRevenue.NetByPurchase | tools/python_evaluator.py:2496-2533 | Net revenue is the sum of the net contributions of the visible purchases, counted or not |
| RevenueRules.NetFollowsRules | tools/python_evaluator.py:2496-2533 | Net revenue adds every verified settled purchase that counts and takes off every verified settled refund admitted against a purchase it may reduce, unless a verified reversal in view on the same server names it |
| NetRevenue.ExactNetBounds | tools/python_evaluator.py:2496-2533 | Unrounded, a purchase contributes at most its amount, and less than nothing exactly if it does not count itself while money is deducted from it |
| NetRevenue.RoundingError | tools/python_evaluator.py:2496-2533 | At any rates, rounding moves the contribution of a counted purchase with n refunds by at most (n + 1) / 2 units |
| NetRevenue.RoundedNetBound | tools/python_evaluator.py:2496-2533 | Where no refund converts at a higher rate than its purchase, a purchase less n refunds rounded one by one is at least -(n + 1) / 2 units |
| NetRevenue.UndatedRatesAgree | tools/python_evaluator.py:1233-1243 | Without dated rates every deducted refund converts at the rate of its purchase |
| NetRevenue.MoneyIsConverted | tools/python_evaluator.py:2369-2375 | What is added for a delivery, nothing where no rate applies, is its conversion at the selected rate |
| RevenueRules.MoneyFollowsRules | tools/python_evaluator.py:2369-2375 | What is added for a delivery is its amount at the first rate usable for its currency and UTC date, to the nearest unit, ties to even, and nothing where none is usable |
| DatedRates.InForceOnTable | tools/python_evaluator.py:1205-1230 | In a table with one rate per currency and date, the rates in force are those published by the watermark on dates a timestamp can have |
| DatedRates.TableBounds | tools/python_evaluator.py:1233-1243 | Under a policy that is not dated or never rises, a counted purchase that has a rate is at least minus half a unit per amount converted |
| DatedRates.TableBoundsAll | tools/python_evaluator.py:2496-2533 | And so is the whole of every metric whose refunds deduct only from counted purchases that have rates |
| RisingRates.BoundedExactlyIfNeverRising | tools/python_evaluator.py:1233-1243 | Both bounds hold over every ledger, view and metric exactly if the policy is not dated or no rate in force rises with its date |
| RisingRates.DoublingBreaksTheBound | tools/python_evaluator.py:1233-1243 | Under a dated policy of two rates a purchase repaid in full after its currency doubled contributes minus its whole amount |
| NetRevenue.RoundedTotalBound | tools/python_evaluator.py:2496-2533 | Where also refunds deduct only from counted purchases, the whole metric is at least minus half a unit per counted purchase and deducted refund |
| Reversals.ReversalIsExact | tools/python_evaluator.py:581-594 | An anchored reversal in view names an earlier settled refund with the same target and value, and converts to the same amount |
| Reversals.FirstReversalRestores | tools/python_evaluator.py:2516-2525 | With a reversal policy, bringing a reversal of a deducted refund into view raises net by exactly what was deducted |
| Reversals.IdleReversal | tools/python_evaluator.py:2516-2525 | A reversal of nothing deducted changes nothing, and without a reversal policy none does |
| Reversals.SecondReversalAddsNothing | tools/synthetic-refund-reversal-cases.ts:24-29 | A second reversal of the same refund changes nothing |
| PolicyNet.RefundFollowsItsPurchase | tools/python_evaluator.py:2196-2224 | A deducted refund and its purchase lie in the window of one open, the latest before the purchase |
| PolicyNet.PolicyNetValue | tools/python_evaluator.py:2180-2224 | For purchase-net revenue the policy value is undefined while a selected open is unknown or none is eligible, else the net of the policy |
| RevenueRules.PolicyMetricFollowsRules | tools/python_evaluator.py:2186-2224 | Verified means from an adapter under one of two policies; a purchase counts exactly if the open that wins it earns it, and a refund reduces it exactly if it is no earlier and the same open earns it |
| PolicyNet.PolicyNetBounds | tools/python_evaluator.py:2196-2224 | Under the engagement policy unrounded net lies between zero and the counted purchases, and rounded net at no higher refund rates is bounded below |
| Costs.AddProjections | tools/python_evaluator.py:204-209 | The submask loop visits every submask of the mask exactly once, stops, and files the row under each |
| Costs.Scan | tools/python_evaluator.py:199-202 | One lookup per mask present, each of which exists, decides whether any grain seen agrees on all dimensions both name |
| Costs.SelectDisjointCosts | tools/python_evaluator.py:179-210 | A row is returned, once, exactly if it is eligible and no given row of its cell and dimensions is newer by as_of and then record id; rows come in that order; the flag is true exactly if two of them are of one cell and no dimension both name tells them apart |
| Costs.LatestIsCurrent | tools/python_evaluator.py:184-188 | The revision kept for a grain is the row with the greatest as_of, then record id, in UTF-16 order, and of rows equal in both the one given last |
| Engagement.WinnerIsLatest | tools/python_evaluator.py:2117-2133 | The winning open is the latest of the installation at or before the outcome, smallest record id among equals |
| Engagement.EngagementValue | tools/python_evaluator.py:2098-2138 | The accumulated value is undefined without a selected open, else the credited revenue or the number of distinct converters |
| EngagementRules.WinnerFollowsRules | tools/python_evaluator.py:2117-2133 | An outcome is won by the latest open of its installation no later than itself; ties go to the smallest record id by code units, and then to the one listed first |
| EngagementRules.DayValueFollowsRules | tools/python_evaluator.py:2098-2138 | The value is undefined exactly if no available open has the day and campaign asked for, else the sum or the converting installations of the counted outcomes won by such opens less than one day before |
| Engagement.RevenueConserved | tools/python_evaluator.py:2098-2138 | For a fixed day, revenue summed over campaigns is the ungrouped revenue, undefined counting as zero |
| Engagement.ConvertersSubadditive | tools/python_evaluator.py:2118-2138 | Distinct converters of a campaign never exceed the total, and the total never exceeds their sum |
| Engagement.RedactionNeverRaises | tools/python_evaluator.py:2107-2138 | Redacting more opens or outcomes never moves credit and never raises a group's revenue or converters |
| Engagement.StateOnlyDegrades | tools/python_evaluator.py:2162-2178 | Further redaction never makes an open eligible and never resolves an unknown one |
| Engagement.PolicyPopulation | tools/python_evaluator.py:2163-2184 | One pass finds whether a selected open is unknown and whether one is eligible |
| Engagement.EngagementPolicyValue | tools/python_evaluator.py:2225-2239 | For ad revenue and conversions, undefined while a selected open is unknown or none is eligible, else the credited revenue or converters of eligible opens |
| EngagementRules.StateFollowsRules | tools/python_evaluator.py:2162-2178 | With an inactivity period an open is active exactly if an available SDK session, custom event or deep link of its installation falls in the period before it, eligible exactly if there is none at all and an available install is older than the period, and otherwise unknown |
| EngagementRules.PolicyValueFollowsRules | tools/python_evaluator.py:2163-2239 | The history is insufficient exactly if an open asked for is neither eligible nor active, the cohort empty exactly if all are active, and otherwise eligible opens earn the outcomes they win within the window |
| Engagement.PolicyRedaction | tools/python_evaluator.py:2156-2193 | Under the policy credited revenue never rises with redaction, and an undefined value becomes defined only if every unknown open was removed |
| Consent.PurposeConsentAt | tools/python_evaluator.py:622-660 | Fails exactly on an invalid sequence or control, else returns the snapshot of each purpose that has one |
| Consent.SnapshotDescribes | tools/python_evaluator.py:639-660 | A snapshot carries the top revision as first recognized, its conflict flag, and the last unversioned denial |
| ConsentRules.SnapshotFollowsRules | tools/python_evaluator.py:639-660 | On the fields of the controls: which are heard for a purpose, which revision, state and sequence the snapshot shows, when it conflicts, and which denial fences it |
| ConsentRules.OutputFollowsRules | tools/python_evaluator.py:639-660 | The output lists the snapshots of attribution, analytics and revenue measurement in that order |
| ConsentRules.DenialFencesEveryPurpose | tools/python_evaluator.py:640-646 | A denial or withdrawal without a revision, recognized by the sequence, gives every purpose a snapshot with a fence no earlier than it |
| ConsentRules.RevisionsOnlyRise | tools/python_evaluator.py:639-660 | A control for the purpose, or for all, recognized by the sequence bounds the revision of the snapshot from below |
| Consent.SnapshotUnique | tools/python_evaluator.py:639-660 | The set of relevant controls calls for at most one snapshot |
| Consent.SnapshotStable | tools/python_evaluator.py:639-660 | Snapshots of two control lists agree if their relevant controls differ only in versions below a shared higher one |
| Consent.OrderAndRepetitionIgnored | tools/validate.ts:2370-2374 | Permuting or repeating controls changes no snapshot |
| Consent.StaleControlIgnored | tools/python_evaluator.py:639-660 | Inserting a control of unknown state, recognized too late, or below a recognized revision changes no snapshot |
| ConsentDecision.AdmissionMeansCleared | tools/python_evaluator.py:663-675 | Admission passes exactly if the record carries the top revision, uniformly granted or not required, first recognized after every unversioned denial, or nothing was recognized and it carries none |
| ConsentDecision.NoStaleResurrection | tools/python_evaluator.py:706-742 | On the revision-controlled path a record is allowed exactly if the controls clear it and no server withdrawal stands without a documented basis |
| ConsentRules.ConsentFollowsRules | tools/python_evaluator.py:678-742 | On the fields: a decision fails exactly on a malformed control or sequence where controls are asked, and allows exactly if nothing is asked, or the controls, where there are any, clear the record and no withdrawal stands without a basis in force |
| ConsentRules.ReasonFollowsRules | tools/python_evaluator.py:678-742 | For every reason of an asked record, exactly when it is given |
| ConsentRules.DenialOutlasted | tools/python_evaluator.py:663-675 | After a denial without a revision, a record under controls is allowed only if it carries the highest revision, all of whose controls grant and come strictly after the denial |
| ConsentDecision.BasesNeverRescue | tools/python_evaluator.py:723-742 | No list of alternative bases changes the refusal of a record the controls do not clear |
| ConsentDecision.FindBasisMeaning | tools/python_evaluator.py:725-735 | A basis is found exactly if one matches record and purpose and was in force at receipt |
| ConsentedFacts.AllowedMeansPermitted | tools/python_evaluator.py:678-742 | Consent allows a delivery exactly if it is not required, or the controls clear it on the revision-controlled path and a basis is in force where a server withdrawal stands |
| ConsentedFacts.FactsArePermitted | tools/python_evaluator.py:811-875 | With consent computed from each delivery, a delivery becomes a fact exactly if it stands alone, is eligible consent aside, has its target, and consent permits it |
| ConsentedFacts.ViewFollowsRules | tools/python_evaluator.py:678-742 | The ledger sees a delivery as allowed, or as unconfirmed, exactly as the fields of the delivery, the controls, the withdrawals and the bases give it |
| ModuleGraph.BuildGraph | tools/check-module-boundaries.ts:54-73 | The graph holds exactly the runtime imports between different workspaces |
| ModuleGraph.CycleSearch.Visit | tools/check-module-boundaries.ts:74-81 | The recursive search restores the visiting set, only grows the others, reports only real chains, and without a report completes its node |
| ModuleGraph.CycleSearch.FindCycles | tools/check-module-boundaries.ts:74-82 | An error is reported exactly if the graph has a directed cycle, and every reported chain is a path whose last node occurs earlier in it |
| ModuleGraph.CheckCycles | tools/check-module-boundaries.ts:54-82 | From modules and workspaces: an error exactly if runtime dependencies form a cycle, every reported chain being one of dependencies |
| ModuleRules.DependencyFollowsRules | tools/check-module-boundaries.ts:54-73 | A workspace depends on another exactly if an import that is not type-only leads from a module in the first directory that holds it to a target in the other, or, without a target, names the other as package |
| ModuleGraph.PackageOfMeaning | tools/check-module-boundaries.ts:59 | A specifier has a scoped package name exactly if it starts with it, up to its end or a slash |
| ModuleGraph.CheckEntrypoint | tools/check-module-boundaries.ts:85-99 | From an entry point exactly the modules reached over runtime imports are visited, and exactly their violations reported, a missing entry module included |
| ModuleGraph.CheckEntrypoints | tools/check-module-boundaries.ts:85-119 | Over both lists of entry points, an error for a root is a violation, under the rules of its list, of a module the root reaches |
| ModuleRules.ImportFollowsRules | tools/check-module-boundaries.ts:85-119 | A runtime import leads from the last module of a path to the path of a module, and is not type-only |
| ModuleRules.PureViolations | tools/check-module-boundaries.ts:85-99 | The violations of a module under the rules for pure entry points: absent, performing input or output, or importing at run time a package that does |
| ModuleRules.ProductionViolations | tools/check-module-boundaries.ts:101-119 | The violations of a module under the rules for production ingestion: absent, privileged or seed support, or a client-only repository that owns a transaction |
| WorkerPool.Job.RunSafety | tools/m5-load.ts:40-51 | Over every interleaving, rejections included, claims and slots stay consistent, and a run has at most 2 * size + workers steps |
| WorkerPool.Job.ClaimsAreFinal | tools/m5-load.ts:45 | An index once handed out is never handed out again or reassigned |
| WorkerPool.Job.InFlight | tools/m5-load.ts:43 | Two workers never await the same index, and an awaited index was handed out to the worker that awaits it |
| WorkerPool.Job.PoolSize | tools/m5-load.ts:43 | The pool has min(concurrency, size) workers, none if that is negative, and no more are still going at any moment |
| WorkerPool.Job.CompleteAtTheEnd | tools/m5-load.ts:43-50 | When all workers have returned, every slot holds its own task's result exactly if there was a worker or nothing to do |
| WorkerPool.Job.FailureIsVisible | tools/m5-load.ts:47 | A worker that threw awaited a task that rejects, its slot is empty, and the output is not complete |
| WorkerPool.Job.SettledAtTheEnd | tools/m5-load.ts:43-50 | When no worker can go on, all returned exactly if there was no worker or no task rejects, and then every result is in place |
| WorkerPool.ConcurrentMap | tools/m5-load.ts:40-51 | Under any scheduling the pool terminates; it rejects exactly if there is a worker and some task rejects, else every result is in place |

## Left out

- A missing `transaction_id` on anchored commerce: the schemas require it, and the evaluator would abort.
- Policy digest checks of `decide` and controls that make `consent_decision` abort the run: they end the evaluation before any decision.
- Timeliness, clock skew, payload disposition and staleness fields of a decision: functions of the delivery or of the reason alone.
- Unanchored reversals in `Reversals.ReversalIsExact` and `Reproducibility.SameNet`: schemas/events/refund.schema.json allows the link only with an installation; the metric code itself does not look.
- The time zone database: metric days are elapsed UTC days.
- SHA-256 and canonical JSON: abstracted as an injective digest.
- Dependency declarations, executable-app and private-import errors of the module check: single branches; how its inputs are read from source files: input and output.
- Attribution, fraud scoring, reconciliation, privacy artifacts, evidence references and metric definition validation.
- Requests, timing and signing in the load tool: input and output; a task is a function of its value and index.
