# Policy Decision Point: evaluation engine

A model of the policy evaluation engine of a small Policy Decision Point
(PDP). A policy set is an ordered list of policies. Each policy holds an
ordered list of rules. A rule has conditions, an effect and obligations.
Given a request's attributes, the engine decides "permit" or "deny". On
"permit" it also hands back the obligations of the rule that permitted.

The model has four modules:

- `Parsing` (`parsing.dfy`): the two readings the comparison layer tries on
  a value. One is a time of day in the layout `15:04:05`, as seconds since
  midnight. The other is a base-10 integer. Each parser has a formatter
  that it inverts.
- `Conditions` (`conditions.dfy`): `compareValues` and `evaluateCondition`
  as pure functions. Ordering operators try times first, then integers, and
  hold when neither reading applies to both operands (they fail open).
- `Engine` (`engine.dfy`): the records, the condition-list evaluator and the
  policy walk. Both evaluators are methods with loops. Each is proved
  against a declarative specification:
  - `ConditionsHold` says every attribute is present and the number of
    failed conditions stays within the rule's tolerance. The tolerance is
    none outside the first policy and for rule 1 of the first policy, one
    for rule 2, and unlimited from rule 3 on.
  - `IsDecision` says the result is "permit" with the obligations of the
    first permitting rule in policy-then-rule order, or "deny" with no
    obligations when no rule permits.
- `Scenarios` (`scenarios.dfy`): the demonstration policy set and the
  decisions on the demonstration requests. Two further requests show a
  denial at the 08:00:00 boundary and a rule with effect "deny" that lets
  the walk go on.

The rule index, the policy index and the failure tally live in
package-level variables in the source. Here they are locals of one call.
The source also keeps a condition counter that is written and never read.
It has no effect on any result and is not modelled.

The expected value of a condition is a literal. It is never looked up in
the input. So a condition such as `user.accessRate < database.accessRateThreshold`
compares the rate with the text `database.accessRateThreshold`. That text
is neither a time nor an integer, so the condition always holds
(`Scenarios.AttributeNameAlwaysPasses`).

## Model

| member | source | states |
|---|---|---|
| `Parsing.ParseTime` | pdp.go:107-110 | a value reads as a time only when it has the `HH:MM:SS` shape, and the result is below one day in seconds |
| `Parsing.TimeRoundTrip` | pdp.go:107-110 | every time of day is read back from its `HH:MM:SS` spelling |
| `Parsing.TimeCanonical` | pdp.go:107-110 | a string that reads as a time is exactly the spelling of that time |
| `Parsing.IntRoundTrip` | pdp.go:120-122 | every integer is read back from its decimal spelling |
| `Parsing.ParseInt` | pdp.go:120-121 | a value reads as an integer exactly when it is a digit or a sign followed by digits, with at least one digit |
| `Parsing.ParseIntSigned` | pdp.go:120-121 | no sign, `+` or `-` before any digit string (leading zeros included) is read, and `-` negates the digits' value |
| `Parsing.NeverTimeAndInt` | pdp.go:107-122 | no string reads both as a time and as an integer |
| `Conditions.CompareValues` | pdp.go:105-136 | the comparison is false only for a recognised operator applied to two times (`>`, `<`) or to two integers; every other case holds |
| `Conditions.EvaluateCondition` | pdp.go:90-103 | `==` is exact string equality, and an operator other than `==`, `>`, `<`, `!=` never holds |
| `Conditions.TimesCompareChronologically` | pdp.go:108-116 | on two times, `>` and `<` compare the times of day |
| `Conditions.IntsCompareNumerically` | pdp.go:119-133 | on two integers, `==`, `>`, `<` and `!=` compare the numbers |
| `Conditions.EqualIntsAreUnordered` | pdp.go:126-129 | equal integers satisfy neither `>` nor `<` |
| `Conditions.NotEqualOnTimesHolds` | pdp.go:110-135 | `!=` on two times always holds, because times never read as integers |
| `Conditions.IncomparableHolds` | pdp.go:119-135 | operands that are neither both times nor both integers satisfy `>`, `<` and `!=` |
| `Engine.NoFailureMeansAllSatisfied` | pdp.go:63-87 | no failed condition exactly when every condition is satisfied |
| `Engine.AtMostOneFailure` | pdp.go:72-76 | at most one failed condition exactly when no two distinct conditions both fail |
| `Engine.StrictRule` | pdp.go:70-87 | outside the first policy, and for rule 1 of the first policy, the list holds iff every condition is satisfied; an empty list holds |
| `Engine.SecondRuleOfFirstPolicy` | pdp.go:72-76 | rule 2 of the first policy holds iff every attribute is present and no two conditions fail |
| `Engine.LaterRuleOfFirstPolicy` | pdp.go:72-80 | from rule 3 of the first policy on, the list holds iff every attribute is present |
| `Engine.MissingAttributeFails` | pdp.go:65-69 | a missing attribute fails the list whatever the rule and policy index |
| `Engine.EvaluateConditions` | pdp.go:60-88 | the loop returns exactly `ConditionsHold`: all attributes present and failures within the positional tolerance |
| `Engine.FirstPermitUnique` | pdp.go:44-53 | at most one rule is the first, in policy-then-rule order, to permit |
| `Engine.DecisionUnique` | pdp.go:42-58 | the decision and obligations are determined by the policy set and the input |
| `Engine.FirstPermitDecides` | pdp.go:44-53 | a permitting rule with no permitting rule before it decides "permit" with its own obligations |
| `Engine.NoPermitDenies` | pdp.go:57 | when no rule permits, the decision is "deny" with no obligations |
| `Engine.EvaluatePolicySet` | pdp.go:42-58 | "permit" with the obligations of the first rule whose conditions hold and whose effect is "permit"; rules with another effect do not stop the walk; "deny" with no obligations when no rule permits |
| `Scenarios.ComparisonExamples` | pdp.go:105-133 | `09:00:00 > 08:00:00`, not `07:00:00 > 08:00:00`, `12 > 10`, `5 < 10` |
| `Scenarios.AttributeNameAlwaysPasses` | pdp.go:70 | a `>`, `<` or `!=` condition whose expected value is one of the attribute names used in the demonstration policies holds for every value, because the name is compared as literal text |
| `Scenarios.NormalUserBehavior` | pdp.go:145-154 | at 07:00, 08:00, 09:00 and 19:00, rule 1 of the service-access policy holds only at 09:00 |
| `Scenarios.AtypicalUserBehavior` | pdp.go:155-174 | at the same times, rule 2 holds at 07:00 and 19:00, tolerating one failed condition, and fails at 08:00 and 09:00 |
| `Scenarios.DaytimeRequest` | pdp.go:221-226 | at 09:00:00 with rate 5 the first rule permits with no obligations |
| `Scenarios.EarlyRequest` | pdp.go:227-232 | at 07:00:00 with rate 12 the second rule permits, tolerating one failed condition, with the `apply_sfc` obligation |
| `Scenarios.EveningRequest` | pdp.go:233-238 | at 19:00:00 with rate 15 the second rule permits with the `apply_sfc` obligation |
| `Scenarios.DenyEffectDoesNotStop` | pdp.go:49-54 | with device attributes present, `differentSerialNum` holds but has effect "deny", and the walk goes on to `differentFingerprint`, which permits with its `apply_sfc` obligation |
| `Scenarios.BoundaryRequestDenied` | pdp.go:140-217 | at 08:00:00 both service-access rules fail and every fingerprint rule fails on a missing attribute, so the request is denied |

## Left out

- `main`: the printing of scenario results is output only. The policy set and the inputs it builds are kept as constants in `Scenarios`.
- The "Applied Rule" diagnostic printed when a rule's conditions hold. It is output only.
- `Parsing.ParseTime`: does not model two leniencies of Go's `time.Parse` with layout `15:04:05`. It accepts a one-digit hour and a trailing fractional-second field; the model reads exactly two digits per field and nothing after the seconds. Times compare at whole-second resolution.
- `Parsing.ParseInt`: does not model the out-of-range error `strconv.Atoi` returns for values beyond 64 bits; the result is an unbounded integer.
- The `==` case in `compareValues` is modelled, but `evaluateCondition` handles `==` itself and never reaches it.
- `Rule.Target` is carried and never evaluated, as in the source. `Obligation.Details` is an opaque map passed through unchanged.
- A nil obligation slice and an empty one are the same empty sequence here.
- The package-level counters of the source are unsafe under concurrent calls. The model has no shared state, so that hazard is not represented.
