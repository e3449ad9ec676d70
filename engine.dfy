/**
 * The policy decision point: the policy records, the condition-set
 * evaluator with its first-policy leniency, and the first-permit-wins walk
 * over policies and rules. The rule index, the policy index and the
 * failure tally are locals of one call.
 */
module Engine {
  import opened Parsing
  import opened Conditions

  /** An action the enforcement point must carry out; the details are passed through untouched. */
  datatype Obligation = Obligation(action: string, details: map<string, string>)

  /** `attribute operator value`; the value is a literal, never looked up in the input. */
  datatype Condition = Condition(attribute: string, operator: string, value: string)

  /** The target is carried but never evaluated. */
  datatype Rule = Rule(
    name: string,
    target: string,
    conditions: seq<Condition>,
    effect: string,
    obligations: seq<Obligation>)

  datatype Policy = Policy(name: string, rules: seq<Rule>)

  datatype PolicySet = PolicySet(policies: seq<Policy>)

  type Input = map<string, string>

  // ---------------------------------------------------------------------------
  // Specification of a condition list

  /** The attribute is present and its value passes the condition. */
  predicate Satisfied(c: Condition, input: Input) {
    c.attribute in input && EvaluateCondition(c.operator, input[c.attribute], c.value)
  }

  predicate AllPresent(conditions: seq<Condition>, input: Input) {
    forall k :: 0 <= k < |conditions| ==> conditions[k].attribute in input
  }

  /** How many conditions of the list are not satisfied. */
  function FailCount(conditions: seq<Condition>, input: Input): (n: nat)
    ensures n <= |conditions|
  {
    if conditions == [] then 0
    else
      var last := conditions[|conditions| - 1];
      FailCount(conditions[..|conditions| - 1], input) + (if Satisfied(last, input) then 0 else 1)
  }

  /**
   * How many failed conditions a rule tolerates, by its 1-based position
   * `counter` within policy number `policyNum`: none outside the first
   * policy and for its first rule, one for its second rule, and any number
   * (None) for its other rules.
   */
  function Tolerance(counter: int, policyNum: int): Option<nat> {
    if policyNum != 1 || counter == 1 then Some(0)
    else if counter == 2 then Some(1)
    else None
  }

  /** Every attribute is present and the failures stay within the tolerance. */
  predicate ConditionsHold(conditions: seq<Condition>, input: Input, counter: int, policyNum: int) {
    AllPresent(conditions, input) &&
    (Tolerance(counter, policyNum).Some? ==> FailCount(conditions, input) <= Tolerance(counter, policyNum).value)
  }

  lemma {:induction false} FailCountOfPrefix(conditions: seq<Condition>, input: Input, i: nat)
    requires i <= |conditions|
    ensures FailCount(conditions[..i], input) <= FailCount(conditions, input)
  {
    if i < |conditions| {
      var init := conditions[..|conditions| - 1];
      assert conditions[..i] == init[..i];
      FailCountOfPrefix(init, input, i);
      assert FailCount(init, input) <= FailCount(conditions, input);
    } else {
      assert conditions[..i] == conditions;
    }
  }

  /** No condition fails exactly when every condition is satisfied. */
  lemma {:induction false} NoFailureMeansAllSatisfied(conditions: seq<Condition>, input: Input)
    ensures FailCount(conditions, input) == 0 <==>
            forall k :: 0 <= k < |conditions| ==> Satisfied(conditions[k], input)
  {
    if conditions != [] {
      var init := conditions[..|conditions| - 1];
      NoFailureMeansAllSatisfied(init, input);
      assert forall k :: 0 <= k < |init| ==> init[k] == conditions[k];
    }
  }

  /** At most one condition fails exactly when no two distinct conditions both fail. */
  lemma {:induction false} AtMostOneFailure(conditions: seq<Condition>, input: Input)
    ensures FailCount(conditions, input) <= 1 <==>
            forall j, k :: 0 <= j < k < |conditions| ==>
              Satisfied(conditions[j], input) || Satisfied(conditions[k], input)
  {
    if conditions != [] {
      var n := |conditions|;
      var init := conditions[..n - 1];
      AtMostOneFailure(init, input);
      NoFailureMeansAllSatisfied(init, input);
      assert forall k :: 0 <= k < |init| ==> init[k] == conditions[k];
    }
  }

  /**
   * Outside the first policy, and for the first rule of the first policy,
   * a condition list holds exactly when every condition is satisfied; in
   * particular the empty list holds.
   */
  lemma StrictRule(conditions: seq<Condition>, input: Input, counter: int, policyNum: int)
    requires policyNum != 1 || counter == 1
    ensures ConditionsHold(conditions, input, counter, policyNum) <==>
            forall k :: 0 <= k < |conditions| ==> Satisfied(conditions[k], input)
  {
    NoFailureMeansAllSatisfied(conditions, input);
  }

  /**
   * The second rule of the first policy holds when every attribute is
   * present and no two of its conditions fail.
   */
  lemma SecondRuleOfFirstPolicy(conditions: seq<Condition>, input: Input)
    ensures ConditionsHold(conditions, input, 2, 1) <==>
            AllPresent(conditions, input) &&
            forall j, k :: 0 <= j < k < |conditions| ==>
              Satisfied(conditions[j], input) || Satisfied(conditions[k], input)
  {
    AtMostOneFailure(conditions, input);
  }

  /** From the third rule of the first policy on, only presence matters. */
  lemma LaterRuleOfFirstPolicy(conditions: seq<Condition>, input: Input, counter: int)
    requires counter >= 3
    ensures ConditionsHold(conditions, input, counter, 1) <==> AllPresent(conditions, input)
  {
  }

  /** A missing attribute fails the list, whatever the rule's position. */
  lemma MissingAttributeFails(conditions: seq<Condition>, input: Input, counter: int, policyNum: int, k: int)
    requires 0 <= k < |conditions| && conditions[k].attribute !in input
    ensures !ConditionsHold(conditions, input, counter, policyNum)
  {
  }

  // ---------------------------------------------------------------------------
  // The condition-set evaluator

  /**
   * Walks the conditions in order, returning false at a missing attribute
   * or as soon as a failure exceeds the rule's tolerance.
   */
  method EvaluateConditions(conditions: seq<Condition>, input: Input, counter: int, policyNum: int)
    returns (holds: bool)
    ensures holds == ConditionsHold(conditions, input, counter, policyNum)
  {
    var keepTrack := 0;
    for i := 0 to |conditions|
      invariant AllPresent(conditions[..i], input)
      invariant keepTrack == (if policyNum == 1 then FailCount(conditions[..i], input) else 0)
      invariant Tolerance(counter, policyNum).Some? ==>
                  FailCount(conditions[..i], input) <= Tolerance(counter, policyNum).value
    {
      var condition := conditions[i];
      assert conditions[..i + 1][..i] == conditions[..i];
      if condition.attribute !in input {
        return false;
      }
      var value := input[condition.attribute];
      if !EvaluateCondition(condition.operator, value, condition.value) {
        if policyNum == 1 {
          keepTrack := keepTrack + 1;
          if counter == 2 && keepTrack == 2 {
            FailCountOfPrefix(conditions, input, i + 1);
            return false;
          }
          if counter == 1 {
            FailCountOfPrefix(conditions, input, i + 1);
            return false;
          }
        }
        if policyNum != 1 {
          FailCountOfPrefix(conditions, input, i + 1);
          return false;
        }
      }
    }
    assert conditions[..|conditions|] == conditions;
    return true;
  }

  // ---------------------------------------------------------------------------
  // Specification of the policy walk

  /**
   * Rule r of policy p (both 0-based) permits: its conditions hold at its
   * 1-based position and its effect is "permit".
   */
  predicate Permits(policySet: PolicySet, input: Input, p: int, r: int) {
    0 <= p < |policySet.policies| && 0 <= r < |policySet.policies[p].rules| &&
    var rule := policySet.policies[p].rules[r];
    ConditionsHold(rule.conditions, input, r + 1, p + 1) && rule.effect == "permit"
  }

  /** Policy-then-rule order. */
  predicate Precedes(p1: int, r1: int, p2: int, r2: int) {
    p1 < p2 || (p1 == p2 && r1 < r2)
  }

  /** Rule r of policy p permits and no rule before it does. */
  ghost predicate FirstPermit(policySet: PolicySet, input: Input, p: int, r: int) {
    Permits(policySet, input, p, r) &&
    forall p', r' :: Precedes(p', r', p, r) ==> !Permits(policySet, input, p', r')
  }

  /**
   * The decision the walk must reach: "permit" with the obligations of the
   * first permitting rule, or "deny" with no obligations when no rule
   * permits.
   */
  ghost predicate IsDecision(policySet: PolicySet, input: Input, decision: string, obligations: seq<Obligation>) {
    if exists p, r :: Permits(policySet, input, p, r) then
      decision == "permit" &&
      exists p, r :: FirstPermit(policySet, input, p, r) &&
                     obligations == policySet.policies[p].rules[r].obligations
    else
      decision == "deny" && obligations == []
  }

  /** At most one rule is the first to permit. */
  lemma FirstPermitUnique(policySet: PolicySet, input: Input, p1: int, r1: int, p2: int, r2: int)
    requires FirstPermit(policySet, input, p1, r1) && FirstPermit(policySet, input, p2, r2)
    ensures p1 == p2 && r1 == r2
  {
  }

  /** The decision is a function of the policy set and the input. */
  lemma DecisionUnique(policySet: PolicySet, input: Input,
                       d1: string, o1: seq<Obligation>, d2: string, o2: seq<Obligation>)
    requires IsDecision(policySet, input, d1, o1) && IsDecision(policySet, input, d2, o2)
    ensures d1 == d2 && o1 == o2
  {
    if exists p, r :: Permits(policySet, input, p, r) {
      var p1, r1 :| FirstPermit(policySet, input, p1, r1) &&
                    o1 == policySet.policies[p1].rules[r1].obligations;
      var p2, r2 :| FirstPermit(policySet, input, p2, r2) &&
                    o2 == policySet.policies[p2].rules[r2].obligations;
      FirstPermitUnique(policySet, input, p1, r1, p2, r2);
    }
  }

  /** A rule that permits with no permitting rule before it decides "permit" with its obligations. */
  lemma FirstPermitDecides(policySet: PolicySet, input: Input, p: int, r: int)
    requires Permits(policySet, input, p, r)
    requires forall p', r' :: Precedes(p', r', p, r) ==> !Permits(policySet, input, p', r')
    ensures IsDecision(policySet, input, "permit", policySet.policies[p].rules[r].obligations)
  {
    assert FirstPermit(policySet, input, p, r);
  }

  /** With no permitting rule anywhere, the decision is "deny" with no obligations. */
  lemma NoPermitDenies(policySet: PolicySet, input: Input)
    requires forall p, r :: 0 <= p < |policySet.policies| && 0 <= r < |policySet.policies[p].rules| ==>
               !Permits(policySet, input, p, r)
    ensures IsDecision(policySet, input, "deny", [])
  {
  }

  // ---------------------------------------------------------------------------
  // The policy walk

  /**
   * Visits policies in order and the rules of each policy in order,
   * returning at the first rule whose conditions hold and whose effect is
   * "permit"; a rule whose conditions hold with another effect lets the
   * walk go on.
   */
  method EvaluatePolicySet(policySet: PolicySet, input: Input)
    returns (decision: string, obligations: seq<Obligation>)
    ensures IsDecision(policySet, input, decision, obligations)
  {
    var policyNum := 0;
    for p := 0 to |policySet.policies|
      invariant policyNum == p
      invariant forall p', r' :: 0 <= p' < p ==> !Permits(policySet, input, p', r')
    {
      var policy := policySet.policies[p];
      policyNum := policyNum + 1;
      var counter := 0;
      for r := 0 to |policy.rules|
        invariant counter == r
        invariant forall p', r' :: 0 <= p' < p ==> !Permits(policySet, input, p', r')
        invariant forall r' :: 0 <= r' < r ==> !Permits(policySet, input, p, r')
      {
        var rule := policy.rules[r];
        counter := counter + 1;
        var holds := EvaluateConditions(rule.conditions, input, counter, policyNum);
        if holds {
          if rule.effect == "permit" {
            assert FirstPermit(policySet, input, p, r);
            return "permit", rule.obligations;
          }
        }
      }
    }
    return "deny", [];
  }
}
