/**
 * The condition evaluator: one attribute value against one expected value
 * under one operator. Ordering operators coerce both operands, first to a
 * time of day, then to an integer, and fail open when neither coercion
 * applies to both.
 */
module Conditions {
  import opened Parsing

  predicate BothTimes(value: string, expected: string) {
    ParseTime(value).Some? && ParseTime(expected).Some?
  }

  predicate BothInts(value: string, expected: string) {
    ParseInt(value).Some? && ParseInt(expected).Some?
  }

  predicate IsKnownOperator(operator: string) {
    operator == "==" || operator == ">" || operator == "<" || operator == "!="
  }

  /**
   * Type-sensitive comparison. Times are tried first, and only `>` and `<`
   * are decided on times; every other case falls through to the integer
   * reading. The result is false only when a recognised operator was
   * decided on two comparable operands: everything else holds.
   */
  function CompareValues(value: string, expected: string, operator: string): (r: bool)
    ensures !r ==> (BothTimes(value, expected) && (operator == ">" || operator == "<"))
                   || (BothInts(value, expected) && IsKnownOperator(operator))
  {
    var valTime, expTime := ParseTime(value), ParseTime(expected);
    if valTime.Some? && expTime.Some? && operator == ">" then
      valTime.value > expTime.value
    else if valTime.Some? && expTime.Some? && operator == "<" then
      valTime.value < expTime.value
    else
      var valInt, expInt := ParseInt(value), ParseInt(expected);
      if valInt.Some? && expInt.Some? then
        if operator == "==" then valInt.value == expInt.value
        else if operator == ">" then valInt.value > expInt.value
        else if operator == "<" then valInt.value < expInt.value
        else if operator == "!=" then valInt.value != expInt.value
        else true
      else
        true
  }

  /** Dispatch on the operator; `==` never coerces its operands. */
  function EvaluateCondition(operator: string, value: string, expected: string): (r: bool)
    ensures operator == "==" ==> (r <==> value == expected)
    ensures r ==> IsKnownOperator(operator)
  {
    if operator == "==" then
      value == expected
    else if operator == ">" || operator == "<" || operator == "!=" then
      CompareValues(value, expected, operator)
    else
      false
  }

  /** Two times are ordered chronologically by `>` and `<`. */
  lemma TimesCompareChronologically(value: string, expected: string)
    requires BothTimes(value, expected)
    ensures EvaluateCondition(">", value, expected) <==> ParseTime(value).value > ParseTime(expected).value
    ensures EvaluateCondition("<", value, expected) <==> ParseTime(value).value < ParseTime(expected).value
  {
  }

  /**
   * Two integers are compared numerically by every operator, so the time
   * reading never gets in the way.
   */
  lemma IntsCompareNumerically(value: string, expected: string)
    requires BothInts(value, expected)
    ensures CompareValues(value, expected, "==") <==> ParseInt(value).value == ParseInt(expected).value
    ensures EvaluateCondition(">", value, expected) <==> ParseInt(value).value > ParseInt(expected).value
    ensures EvaluateCondition("<", value, expected) <==> ParseInt(value).value < ParseInt(expected).value
    ensures EvaluateCondition("!=", value, expected) <==> ParseInt(value).value != ParseInt(expected).value
  {
  }

  /** Equal integers satisfy neither strict ordering. */
  lemma EqualIntsAreUnordered(value: string, expected: string)
    requires BothInts(value, expected) && ParseInt(value).value == ParseInt(expected).value
    ensures !EvaluateCondition(">", value, expected) && !EvaluateCondition("<", value, expected)
  {
  }

  /**
   * `!=` is never decided on times: two times never read as integers, so
   * the comparison falls through to the permissive result, even for two
   * identical times.
   */
  lemma NotEqualOnTimesHolds(value: string, expected: string)
    requires BothTimes(value, expected)
    ensures EvaluateCondition("!=", value, expected)
  {
  }

  /** Operands that are neither both times nor both integers always compare true. */
  lemma IncomparableHolds(value: string, expected: string, operator: string)
    requires !BothTimes(value, expected) && !BothInts(value, expected)
    requires operator == ">" || operator == "<" || operator == "!="
    ensures EvaluateCondition(operator, value, expected)
  {
  }
}
