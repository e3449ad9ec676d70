/**
 * The demonstration policy set (a service-access policy followed by a
 * fingerprint policy) and the decisions the engine reaches on the three
 * demonstration inputs and on two further requests.
 */
module Scenarios {
  import opened Parsing
  import opened Conditions
  import opened Engine

  const ServiceTarget := "request.service == \"service\""

  function ServiceAccess(): Policy {
    Policy("serviceAccess", [
      Rule("normalUserBehavior", ServiceTarget,
        [Condition("CurrentTime", ">", "08:00:00"),
         Condition("CurrentTime", "<", "18:00:00"),
         Condition("user.accessRate", "<", "database.accessRateThreshold")],
        "permit", []),
      Rule("atypicalUserBehavior", ServiceTarget,
        [Condition("CurrentTime", "<", "08:00:00"),
         Condition("CurrentTime", ">", "18:00:00"),
         Condition("user.accessRate", ">", "database.accessRateThreshold")],
        "permit", [AtypicalObligation()])
    ])
  }

  function AtypicalObligation(): Obligation {
    Obligation("apply_sfc", map[
      "sfc" := "ssf.mfa, ssf.ids",
      "ssf.mfa_action" := "two-factor authentication",
      "ssf.ids_action" := "anomaly detection"])
  }

  function Fingerprint(): Policy {
    Policy("fingerprint", [
      Rule("normalFingerprint", ServiceTarget,
        [Condition("device.fingerprint", "==", "database.savedFingerprint")], "permit", []),
      Rule("differentSerialNum", ServiceTarget,
        [Condition("device.serialNum", "!=", "database.savedSerialNum")], "deny", []),
      Rule("differentFingerprint", ServiceTarget,
        [Condition("device.fingerprint", "!=", "database.savedFingerprint")], "permit",
        [FingerprintObligation()])
    ])
  }

  function FingerprintObligation(): Obligation {
    Obligation("apply_sfc", map[
      "sfc" := "ssf_ips, ssf_logger",
      "ssf.ids_action" := "anomaly based intrusion detection",
      "ssf.logger_action" := "headerlogging"])
  }

  function Example(): PolicySet {
    PolicySet([ServiceAccess(), Fingerprint()])
  }

  function Request(time: string, rate: string): Input {
    map[
      "request.service" := "service",
      "CurrentTime" := time,
      "user.accessRate" := rate,
      "database.accessRateThreshold" := "10"]
  }

  /** The boundary request, also carrying a device serial number and fingerprint. */
  function DeviceRequest(): Input {
    Request("08:00:00", "5")["device.serialNum" := "SN-2"]["device.fingerprint" := "fp-9"]
  }

  lemma ClockReadings()
    ensures ParseTime("07:00:00") == Some(25200) && ParseTime("08:00:00") == Some(28800)
    ensures ParseTime("09:00:00") == Some(32400) && ParseTime("18:00:00") == Some(64800)
    ensures ParseTime("19:00:00") == Some(68400)
  {
  }

  /** Literal comparisons: times by the clock, integers by value. */
  lemma ComparisonExamples()
    ensures EvaluateCondition(">", "09:00:00", "08:00:00")
    ensures !EvaluateCondition(">", "07:00:00", "08:00:00")
    ensures EvaluateCondition(">", "12", "10")
    ensures EvaluateCondition("<", "5", "10")
  {
    ClockReadings();
    TimesCompareChronologically("09:00:00", "08:00:00");
    TimesCompareChronologically("07:00:00", "08:00:00");
    assert "12"[..1] == "1" && "10"[..1] == "1";
    ParseIntSigned("", "12");
    ParseIntSigned("", "10");
    ParseIntSigned("", "5");
    IntsCompareNumerically("12", "10");
    IntsCompareNumerically("5", "10");
  }

  /**
   * An expected value naming another attribute is compared as literal text,
   * which reads as neither a time nor an integer, so the condition holds
   * whatever the compared value is.
   */
  lemma AttributeNameAlwaysPasses(value: string, name: string, operator: string)
    requires name == "database.accessRateThreshold" || name == "database.savedSerialNum" ||
             name == "database.savedFingerprint"
    requires operator == ">" || operator == "<" || operator == "!="
    ensures EvaluateCondition(operator, value, name)
  {
    assert name[0] == 'd';
  }

  /** `normalUserBehavior` holds, between eight and six, at nine only. */
  lemma NormalUserBehavior(input: Input, time: string)
    requires "CurrentTime" in input && input["CurrentTime"] == time
    requires "user.accessRate" in input
    requires time == "07:00:00" || time == "08:00:00" || time == "09:00:00" || time == "19:00:00"
    ensures ConditionsHold(ServiceAccess().rules[0].conditions, input, 1, 1) <==> time == "09:00:00"
  {
    var conditions := ServiceAccess().rules[0].conditions;
    ClockReadings();
    AttributeNameAlwaysPasses(input["user.accessRate"], "database.accessRateThreshold", "<");
    StrictRule(conditions, input, 1, 1);
    if time == "09:00:00" {
      assert Satisfied(conditions[0], input) && Satisfied(conditions[1], input);
      assert Satisfied(conditions[2], input);
    } else if time == "19:00:00" {
      assert !Satisfied(conditions[1], input);
    } else {
      assert !Satisfied(conditions[0], input);
    }
  }

  /** `atypicalUserBehavior` tolerates one failure, so it holds before eight and after six. */
  lemma AtypicalUserBehavior(input: Input, time: string)
    requires "CurrentTime" in input && input["CurrentTime"] == time
    requires "user.accessRate" in input
    requires time == "07:00:00" || time == "08:00:00" || time == "09:00:00" || time == "19:00:00"
    ensures ConditionsHold(ServiceAccess().rules[1].conditions, input, 2, 1) <==>
            time == "07:00:00" || time == "19:00:00"
  {
    var conditions := ServiceAccess().rules[1].conditions;
    ClockReadings();
    AttributeNameAlwaysPasses(input["user.accessRate"], "database.accessRateThreshold", ">");
    SecondRuleOfFirstPolicy(conditions, input);
    assert Satisfied(conditions[2], input);
    if time == "07:00:00" {
      assert Satisfied(conditions[0], input);
    } else if time == "19:00:00" {
      assert Satisfied(conditions[1], input);
    } else {
      assert !Satisfied(conditions[0], input) && !Satisfied(conditions[1], input);
    }
  }

  /** The two rules of the service-access policy, as the clock decides them. */
  lemma ServiceRules(input: Input, time: string)
    requires "CurrentTime" in input && input["CurrentTime"] == time
    requires "user.accessRate" in input
    requires time == "07:00:00" || time == "08:00:00" || time == "09:00:00" || time == "19:00:00"
    ensures Permits(Example(), input, 0, 0) <==> time == "09:00:00"
    ensures Permits(Example(), input, 0, 1) <==> time == "07:00:00" || time == "19:00:00"
  {
    NormalUserBehavior(input, time);
    AtypicalUserBehavior(input, time);
  }

  /** At nine o'clock the first rule permits, with no obligations. */
  lemma DaytimeRequest()
    ensures IsDecision(Example(), Request("09:00:00", "5"), "permit", [])
  {
    ServiceRules(Request("09:00:00", "5"), "09:00:00");
    FirstPermitDecides(Example(), Request("09:00:00", "5"), 0, 0);
  }

  /**
   * At seven o'clock the first rule fails on its first condition; the
   * second rule fails only its `> 18:00:00` condition, which its position
   * tolerates, so it permits with its obligation.
   */
  lemma EarlyRequest()
    ensures IsDecision(Example(), Request("07:00:00", "12"), "permit", [AtypicalObligation()])
  {
    ServiceRules(Request("07:00:00", "12"), "07:00:00");
    FirstPermitDecides(Example(), Request("07:00:00", "12"), 0, 1);
  }

  /**
   * At seven in the evening the first rule fails on `< 18:00:00`; the
   * second rule fails only its `< 08:00:00` condition and permits with its
   * obligation.
   */
  lemma EveningRequest()
    ensures IsDecision(Example(), Request("19:00:00", "15"), "permit", [AtypicalObligation()])
  {
    ServiceRules(Request("19:00:00", "15"), "19:00:00");
    FirstPermitDecides(Example(), Request("19:00:00", "15"), 0, 1);
  }

  /**
   * At exactly eight o'clock the first policy fails: its first rule on the
   * strict `> 08:00:00`, its second rule on two failed conditions. The
   * request carries no device attributes, so every rule of the fingerprint
   * policy fails on a missing attribute and the request is denied.
   */
  lemma BoundaryRequestDenied()
    ensures IsDecision(Example(), Request("08:00:00", "5"), "deny", [])
  {
    var input := Request("08:00:00", "5");
    ServiceRules(input, "08:00:00");
    var fingerprint := Fingerprint().rules;
    MissingAttributeFails(fingerprint[0].conditions, input, 1, 2, 0);
    MissingAttributeFails(fingerprint[1].conditions, input, 2, 2, 0);
    MissingAttributeFails(fingerprint[2].conditions, input, 3, 2, 0);
    NoPermitDenies(Example(), input);
  }

  /**
   * A rule whose conditions hold with effect "deny" does not end the walk:
   * with the first policy failing as at the boundary, `differentSerialNum`
   * holds (the serial number is compared with the literal name of the saved
   * one) but denies, and `differentFingerprint` after it permits with its
   * obligation.
   */
  lemma DenyEffectDoesNotStop()
    ensures ConditionsHold(Fingerprint().rules[1].conditions, DeviceRequest(), 2, 2)
    ensures Fingerprint().rules[1].effect == "deny"
    ensures IsDecision(Example(), DeviceRequest(), "permit", [FingerprintObligation()])
  {
    var input := DeviceRequest();
    ServiceRules(input, "08:00:00");
    var fingerprint := Fingerprint().rules;
    assert "fp-9"[0] == 'f';
    StrictRule(fingerprint[0].conditions, input, 1, 2);
    StrictRule(fingerprint[1].conditions, input, 2, 2);
    StrictRule(fingerprint[2].conditions, input, 3, 2);
    AttributeNameAlwaysPasses("SN-2", "database.savedSerialNum", "!=");
    AttributeNameAlwaysPasses("fp-9", "database.savedFingerprint", "!=");
    assert !Satisfied(fingerprint[0].conditions[0], input);
    assert Satisfied(fingerprint[1].conditions[0], input);
    assert Satisfied(fingerprint[2].conditions[0], input);
    FirstPermitDecides(Example(), input, 1, 2);
  }
}
