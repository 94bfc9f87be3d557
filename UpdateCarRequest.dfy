/**
 * The rules a car update must satisfy. They differ from the creation rules:
 * the registration number is any string of at most 255 characters, with no
 * format check, and only two messages are customised.
 */
module UpdateCarRequest {
  import opened Wrappers
  import Text
  import opened ValidationRules
  import StoreCarRequest

  const NameRules: seq<Rule> := [Required, StringRule, Max(255)]

  const RegistrationNumberRules: seq<Rule> := [RequiredIf("is_registered", "true", true), Nullable, StringRule, Max(255)]

  const IsRegisteredRules: seq<Rule> := [BooleanRule]

  const Rules: RuleSet :=
    [("name", NameRules), ("registration_number", RegistrationNumberRules), ("is_registered", IsRegisteredRules)]

  const Messages: map<string, string> := map[
    "name.required" := "Car name is required",
    "registration_number.required_if" := "Registration number is required for registered cars"
  ]

  /** The request passes exactly when the error bag it answers with is empty. */
  predicate Passes(data: Request)
    ensures Passes(data) <==> Errors(Rules, Messages, data, {}) == []
  {
    ErrorsEmptyIff(Rules, Messages, data, {});
    Accepts(Rules, data, {})
  }

  /** As on creation, the `required_if` reads "true" as a boolean: `is_registered` has the `boolean` rule. */
  lemma ConversionsAgreeHere()
    ensures ConversionsAgree(Rules)
  {
    assert Rules[2] == ("is_registered", [BooleanRule]);
    forall i, r | 0 <= i < |Rules| && r in Rules[i].1 && r.RequiredIf?
      ensures i == 1 && r == RequiredIf("is_registered", "true", true)
    {
    }
  }

  /** The update rules for the registration number in plain terms: no format, 255 characters. */
  predicate RegistrationNumberOk(data: Request)
  {
    var v := Get(data, "registration_number");
    && (StoreCarRequest.RegistrationRequired(data) ==> v.Some? && Filled(v.value))
    && (v.Some? && Checked(v.value) ==> v.value.JString? && |v.value.s| <= 255)
  }

  lemma RegistrationNumberRulesIff(data: Request)
    ensures FieldFailures("registration_number", RegistrationNumberRules, data, {}) == [] <==> RegistrationNumberOk(data)
  {
    var v := Get(data, "registration_number");
    var rules := RegistrationNumberRules;
    NoFailuresIff(rules, rules, v, data, {});
    if AllPass(rules, rules, v, data, {}) {
      AllPassGivesOk(data);
    }
    if RegistrationNumberOk(data) {
      OkGivesAllPass(data);
    }
  }

  lemma AllPassGivesOk(data: Request)
    requires AllPass(RegistrationNumberRules, RegistrationNumberRules, Get(data, "registration_number"), data, {})
    ensures RegistrationNumberOk(data)
  {
    var v := Get(data, "registration_number");
    var rules := RegistrationNumberRules;
    assert rules[0] in rules && Runs(rules[0], v, rules, []);
    if v.Some? && Checked(v.value) {
      assert rules[2] in rules && rules[3] in rules;
      assert Runs(rules[2], v, rules, []) && Runs(rules[3], v, rules, []);
    }
  }

  lemma OkGivesAllPass(data: Request)
    requires RegistrationNumberOk(data)
    ensures AllPass(RegistrationNumberRules, RegistrationNumberRules, Get(data, "registration_number"), data, {})
  {
    var v := Get(data, "registration_number");
    var rules := RegistrationNumberRules;
    forall r | r in rules && Runs(r, v, rules, [])
      ensures RulePasses(r, v, data, {})
    {
      assert r == rules[0] || r == rules[1] || r == rules[2] || r == rules[3];
    }
  }

  /** Each field's rules, stated as the properties above. */
  lemma AcceptsIff(data: Request)
    ensures Passes(data) <==>
              && FilledStringUpTo(Get(data, "name"), 255)
              && RegistrationNumberOk(data)
              && StoreCarRequest.IsRegisteredOk(Get(data, "is_registered"))
  {
    RequiredStringMax(Get(data, "name"), 255, data, {});
    RegistrationNumberRulesIff(data);
    StoreCarRequest.IsRegisteredRulesIff(data);
    assert IsRegisteredRules == StoreCarRequest.IsRegisteredRules;
    assert Rules[0] == ("name", NameRules) && Rules[1] == ("registration_number", RegistrationNumberRules);
    assert Rules[2] == ("is_registered", IsRegisteredRules);
  }

  /** A registered car keeps needing a registration number on update: a non-blank string of at most 255 characters. */
  lemma RegisteredNeedsNumber(data: Request)
    requires Passes(data) && "is_registered" in data && ToBool(data["is_registered"])
    ensures FilledStringUpTo(Get(data, "registration_number"), 255)
  {
    AcceptsIff(data);
  }

  /** An unregistered car may set the registration number to null. */
  lemma UnregisteredMayClearNumber(data: Request)
    requires FilledStringUpTo(Get(data, "name"), 255)
    requires Get(data, "is_registered") == Some(JBool(false))
    requires Get(data, "registration_number") == Some(JNull)
    ensures Passes(data)
  {
    AcceptsIff(data);
  }

  /**
   * Any registration number of at most 255 characters is accepted on update,
   * so a number that creation would refuse gets through: the controller tests
   * expect `INVALID` and `AB1234CD` to be refused here as they are on creation.
   */
  lemma UpdateSkipsFormat(n: string)
    requires |n| <= 255 && !Text.Blank(n)
    ensures Passes(StoreCarRequest.RegisteredCar(n))
    ensures !StoreCarRequest.WellFormedNumber(n) ==> !StoreCarRequest.Passes(StoreCarRequest.RegisteredCar(n))
  {
    var data := StoreCarRequest.RegisteredCar(n);
    AcceptsIff(data);
    StoreCarRequest.RegisteredCarIff(n);
    assert !Text.Blank("Test Car") by {
      assert !Text.IsTrimmed("Test Car"[0]);
    }
  }

  lemma UpdateExamples()
    ensures Passes(StoreCarRequest.RegisteredCar("INVALID")) && !StoreCarRequest.Passes(StoreCarRequest.RegisteredCar("INVALID"))
    ensures Passes(StoreCarRequest.RegisteredCar("AB1234CD")) && !StoreCarRequest.Passes(StoreCarRequest.RegisteredCar("AB1234CD"))
  {
    assert !Text.IsTrimmed("INVALID"[0]) && !Text.IsTrimmed("AB1234CD"[0]);
    UpdateSkipsFormat("INVALID");
    UpdateSkipsFormat("AB1234CD");
  }
}
