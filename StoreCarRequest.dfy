/**
 * The rules a new car must satisfy: a name, a registration number in the
 * format AA000XX that is required once the car is registered, and a boolean
 * registration flag.
 */
module StoreCarRequest {
  import opened Wrappers
  import Text
  import opened ValidationRules

  const RegistrationNumberMaxLength: nat := 7

  /** `/^[A-Z]{2}[0-9]{3}[A-Z]{2}$/` */
  const RegistrationNumberPattern: seq<Run> := [Run(UpperLetter, 2), Run(Digit, 3), Run(UpperLetter, 2)]

  const NameRules: seq<Rule> := [Required, StringRule, Max(255)]

  const RegistrationNumberRules: seq<Rule> :=
    [RequiredIf("is_registered", "true", true), Nullable, StringRule, Max(RegistrationNumberMaxLength), Regex(RegistrationNumberPattern)]

  const IsRegisteredRules: seq<Rule> := [BooleanRule]

  const Rules: RuleSet :=
    [("name", NameRules), ("registration_number", RegistrationNumberRules), ("is_registered", IsRegisteredRules)]

  const Messages: map<string, string> := map[
    "name.required" := "Car name is required",
    "registration_number.required_if" := "Registration number is required for registered cars",
    "registration_number.max" := "Registration number cannot exceed 7 characters",
    "registration_number.regex" := "Registration number must be in format AA000XX (2 letters, 3 digits, 2 letters)"
  ]

  /** The request passes exactly when the error bag it answers with is empty. */
  predicate Passes(data: Request)
    ensures Passes(data) <==> Errors(Rules, Messages, data, {}) == []
  {
    ErrorsEmptyIff(Rules, Messages, data, {});
    Accepts(Rules, data, {})
  }

  /**
   * `required_if:is_registered,true` applies: the flag is present and, since it
   * has the `boolean` rule, converts to true (true, 1, "1", any other non-empty
   * string but "0").
   */
  predicate RegistrationRequired(data: Request)
  {
    "is_registered" in data && ToBool(data["is_registered"])
  }

  /** The `required_if` of the registration number reads its parameter as a boolean, as its other field has the `boolean` rule. */
  lemma ConversionsAgreeHere()
    ensures ConversionsAgree(Rules)
  {
    assert RegistrationNumberRules[0].RequiredIf? && Rules[2].0 == "is_registered" && BooleanRule in Rules[2].1;
    forall i, r | 0 <= i < |Rules| && r in Rules[i].1 && r.RequiredIf?
      ensures r == RegistrationNumberRules[0]
    {
    }
  }

  /** A value `boolean` accepts; an absent or blank field is not checked. */
  predicate IsRegisteredOk(v: Option<Json>)
  {
    || v.None?
    || (v.value.JString? && Text.Blank(v.value.s))
    || v.value in {JBool(true), JBool(false), JInt(0), JInt(1), JString("0"), JString("1")}
  }

  /** A registration number of the form AA000XX: two capitals, three digits, two capitals. */
  predicate WellFormedNumber(s: string)
  {
    && |s| == 7
    && Text.IsUpperLetter(s[0]) && Text.IsUpperLetter(s[1])
    && Text.IsDigit(s[2]) && Text.IsDigit(s[3]) && Text.IsDigit(s[4])
    && Text.IsUpperLetter(s[5]) && Text.IsUpperLetter(s[6])
  }

  /** The registration number rules in plain terms. */
  predicate RegistrationNumberOk(data: Request)
  {
    var v := Get(data, "registration_number");
    && (RegistrationRequired(data) ==> v.Some? && Filled(v.value))
    && (v.Some? && Checked(v.value) ==>
          v.value.JString? && |v.value.s| <= RegistrationNumberMaxLength && PregMatch(RegistrationNumberPattern, v.value.s))
  }

  lemma LastRun(u: string)
    ensures MatchesRuns(u, [Run(UpperLetter, 2)]) <==> |u| == 2 && Text.IsUpperLetter(u[0]) && Text.IsUpperLetter(u[1])
  {
    assert [Run(UpperLetter, 2)][1..] == [];
  }

  lemma DigitsThenLetters(v: string)
    ensures MatchesRuns(v, [Run(Digit, 3), Run(UpperLetter, 2)]) <==>
              && |v| == 5 && Text.IsDigit(v[0]) && Text.IsDigit(v[1]) && Text.IsDigit(v[2])
              && Text.IsUpperLetter(v[3]) && Text.IsUpperLetter(v[4])
  {
    assert [Run(Digit, 3), Run(UpperLetter, 2)][1..] == [Run(UpperLetter, 2)];
    if |v| >= 3 {
      LastRun(v[3..]);
    }
  }

  lemma WellFormedIffRuns(t: string)
    ensures MatchesRuns(t, RegistrationNumberPattern) <==> WellFormedNumber(t)
  {
    var p := RegistrationNumberPattern;
    assert p[1..] == [Run(Digit, 3), Run(UpperLetter, 2)];
    if |t| >= 2 {
      DigitsThenLetters(t[2..]);
    }
  }

  /** The pattern by itself matches exactly the well-formed numbers, and those followed by one newline. */
  lemma PatternMatches(s: string)
    ensures MatchesRuns(s, RegistrationNumberPattern) <==> WellFormedNumber(s)
    ensures PregMatch(RegistrationNumberPattern, s) <==>
              WellFormedNumber(s) || (|s| == 8 && s[7] == '\n' && WellFormedNumber(s[..7]))
  {
    WellFormedIffRuns(s);
    if |s| > 0 {
      WellFormedIffRuns(s[..|s| - 1]);
    }
  }

  lemma RegistrationNumberRulesIff(data: Request)
    ensures FieldFailures("registration_number", RegistrationNumberRules, data, {}) == [] <==> RegistrationNumberOk(data)
  {
    var v := Get(data, "registration_number");
    var rules := RegistrationNumberRules;
    NoFailuresIff(rules, rules, v, data, {});
    if AllPass(rules, rules, v, data, {}) {
      AllPassGivesOk(data);
    }
    if RegistrationNumberOk(data) {
      OkGivesAllPass(data);
    }
  }

  lemma AllPassGivesOk(data: Request)
    requires AllPass(RegistrationNumberRules, RegistrationNumberRules, Get(data, "registration_number"), data, {})
    ensures RegistrationNumberOk(data)
  {
    var v := Get(data, "registration_number");
    var rules := RegistrationNumberRules;
    assert rules[0] in rules && Runs(rules[0], v, rules, []);
    if v.Some? && Checked(v.value) {
      assert rules[2] in rules && rules[3] in rules && rules[4] in rules;
      assert Runs(rules[2], v, rules, []) && Runs(rules[3], v, rules, []) && Runs(rules[4], v, rules, []);
    }
  }

  lemma OkGivesAllPass(data: Request)
    requires RegistrationNumberOk(data)
    ensures AllPass(RegistrationNumberRules, RegistrationNumberRules, Get(data, "registration_number"), data, {})
  {
    var v := Get(data, "registration_number");
    var rules := RegistrationNumberRules;
    forall r | r in rules && Runs(r, v, rules, [])
      ensures RulePasses(r, v, data, {})
    {
      assert r == rules[0] || r == rules[1] || r == rules[2] || r == rules[3] || r == rules[4];
    }
  }

  lemma IsRegisteredRulesIff(data: Request)
    ensures FieldFailures("is_registered", IsRegisteredRules, data, {}) == [] <==> IsRegisteredOk(Get(data, "is_registered"))
  {
    NoFailuresIff(IsRegisteredRules, IsRegisteredRules, Get(data, "is_registered"), data, {});
    assert BooleanRule in IsRegisteredRules && Nullable !in IsRegisteredRules;
  }

  /** Each field's rules, stated as the properties above. */
  lemma AcceptsIff(data: Request)
    ensures Passes(data) <==>
              FilledStringUpTo(Get(data, "name"), 255) && RegistrationNumberOk(data) && IsRegisteredOk(Get(data, "is_registered"))
  {
    RequiredStringMax(Get(data, "name"), 255, data, {});
    RegistrationNumberRulesIff(data);
    IsRegisteredRulesIff(data);
    assert Rules[0] == ("name", NameRules) && Rules[1] == ("registration_number", RegistrationNumberRules);
    assert Rules[2] == ("is_registered", IsRegisteredRules);
  }

  /** Every non-blank registration number that is accepted has the form AA000XX, exactly 7 characters. */
  lemma AcceptedNumberIsWellFormed(data: Request, s: string)
    requires Passes(data)
    requires Get(data, "registration_number") == Some(JString(s)) && !Text.Blank(s)
    ensures WellFormedNumber(s)
  {
    AcceptsIff(data);
    PatternMatches(s);
  }

  /** An accepted request names the car with a non-blank string of at most 255 characters. */
  lemma AcceptedNameBounded(data: Request)
    requires Passes(data)
    ensures FilledStringUpTo(Get(data, "name"), 255)
  {
    AcceptsIff(data);
  }

  /** A car whose flag reads true (true, 1 or "1") needs a well-formed registration number. */
  lemma RegisteredNeedsNumber(data: Request)
    requires Passes(data) && "is_registered" in data && ToBool(data["is_registered"])
    ensures "registration_number" in data && data["registration_number"].JString?
    ensures WellFormedNumber(data["registration_number"].s)
  {
    AcceptsIff(data);
    AcceptedNumberIsWellFormed(data, data["registration_number"].s);
  }

  /** An unregistered car may leave the registration number out or send null. */
  lemma UnregisteredMayOmitNumber(data: Request)
    requires FilledStringUpTo(Get(data, "name"), 255)
    requires Get(data, "is_registered") == Some(JBool(false))
    requires Get(data, "registration_number") in {None, Some(JNull)}
    ensures Passes(data)
  {
    AcceptsIff(data);
  }

  /**
   * The pattern alone would let a number with a trailing newline through,
   * since PCRE's `$` matches before a final newline; the 7-character limit is
   * what rejects it.
   */
  lemma MaxLengthClosesNewlineGap()
    ensures PregMatch(RegistrationNumberPattern, "AB123CD\n")
    ensures !Passes(map["name" := JString("Car"), "is_registered" := JBool(true), "registration_number" := JString("AB123CD\n")])
  {
    PatternMatches("AB123CD\n");
    assert "AB123CD\n"[..7] == "AB123CD";
    AcceptsIff(map["name" := JString("Car"), "is_registered" := JBool(true), "registration_number" := JString("AB123CD\n")]);
  }

  function RegisteredCar(number: string): Request
  {
    map["name" := JString("Test Car"), "is_registered" := JBool(true), "registration_number" := JString(number)]
  }

  /** For a registered car, the number decides: it is accepted exactly when it has the form AA000XX. */
  lemma RegisteredCarIff(n: string)
    ensures Passes(RegisteredCar(n)) <==> WellFormedNumber(n)
  {
    var data := RegisteredCar(n);
    AcceptsIff(data);
    PatternMatches(n);
    assert !Text.Blank("Test Car") by {
      assert !Text.IsTrimmed("Test Car"[0]);
    }
    assert WellFormedNumber(n) ==> !Text.Blank(n) by {
      if WellFormedNumber(n) {
        assert !Text.IsTrimmed(n[0]);
      }
    }
  }

  /** Numbers the controller tests send when creating a registered car. */
  lemma NumberExamples()
    ensures Passes(RegisteredCar("XY789ZW")) && Passes(RegisteredCar("AB123CD"))
    ensures !Passes(RegisteredCar("INVALID123")) && !Passes(RegisteredCar("AB1234CD"))
    ensures !Passes(RegisteredCar("AB12CD")) && !Passes(RegisteredCar("ab123cd"))
  {
    RegisteredCarIff("XY789ZW");
    RegisteredCarIff("AB123CD");
    RegisteredCarIff("INVALID123");
    RegisteredCarIff("AB1234CD");
    RegisteredCarIff("AB12CD");
    RegisteredCarIff("ab123cd");
  }
}
