/**
 * The rules a new part must satisfy: a name and a serial number of at most
 * 255 characters, and the id of a car that exists. The messages are
 * translation keys, resolved by the front end.
 */
module StorePartRequest {
  import opened Wrappers
  import Text
  import opened ValidationRules

  const MaxStringLength: nat := 255

  const NameRules: seq<Rule> := [Required, StringRule, Max(MaxStringLength)]

  const SerialNumberRules: seq<Rule> := [Required, StringRule, Max(MaxStringLength)]

  const CarIdRules: seq<Rule> := [Required, ExistsInCars]

  const Rules: RuleSet :=
    [("name", NameRules), ("serialnumber", SerialNumberRules), ("car_id", CarIdRules)]

  const Messages: map<string, string> := map[
    "name.required" := "validation.partNameRequired",
    "name.max" := "validation.partNameMax:255",
    "serialnumber.required" := "validation.serialNumberRequired",
    "serialnumber.max" := "validation.serialNumberMax:255",
    "car_id.required" := "validation.carRequired",
    "car_id.exists" := "validation.carNotExists"
  ]

  /**
   * The request passes exactly when the error bag it answers with is empty;
   * `carIds` are the ids in the cars table.
   */
  predicate Passes(data: Request, carIds: set<nat>)
    ensures Passes(data, carIds) <==> Errors(Rules, Messages, data, carIds) == []
  {
    ErrorsEmptyIff(Rules, Messages, data, carIds);
    Accepts(Rules, data, carIds)
  }

  /** `required|exists:cars,id`: a filled value naming a row of the cars table. */
  predicate CarIdOk(v: Option<Json>, carIds: set<nat>)
  {
    v.Some? && Filled(v.value) && IdOf(v.value).Some? && IdOf(v.value).value in carIds
  }

  lemma CarIdRulesIff(data: Request, carIds: set<nat>)
    ensures FieldFailures("car_id", CarIdRules, data, carIds) == [] <==> CarIdOk(Get(data, "car_id"), carIds)
  {
    var v := Get(data, "car_id");
    var rules := CarIdRules;
    NoFailuresIff(rules, rules, v, data, carIds);
    assert rules[0] == Required && rules[1] == ExistsInCars;
    assert Required in rules && ExistsInCars in rules && Nullable !in rules;
  }

  /** The rules in plain terms: two bounded, non-blank strings and an existing car. */
  lemma AcceptsIff(data: Request, carIds: set<nat>)
    ensures Passes(data, carIds) <==>
              && FilledStringUpTo(Get(data, "name"), MaxStringLength)
              && FilledStringUpTo(Get(data, "serialnumber"), MaxStringLength)
              && CarIdOk(Get(data, "car_id"), carIds)
  {
    RequiredStringMax(Get(data, "name"), MaxStringLength, data, carIds);
    RequiredStringMax(Get(data, "serialnumber"), MaxStringLength, data, carIds);
    CarIdRulesIff(data, carIds);
    assert Rules[0] == ("name", NameRules) && Rules[1] == ("serialnumber", SerialNumberRules);
    assert Rules[2] == ("car_id", CarIdRules);
  }

  /** A part without a car id, or with the id of no car, is refused. */
  lemma CarMustExist(data: Request, carIds: set<nat>)
    requires "car_id" !in data || (IdOf(data["car_id"]).Some? && IdOf(data["car_id"]).value !in carIds)
    ensures !Passes(data, carIds)
  {
    AcceptsIff(data, carIds);
  }

  /** The three failures of `required|string|max:n` on a present, non-blank string that is too long. */
  lemma OverlongFailures(v: Option<Json>, n: nat, data: Request, carIds: set<nat>)
    requires v.Some? && v.value.JString? && !Text.Blank(v.value.s) && |v.value.s| > n
    ensures var rules := [Required, StringRule, Max(n)];
            Failures(rules, rules, v, data, carIds, []) == [Max(n)]
  {
    var rules := [Required, StringRule, Max(n)];
    assert rules[1..] == [StringRule, Max(n)] && rules[1..][1..] == [Max(n)] && [Max(n)][1..] == [];
    calc {
      Failures(rules, rules, v, data, carIds, []);
      Failures([StringRule, Max(n)], rules, v, data, carIds, []);
      Failures([Max(n)], rules, v, data, carIds, []);
      Failures([], rules, v, data, carIds, [Max(n)]);
    }
  }

  /** An over-long name fails `max` alone, and its message is the key `validation.partNameMax:255`. */
  lemma OverlongNameMessage(data: Request, carIds: set<nat>)
    requires "name" in data && data["name"].JString? && !Text.Blank(data["name"].s) && |data["name"].s| > MaxStringLength
    requires FilledStringUpTo(Get(data, "serialnumber"), MaxStringLength) && CarIdOk(Get(data, "car_id"), carIds)
    ensures Errors(Rules, Messages, data, carIds) == [("name", [Custom("validation.partNameMax:255")])]
  {
    OverlongFailures(Get(data, "name"), MaxStringLength, data, carIds);
    RequiredStringMax(Get(data, "serialnumber"), MaxStringLength, data, carIds);
    CarIdRulesIff(data, carIds);
    assert Rules[1..] == [("serialnumber", SerialNumberRules), ("car_id", CarIdRules)];
    assert Rules[1..][1..] == [("car_id", CarIdRules)] && Rules[1..][1..][1..] == [];
    assert Errors(Rules[1..][1..], Messages, data, carIds) == [];
    assert Errors(Rules[1..], Messages, data, carIds) == [];
    assert "name" + "." + RuleName(Max(MaxStringLength)) == "name.max";
    var failed := FieldFailures("name", NameRules, data, carIds);
    assert failed == [Max(MaxStringLength)];
    var msgs := seq(|failed|, i requires 0 <= i < |failed| => MessageFor("name", failed[i], Messages));
    assert msgs == [Custom("validation.partNameMax:255")];
  }

  /** An over-long serial number fails `max` alone, and its message is `validation.serialNumberMax:255`. */
  lemma OverlongSerialNumberMessage(data: Request, carIds: set<nat>)
    requires "serialnumber" in data && data["serialnumber"].JString? && !Text.Blank(data["serialnumber"].s)
    requires |data["serialnumber"].s| > MaxStringLength
    requires FilledStringUpTo(Get(data, "name"), MaxStringLength) && CarIdOk(Get(data, "car_id"), carIds)
    ensures Errors(Rules, Messages, data, carIds) == [("serialnumber", [Custom("validation.serialNumberMax:255")])]
  {
    RequiredStringMax(Get(data, "name"), MaxStringLength, data, carIds);
    OverlongFailures(Get(data, "serialnumber"), MaxStringLength, data, carIds);
    CarIdRulesIff(data, carIds);
    assert Rules[1..] == [("serialnumber", SerialNumberRules), ("car_id", CarIdRules)];
    assert Rules[1..][1..] == [("car_id", CarIdRules)] && Rules[1..][1..][1..] == [];
    assert Errors(Rules[1..][1..], Messages, data, carIds) == [];
    assert "serialnumber" + "." + RuleName(Max(MaxStringLength)) == "serialnumber.max";
    var failed := FieldFailures("serialnumber", SerialNumberRules, data, carIds);
    assert failed == [Max(MaxStringLength)];
    var msgs := seq(|failed|, i requires 0 <= i < |failed| => MessageFor("serialnumber", failed[i], Messages));
    assert msgs == [Custom("validation.serialNumberMax:255")];
    assert Errors(Rules[1..], Messages, data, carIds) == [("serialnumber", msgs)];
  }

  /** A name of exactly 255 characters is accepted and one of 256 is not. */
  lemma NameLengthBoundary(data: Request, carIds: set<nat>, name: string)
    requires (|name| == MaxStringLength || |name| == MaxStringLength + 1) && !Text.IsTrimmed(name[0])
    requires FilledStringUpTo(Get(data, "serialnumber"), MaxStringLength) && CarIdOk(Get(data, "car_id"), carIds)
    ensures Passes(data["name" := JString(name)], carIds) <==> |name| == MaxStringLength
  {
    var d := data["name" := JString(name)];
    assert Get(d, "serialnumber") == Get(data, "serialnumber") && Get(d, "car_id") == Get(data, "car_id");
    AcceptsIff(d, carIds);
  }
}
