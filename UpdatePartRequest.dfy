/**
 * The rules a part update must satisfy. They are the creation rules, but the
 * messages are English sentences rather than translation keys.
 */
module UpdatePartRequest {
  import Text
  import opened ValidationRules
  import StorePartRequest

  const MaxStringLength: nat := 255

  const Rules: RuleSet :=
    [ ("name", [Required, StringRule, Max(MaxStringLength)]),
      ("serialnumber", [Required, StringRule, Max(MaxStringLength)]),
      ("car_id", [Required, ExistsInCars]) ]

  const Messages: map<string, string> := map[
    "name.required" := "Part name is required",
    "name.max" := "Part name cannot exceed 255 characters",
    "serialnumber.required" := "Serial number is required",
    "serialnumber.max" := "Serial number cannot exceed 255 characters",
    "car_id.required" := "Car is required",
    "car_id.exists" := "Selected car does not exist"
  ]

  /** The request passes exactly when the error bag it answers with is empty. */
  predicate Passes(data: Request, carIds: set<nat>)
    ensures Passes(data, carIds) <==> Errors(Rules, Messages, data, carIds) == []
  {
    ErrorsEmptyIff(Rules, Messages, data, carIds);
    Accepts(Rules, data, carIds)
  }

  /** An update is checked exactly as a creation is, so it accepts the same requests. */
  lemma SameAsStore(data: Request, carIds: set<nat>)
    ensures Passes(data, carIds) <==> StorePartRequest.Passes(data, carIds)
    ensures Passes(data, carIds) <==>
              && FilledStringUpTo(Get(data, "name"), MaxStringLength)
              && FilledStringUpTo(Get(data, "serialnumber"), MaxStringLength)
              && StorePartRequest.CarIdOk(Get(data, "car_id"), carIds)
  {
    assert Rules == StorePartRequest.Rules;
    StorePartRequest.AcceptsIff(data, carIds);
  }

  /**
   * An over-long name yields an English sentence, not a translation key, so the
   * text the front end shows differs from the creation form's
   * `validation.partNameMax:255`.
   */
  lemma OverlongNameMessage(data: Request, carIds: set<nat>)
    requires "name" in data && data["name"].JString? && !Text.Blank(data["name"].s) && |data["name"].s| > MaxStringLength
    requires FilledStringUpTo(Get(data, "serialnumber"), MaxStringLength) && StorePartRequest.CarIdOk(Get(data, "car_id"), carIds)
    ensures Errors(Rules, Messages, data, carIds) == [("name", [Custom("Part name cannot exceed 255 characters")])]
  {
    assert Rules == StorePartRequest.Rules;
    StorePartRequest.OverlongFailures(Get(data, "name"), MaxStringLength, data, carIds);
    RequiredStringMax(Get(data, "serialnumber"), MaxStringLength, data, carIds);
    StorePartRequest.CarIdRulesIff(data, carIds);
    assert Rules[1..][1..] == [("car_id", StorePartRequest.CarIdRules)] && Rules[1..][1..][1..] == [];
    assert Errors(Rules[1..][1..], Messages, data, carIds) == [];
    assert Errors(Rules[1..], Messages, data, carIds) == [];
    assert "name" + "." + RuleName(Max(MaxStringLength)) == "name.max";
    var failed := FieldFailures("name", Rules[0].1, data, carIds);
    assert failed == [Max(MaxStringLength)];
    var msgs := seq(|failed|, i requires 0 <= i < |failed| => MessageFor("name", failed[i], Messages));
    assert msgs == [Custom("Part name cannot exceed 255 characters")];
  }
}
