/**
 * The part of Laravel's validator the four form requests rely on: a request
 * body, the rules `required`, `required_if`, `nullable`, `string`, `max`,
 * `regex`, `boolean` and `exists:cars,id`, the order in which one field's
 * rules run, which of them are skipped, and the message chosen for a failure.
 */
module ValidationRules {
  import opened Wrappers
  import Text

  /**
   * A value of the JSON request body. PHP decodes a JSON array or object to an
   * array; the rules here only read how many entries it has.
   */
  datatype Json = JNull | JBool(b: bool) | JInt(i: int) | JString(s: string) | JArray(count: nat)

  /** The request body: field name to value; a missing key is an absent field. */
  type Request = map<string, Json>

  function Get(data: Request, field: string): Option<Json>
  {
    if field in data then Some(data[field]) else None
  }

  /** Character classes and fixed-length runs: enough for `^[A-Z]{2}[0-9]{3}[A-Z]{2}$`. */
  datatype CharClass = UpperLetter | Digit
  datatype Run = Run(cls: CharClass, count: nat)

  predicate InClass(c: char, cls: CharClass)
  {
    match cls
    case UpperLetter => Text.IsUpperLetter(c)
    case Digit => Text.IsDigit(c)
  }

  /** `s` is exactly the runs of `pattern`, one after the other. */
  predicate MatchesRuns(s: string, pattern: seq<Run>)
    decreases |pattern|
  {
    if pattern == [] then s == []
    else
      var n := pattern[0].count;
      && n <= |s|
      && (forall i :: 0 <= i < n ==> InClass(s[i], pattern[0].cls))
      && MatchesRuns(s[n..], pattern[1..])
  }

  /** `preg_match('/^...$/', $s)`: PCRE's `$` also matches just before a final newline. */
  predicate PregMatch(pattern: seq<Run>, s: string)
  {
    || MatchesRuns(s, pattern)
    || (|s| > 0 && s[|s| - 1] == '\n' && MatchesRuns(s[..|s| - 1], pattern))
  }

  datatype Rule =
    | Required
    | RequiredIf(other: string, value: string, convertsToBoolean: bool)
    | Nullable
    | StringRule
    | Max(n: nat)
    | Regex(pattern: seq<Run>)
    | BooleanRule
    | ExistsInCars

  /** The rule's name as it appears in a `field.rule` message key. */
  function RuleName(r: Rule): string
  {
    match r
    case Required => "required"
    case RequiredIf(_, _, _) => "required_if"
    case Nullable => "nullable"
    case StringRule => "string"
    case Max(_) => "max"
    case Regex(_) => "regex"
    case BooleanRule => "boolean"
    case ExistsInCars => "exists"
  }

  /** Implicit rules run even on an absent or blank field, and stop the field's checks when they fail. */
  predicate IsImplicit(r: Rule)
  {
    r.Required? || r.RequiredIf?
  }

  /** Neither null nor a string that trims to '': the non-implicit rules of a `nullable` field run on it. */
  predicate Checked(v: Json)
  {
    !v.JNull? && !(v.JString? && Text.Blank(v.s))
  }

  /** `validateRequired`: not null, not a string that trims to '' and not an empty array. */
  predicate Filled(v: Json)
  {
    Checked(v) && !(v.JArray? && v.count == 0)
  }

  /** `getSize` without a numeric rule: string length, entry count, or the length of the value printed. */
  function Size(v: Json): nat
  {
    match v
    case JString(s) => |s|
    case JInt(i) => |Text.IntToString(i)|
    case JBool(b) => if b then 1 else 0
    case JNull => 0
    case JArray(n) => n
  }

  /**
   * The car id a value names when compared with the integer column `cars.id`.
   * The connection binds a boolean as the integer 1 or 0.
   */
  function IdOf(v: Json): Option<nat>
  {
    match v
    case JInt(i) => if i >= 0 then Some(i) else None
    case JBool(b) => Some(if b then 1 else 0)
    case JString(s) => if s != [] && Text.AllDigits(s) then Some(Text.DigitsValue(s)) else None
    case _ => None
  }

  /** PHP's conversion to bool: false, 0, '', "0", an empty array and null are false. */
  predicate ToBool(v: Json)
  {
    match v
    case JNull => false
    case JBool(b) => b
    case JInt(i) => i != 0
    case JString(s) => s != "" && s != "0"
    case JArray(n) => n != 0
  }

  /**
   * `required_if:other,value`'s test of the other field's value `o`
   * (`parseDependentRuleParameters` and `in_array`). The parameters "true" and
   * "false" become booleans when `other` has the `boolean` rule or holds a
   * boolean; "null" (in any case) becomes null when `other` is null. A boolean
   * or null `o` is compared strictly, anything else loosely.
   */
  predicate DependentMatches(o: Json, value: string, convertsToBoolean: bool)
  {
    if (convertsToBoolean || o.JBool?) && (value == "true" || value == "false") then
      !o.JNull? && ToBool(o) == (value == "true")
    else
      match o
      case JNull => Text.Lower(value) == "null"
      case JBool(_) => false
      case JInt(i) => Text.IntToString(i) == value
      case JString(s) => s == value
      case JArray(_) => false
  }

  /** The boolean reading of "true": the other field's value converts to true. */
  lemma DependentMatchesTrue(o: Json)
    ensures DependentMatches(o, "true", true) <==> ToBool(o)
  {
  }

  /** Does the rule accept the field's value? */
  predicate RulePasses(r: Rule, v: Option<Json>, data: Request, carIds: set<nat>)
  {
    match r
    case Required => v.Some? && Filled(v.value)
    case RequiredIf(other, value, convertsToBoolean) =>
      other !in data || !DependentMatches(data[other], value, convertsToBoolean) || (v.Some? && Filled(v.value))
    case Nullable => true
    case StringRule => v.Some? && v.value.JString?
    case Max(n) => v.Some? && Size(v.value) <= n
    case Regex(p) =>
      v.Some? && (match v.value
        case JString(s) => PregMatch(p, s)
        case JInt(i) => PregMatch(p, Text.IntToString(i))
        case _ => false)
    case BooleanRule =>
      v.Some? && v.value in {JBool(true), JBool(false), JInt(0), JInt(1), JString("0"), JString("1")}
    case ExistsInCars => v.Some? && IdOf(v.value).Some? && IdOf(v.value).value in carIds
  }

  /**
   * `isValidatable`: a non-implicit rule is skipped on an absent or blank field,
   * on null when the field is `nullable`, and `exists` after an earlier failure.
   */
  predicate Runs(r: Rule, v: Option<Json>, fieldRules: seq<Rule>, failedSoFar: seq<Rule>)
  {
    && (IsImplicit(r) || (v.Some? && !(v.value.JString? && Text.Blank(v.value.s))))
    && (IsImplicit(r) || Nullable !in fieldRules || !(v.Some? && v.value.JNull?))
    && (!r.ExistsInCars? || failedSoFar == [])
  }

  /** The rules of one field that failed, run in order until an implicit one fails. */
  function Failures(todo: seq<Rule>, fieldRules: seq<Rule>, v: Option<Json>, data: Request, carIds: set<nat>, failed: seq<Rule>): seq<Rule>
    decreases |todo|
  {
    if todo == [] then failed
    else
      var r := todo[0];
      var fails := Runs(r, v, fieldRules, failed) && !RulePasses(r, v, data, carIds);
      var failed' := if fails then failed + [r] else failed;
      if fails && IsImplicit(r) then failed'
      else Failures(todo[1..], fieldRules, v, data, carIds, failed')
  }

  /** The failed rules of field `field` under `rules`. */
  function FieldFailures(field: string, rules: seq<Rule>, data: Request, carIds: set<nat>): seq<Rule>
  {
    Failures(rules, rules, Get(data, field), data, carIds, [])
  }

  /** A validation message: a request's own text, or the framework's default for the rule. */
  datatype Message = Custom(text: string) | Default(field: string, rule: string)

  function MessageFor(field: string, r: Rule, messages: map<string, string>): Message
  {
    var key := field + "." + RuleName(r);
    if key in messages then Custom(messages[key]) else Default(field, RuleName(r))
  }

  type RuleSet = seq<(string, seq<Rule>)>

  /**
   * `shouldConvertToBoolean`: each `required_if` converts its parameters to
   * booleans exactly when its other field has the `boolean` rule.
   */
  predicate ConversionsAgree(rules: RuleSet)
  {
    forall i, r :: 0 <= i < |rules| && r in rules[i].1 && r.RequiredIf? ==>
      (r.convertsToBoolean <==> exists j :: 0 <= j < |rules| && rules[j].0 == r.other && BooleanRule in rules[j].1)
  }

  /** The error bag: each field that failed, with one message per failed rule. */
  function Errors(rules: RuleSet, messages: map<string, string>, data: Request, carIds: set<nat>): seq<(string, seq<Message>)>
    decreases |rules|
  {
    if rules == [] then []
    else
      var (field, fieldRules) := rules[0];
      var failed := FieldFailures(field, fieldRules, data, carIds);
      var rest := Errors(rules[1..], messages, data, carIds);
      if failed == [] then rest
      else [(field, seq(|failed|, i requires 0 <= i < |failed| => MessageFor(field, failed[i], messages)))] + rest
  }

  /** Every field passes all its rules. */
  predicate Accepts(rules: RuleSet, data: Request, carIds: set<nat>)
  {
    forall i :: 0 <= i < |rules| ==> FieldFailures(rules[i].0, rules[i].1, data, carIds) == []
  }

  /** The error bag is empty exactly when the request is accepted. */
  lemma {:induction false} ErrorsEmptyIff(rules: RuleSet, messages: map<string, string>, data: Request, carIds: set<nat>)
    ensures Errors(rules, messages, data, carIds) == [] <==> Accepts(rules, data, carIds)
    decreases |rules|
  {
    if rules != [] {
      ErrorsEmptyIff(rules[1..], messages, data, carIds);
      assert forall i :: 1 <= i < |rules| ==> rules[i] == rules[1..][i - 1];
    }
  }

  /** `$request->validated()`: the fields that have rules and are present. */
  function Validated(rules: RuleSet, data: Request): (r: Request)
    ensures forall f :: f in r <==> f in data && exists i :: 0 <= i < |rules| && rules[i].0 == f
    ensures forall f :: f in r ==> r[f] == data[f]
  {
    map f | f in data && (exists i :: 0 <= i < |rules| && rules[i].0 == f) :: data[f]
  }

  /** Every rule of the list that runs on the value (with no earlier failure) accepts it. */
  predicate AllPass(todo: seq<Rule>, fieldRules: seq<Rule>, v: Option<Json>, data: Request, carIds: set<nat>)
  {
    forall r :: r in todo && Runs(r, v, fieldRules, []) ==> RulePasses(r, v, data, carIds)
  }

  lemma {:induction false} FailedGrows(todo: seq<Rule>, fieldRules: seq<Rule>, v: Option<Json>, data: Request, carIds: set<nat>, failed: seq<Rule>)
    ensures |Failures(todo, fieldRules, v, data, carIds, failed)| >= |failed|
    decreases |todo|
  {
    if todo != [] {
      var r := todo[0];
      var fails := Runs(r, v, fieldRules, failed) && !RulePasses(r, v, data, carIds);
      var failed' := if fails then failed + [r] else failed;
      if !(fails && IsImplicit(r)) {
        FailedGrows(todo[1..], fieldRules, v, data, carIds, failed');
      }
    }
  }

  /** A field has no failure exactly when each of its rules that runs accepts the value. */
  lemma {:induction false} NoFailuresIff(todo: seq<Rule>, fieldRules: seq<Rule>, v: Option<Json>, data: Request, carIds: set<nat>)
    ensures Failures(todo, fieldRules, v, data, carIds, []) == [] <==> AllPass(todo, fieldRules, v, data, carIds)
    decreases |todo|
  {
    if todo != [] {
      var r := todo[0];
      assert todo == [r] + todo[1..];
      if Runs(r, v, fieldRules, []) && !RulePasses(r, v, data, carIds) {
        assert [] + [r] == [r];
        FailedGrows(todo[1..], fieldRules, v, data, carIds, [r]);
      } else {
        NoFailuresIff(todo[1..], fieldRules, v, data, carIds);
      }
    }
  }

  /** The text of a string value; any other value reads as ''. */
  function StringValue(v: Option<Json>): string
  {
    if v.Some? && v.value.JString? then v.value.s else ""
  }

  /** The car id a value names; a value naming none reads as 0, an id no car has. */
  function IdValue(v: Option<Json>): nat
  {
    if v.Some? && IdOf(v.value).Some? then IdOf(v.value).value else 0
  }

  /** A present, non-blank string of at most `n` characters. */
  predicate FilledStringUpTo(v: Option<Json>, n: nat)
  {
    v.Some? && v.value.JString? && !Text.Blank(v.value.s) && |v.value.s| <= n
  }

  /** `required|string|max:n` accepts exactly a non-blank string of at most n characters. */
  lemma RequiredStringMax(v: Option<Json>, n: nat, data: Request, carIds: set<nat>)
    ensures var rules := [Required, StringRule, Max(n)];
            Failures(rules, rules, v, data, carIds, []) == [] <==> FilledStringUpTo(v, n)
  {
    var rules := [Required, StringRule, Max(n)];
    NoFailuresIff(rules, rules, v, data, carIds);
    assert Required in rules && StringRule in rules && Max(n) in rules && Nullable !in rules;
  }
}
