/**
 * The front end's validation-message translator. A message such as
 * `validation.partNameMax:255` is a translation key with an optional
 * parameter; the translator splits it on `:` and asks the i18n function `t`
 * for the text. `t` itself is not modelled: the translator's result says
 * which call it makes (`Lookup`), or that the message is passed through.
 */
module ValidationTranslator {
  import opened Wrappers
  import Text

  /** The JavaScript values the translator can meet; numbers are integers or NaN. */
  datatype JsValue =
    | JsUndefined
    | JsNull
    | JsBool(b: bool)
    | JsNumber(n: int)
    | JsNaN
    | JsString(s: string)
    | JsArray(items: seq<JsValue>)
    | JsObject(entries: seq<(string, JsValue)>)

  /** JavaScript truthiness. */
  predicate Truthy(v: JsValue)
  {
    match v
    case JsUndefined => false
    case JsNull => false
    case JsBool(b) => b
    case JsNumber(n) => n != 0
    case JsNaN => false
    case JsString(s) => s != ""
    case _ => true
  }

  /** `parseInt(s, 10)` on a segment: the value of its leading digits, or NaN when there are none. */
  datatype ParsedInt = Num(n: nat) | NaN

  function ParseInt(s: string): (r: ParsedInt)
    ensures r.Num? <==> s != [] && Text.IsDigit(s[0])
  {
    var d := Text.LeadingDigits(s);
    if d == [] then NaN else Num(Text.DigitsValue(d))
  }

  /** The translator's answer: the message itself, or the call `t(key)` / `t(key, {max})`. */
  datatype Translation = Unchanged(message: JsValue) | Lookup(key: string, max: Option<ParsedInt>)

  /** `translateValidationError(message, t)`. */
  function TranslateError(message: JsValue): (r: Translation)
    ensures r.Unchanged? ==> r.message == message
    ensures r.Lookup? ==> message.JsString? && r.key == Text.TakeUntil(message.s, ':')
    ensures r.Lookup? ==> Text.StartsWith(r.key, "validation.") && (r.max.Some? ==> Text.Contains(r.key, "Max"))
    ensures Truthy(message) && message.JsString? && Text.StartsWith(Text.TakeUntil(message.s, ':'), "validation.") ==> r.Lookup?
  {
    if !Truthy(message) || !message.JsString? then Unchanged(message)
    else
      Text.SplitPieces(message.s, ':');
      var parts := Text.Split(message.s, ':');
      var key := parts[0];
      var param := if |parts| > 1 && parts[1] != "" then Some(ParseInt(parts[1])) else None;
      if Text.StartsWith(key, "validation.") then
        if param.Some? && Text.Contains(key, "Max") then Lookup(key, param) else Lookup(key, None)
      else Unchanged(message)
  }

  /** The text between the first and the second `:`, if there is a first. */
  function Parameter(s: string): Option<string>
  {
    if ':' in s then Some(Text.TakeUntil(Text.AfterFirst(s, ':'), ':')) else None
  }

  /**
   * The translator in terms of the text before the first `:` (the key) and
   * the text after it up to the next `:` (the parameter):
   * a falsy or non-string message comes back unchanged; so does a key not
   * starting with `validation.`; a `validation.` key containing `Max` with a
   * non-empty parameter is looked up with `max` set to the parsed parameter;
   * any other `validation.` key is looked up without one.
   */
  lemma TranslateErrorIff(message: JsValue)
    ensures !Truthy(message) || !message.JsString? ==> TranslateError(message) == Unchanged(message)
    ensures Truthy(message) && message.JsString? ==>
              var key := Text.TakeUntil(message.s, ':');
              var param := Parameter(message.s);
              && (!Text.StartsWith(key, "validation.") ==> TranslateError(message) == Unchanged(message))
              && (Text.StartsWith(key, "validation.") && Text.Contains(key, "Max") && param.Some? && param.value != "" ==>
                    TranslateError(message) == Lookup(key, Some(ParseInt(param.value))))
              && (Text.StartsWith(key, "validation.") && !(Text.Contains(key, "Max") && param.Some? && param.value != "") ==>
                    TranslateError(message) == Lookup(key, None))
  {
    if message.JsString? {
      var s := message.s;
      Text.SplitPieces(s, ':');
      if ':' in s {
        Text.SplitPieces(Text.AfterFirst(s, ':'), ':');
        assert Text.Split(s, ':')[1] == Text.Split(s, ':')[1..][0];
      }
    }
  }

  /** A message made of a key without `:` and one parameter. */
  lemma KeyAndParameter(key: string, param: string)
    requires ':' !in key && ':' !in param
    ensures Text.StartsWith(key, "validation.") && Text.Contains(key, "Max") && param != "" ==>
              TranslateError(JsString(key + ":" + param)) == Lookup(key, Some(ParseInt(param)))
    ensures Text.StartsWith(key, "validation.") && !(Text.Contains(key, "Max") && param != "") ==>
              TranslateError(JsString(key + ":" + param)) == Lookup(key, None)
  {
    Text.SplitJoin([key, param], ':');
    assert Text.Join([key, param], ':') == key + ":" + param;
  }

  /** A message that is a key alone. */
  lemma KeyAlone(key: string)
    requires ':' !in key && key != ""
    ensures Text.StartsWith(key, "validation.") ==> TranslateError(JsString(key)) == Lookup(key, None)
    ensures !Text.StartsWith(key, "validation.") ==> TranslateError(JsString(key)) == Unchanged(JsString(key))
  {
    Text.SplitJoin([key], ':');
  }

  /** A `validation.…Max` key with a number parameter is looked up with `max` set to that number. */
  lemma MaxKeyMessage(name: string, n: nat)
    requires ':' !in name
    ensures TranslateError(JsString("validation." + name + "Max" + ":" + Text.NatToString(n)))
              == Lookup("validation." + name + "Max", Some(Num(n)))
  {
    var key := "validation." + name + "Max";
    var d := Text.NatToString(n);
    assert ':' !in key by {
      assert forall i :: 0 <= i < |key| ==> key[i] in "validation." || key[i] in name || key[i] in "Max" by {
        forall i | 0 <= i < |key|
          ensures key[i] in "validation." || key[i] in name || key[i] in "Max"
        {
          if i < 11 {
            assert key[i] == "validation."[i];
          } else if i < 11 + |name| {
            assert key[i] == name[i - 11];
          } else {
            assert key[i] == "Max"[i - 11 - |name|];
          }
        }
      }
    }
    assert ':' !in d by {
      assert forall i :: 0 <= i < |d| ==> Text.IsDigit(d[i]);
    }
    assert Text.StartsWith(key, "validation.") by {
      assert key[..11] == "validation.";
    }
    assert Text.Contains(key, "Max") by {
      Text.ContainsIff(key, "Max");
      assert key[|key| - 3..] == "Max";
      assert Text.OccursAt(key, "Max", |key| - 3);
    }
    LeadingDigitsOfDigits(d);
    Text.DigitsOfNatToString(n);
    KeyAndParameter(key, d);
  }

  lemma {:induction false} LeadingDigitsOfDigits(d: string)
    requires Text.AllDigits(d)
    ensures Text.LeadingDigits(d) == d
    decreases |d|
  {
    if d != [] {
      LeadingDigitsOfDigits(d[1..]);
      assert [d[0]] + d[1..] == d;
    }
  }

  /** The digits read stop where a non-digit follows. */
  lemma {:induction false} LeadingDigitsBeforeNonDigit(d: string, t: string)
    requires Text.AllDigits(d) && (t == [] || !Text.IsDigit(t[0]))
    ensures Text.LeadingDigits(d + t) == d
    decreases |d|
  {
    if d == [] {
      assert d + t == t;
    } else {
      LeadingDigitsBeforeNonDigit(d[1..], t);
      assert (d + t)[1..] == d[1..] + t;
      assert [d[0]] + d[1..] == d;
    }
  }

  /** `parseInt` reads back the number a decimal rendering starts with, whatever non-digit text follows. */
  lemma ParseIntOfNumber(n: nat, t: string)
    requires t == [] || !Text.IsDigit(t[0])
    ensures ParseInt(Text.NatToString(n) + t) == Num(n)
  {
    LeadingDigitsBeforeNonDigit(Text.NatToString(n), t);
    Text.DigitsOfNatToString(n);
  }

  /** The length-limit key of the part creation form is looked up with `max: 255`. */
  lemma PartNameMaxMessage(message: string)
    requires message == "validation.partNameMax:255"
    ensures TranslateError(JsString(message)) == Lookup("validation.partNameMax", Some(Num(255)))
  {
    var name :| name == "partName";
    var n: nat :| n == 255;
    var key := "validation." + name + "Max";
    assert key == "validation.partNameMax";
    assert Text.NatToString(n) == "255";
    assert message == key + ":" + Text.NatToString(n);
    MaxKeyMessage(name, n);
  }

  /** A key without parameter is looked up as it is. */
  lemma PlainKeyMessage()
    ensures TranslateError(JsString("validation.carRequired")) == Lookup("validation.carRequired", None)
  {
    KeyAlone("validation.carRequired");
  }

  /** An English sentence, such as the part update form's, is shown untranslated. */
  lemma SentenceMessage(message: string)
    requires message == "Part name cannot exceed 255 characters"
    ensures TranslateError(JsString(message)) == Unchanged(JsString(message))
  {
    assert message[0] == 'P' && "validation."[0] == 'v';
    assert !Text.StartsWith(message, "validation.");
    KeyAlone(message);
  }

  /** Only the first two `:`-separated segments of a `validation.` message matter: anything after a second `:` is ignored. */
  lemma OnlyTwoSegments(key: string, param: string, rest: string)
    requires ':' !in key && ':' !in param && Text.StartsWith(key, "validation.")
    ensures TranslateError(JsString(key + ":" + param + ":" + rest)) == TranslateError(JsString(key + ":" + param))
  {
    FirstTwoSegments(key, param, rest);
    KeyAndParameter(key, param);
  }

  lemma FirstTwoSegments(key: string, param: string, rest: string)
    requires ':' !in key && ':' !in param
    ensures var p := Text.Split(key + ":" + param + ":" + rest, ':');
            |p| > 1 && p[0] == key && p[1] == param
  {
    var tail := Text.Split(rest, ':');
    Text.JoinSplit(rest, ':');
    SplitNoSeparator(rest, ':');
    var parts := [key, param] + tail;
    assert parts[0] == key && parts[1] == param && parts[2..] == tail;
    Text.SplitJoin(parts, ':');
    assert Text.Join(parts, ':') == key + ":" + param + ":" + rest by {
      assert parts[1..] == [param] + tail;
      assert ([param] + tail)[1..] == tail;
    }
  }

  lemma {:induction false} SplitNoSeparator(s: string, c: char)
    ensures forall i :: 0 <= i < |Text.Split(s, c)| ==> c !in Text.Split(s, c)[i]
    decreases |s|
  {
    if s != [] {
      SplitNoSeparator(s[1..], c);
      var rest := Text.Split(s[1..], c);
      if s[0] != c {
        var r := [[s[0]] + rest[0]] + rest[1..];
        forall i | 0 <= i < |r|
          ensures c !in r[i]
        {
          if i > 0 {
            assert r[i] == rest[i];
          }
        }
      }
    }
  }

  /** What one field of the error bag becomes: an array element by element, a single value once. */
  datatype TranslatedField = Single(t: Translation) | Many(ts: seq<Translation>)

  function TranslateField(messages: JsValue): (r: TranslatedField)
    ensures messages.JsArray? ==> r.Many? && |r.ts| == |messages.items|
    ensures messages.JsArray? ==> forall j :: 0 <= j < |messages.items| ==> r.ts[j] == TranslateError(messages.items[j])
    ensures !messages.JsArray? ==> r == Single(TranslateError(messages))
  {
    if messages.JsArray? then Many(seq(|messages.items|, j requires 0 <= j < |messages.items| => TranslateError(messages.items[j])))
    else Single(TranslateError(messages))
  }

  /** `Object.entries(v)`: an array's entries are keyed by the decimal index. */
  function Entries(v: JsValue): seq<(string, JsValue)>
  {
    match v
    case JsObject(es) => es
    case JsArray(items) => seq(|items|, i requires 0 <= i < |items| => (Text.NatToString(i), items[i]))
    case _ => []
  }

  datatype TranslatedErrors = Untouched(errors: JsValue) | Translated(entries: seq<(string, TranslatedField)>)

  /** The keys of an object literal are distinct. */
  predicate DistinctKeys(es: seq<(string, JsValue)>)
  {
    forall i, j :: 0 <= i < j < |es| ==> es[i].0 != es[j].0
  }

  /**
   * `translateValidationErrors(errors, t)`: a falsy or non-object input comes
   * back as it is; otherwise the result has the input's keys, in order, each
   * with its messages translated.
   */
  method TranslateErrors(errors: JsValue) returns (r: TranslatedErrors)
    requires errors.JsObject? ==> DistinctKeys(errors.entries)
    ensures !Truthy(errors) || !(errors.JsArray? || errors.JsObject?) ==> r == Untouched(errors)
    ensures Truthy(errors) && (errors.JsArray? || errors.JsObject?) ==>
              && r.Translated?
              && |r.entries| == |Entries(errors)|
              && forall i :: 0 <= i < |r.entries| ==>
                   r.entries[i].0 == Entries(errors)[i].0 && r.entries[i].1 == TranslateField(Entries(errors)[i].1)
  {
    if !Truthy(errors) || !(errors.JsArray? || errors.JsObject?) {
      return Untouched(errors);
    }
    var es := Entries(errors);
    var translated: seq<(string, TranslatedField)> := [];
    var i := 0;
    while i < |es|
      invariant 0 <= i <= |es|
      invariant |translated| == i
      invariant forall k :: 0 <= k < i ==> translated[k] == (es[k].0, TranslateField(es[k].1))
    {
      var (field, messages) := es[i];
      if messages.JsArray? {
        translated := translated + [(field, Many(seq(|messages.items|, j requires 0 <= j < |messages.items| => TranslateError(messages.items[j]))))];
      } else {
        translated := translated + [(field, Single(TranslateError(messages)))];
      }
      i := i + 1;
    }
    r := Translated(translated);
  }
}
