/** The validation engine and the default-value resolver
    (src/utils/validation.ts). */
module Validation {
  import opened Json
  import opened Schema

  /** The ECMAScript regular-expression engine, `new RegExp(source).test(s)`:
      foreign to the library, so any total predicate. */
  type RegexEngine = (Value, string) -> bool

  /** `len < bound` after JavaScript's numeric conversion of `bound`. */
  predicate Below(len: nat, bound: Value) {
    var b := NumberOf(bound);
    b.Some? && len < b.value
  }

  /** `len > bound` after JavaScript's numeric conversion of `bound`. */
  predicate Above(len: nat, bound: Value) {
    var b := NumberOf(bound);
    b.Some? && len > b.value
  }

  /** A non-empty string, the only kind of value the length and pattern rules look at. */
  predicate NonEmptyString(v: Value) {
    v.Str? && v.s != ""
  }

  /** One rule against one value: the rule's message when it fails, `None`
      (the source's `null`) when it passes. */
  function ValidateRule(rule: Rule, value: Value, field: Field, regex: RegexEngine): (r: Option<string>)
    ensures r.Some? ==> r.value == rule.message
    // the required rule is gated by the field's own flag; 0, false and [] count as present
    ensures rule.kind == Required ==> (r.Some? <==> field.required && IsBlank(value))
    // length and pattern rules never fail on a non-string or on ''
    ensures rule.kind in {MinLength, MaxLength, Pattern} && !NonEmptyString(value) ==> r == None
    ensures rule.kind == MinLength && NonEmptyString(value) ==> (r.Some? <==> Below(|value.s|, rule.operand))
    ensures rule.kind == MaxLength && NonEmptyString(value) ==> (r.Some? <==> Above(|value.s|, rule.operand))
    ensures rule.kind == Pattern && NonEmptyString(value) ==> (r.Some? <==> !regex(rule.operand, value.s))
    // a custom rule runs only when a validator exists and the value is present
    ensures rule.kind == Custom ==> (r.Some? <==> rule.validator.Some? && !IsBlank(value) && !rule.validator.value(value))
  {
    match rule.kind
    case Required =>
      if field.required && IsBlank(value) then Some(rule.message) else None
    case MinLength =>
      if Truthy(value) && value.Str? && Below(|value.s|, rule.operand) then Some(rule.message) else None
    case MaxLength =>
      if Truthy(value) && value.Str? && Above(|value.s|, rule.operand) then Some(rule.message) else None
    case Pattern =>
      if Truthy(value) && value.Str? && !regex(rule.operand, value.s) then Some(rule.message) else None
    case Custom =>
      if rule.validator.Some? && !IsBlank(value) && !rule.validator.value(value) then Some(rule.message) else None
  }

  /** `if (error)`: a rule counts as failed only when it yields a non-empty message. */
  predicate Fails(rule: Rule, value: Value, field: Field, regex: RegexEngine) {
    var e := ValidateRule(rule, value, field, regex);
    e.Some? && e.value != ""
  }

  /** The rule chain evaluated in order, stopping at the first failure. */
  function FirstError(rules: seq<Rule>, value: Value, field: Field, regex: RegexEngine): (r: Option<string>)
    ensures r.None? <==> forall i :: 0 <= i < |rules| ==> !Fails(rules[i], value, field, regex)
    ensures r.Some? ==> r.value != ""
    decreases |rules|
  {
    if |rules| == 0 then None
    else if Fails(rules[0], value, field, regex) then Some(rules[0].message)
    else
      assert forall i :: 1 <= i < |rules| ==> rules[i] == rules[1..][i - 1];
      FirstError(rules[1..], value, field, regex)
  }

  /** The error reported is the message of the first failing rule in list order. */
  lemma {:induction false} FirstErrorIsFirstFailure(rules: seq<Rule>, value: Value, field: Field, regex: RegexEngine)
    requires FirstError(rules, value, field, regex).Some?
    ensures exists i :: (0 <= i < |rules| && Fails(rules[i], value, field, regex) &&
      FirstError(rules, value, field, regex).value == rules[i].message &&
      forall j :: 0 <= j < i ==> !Fails(rules[j], value, field, regex))
    decreases |rules|
  {
    if !Fails(rules[0], value, field, regex) {
      var tail := rules[1..];
      FirstErrorIsFirstFailure(tail, value, field, regex);
      var k :| 0 <= k < |tail| && Fails(tail[k], value, field, regex) &&
        FirstError(tail, value, field, regex).value == tail[k].message &&
        forall j :: 0 <= j < k ==> !Fails(tail[j], value, field, regex);
      assert rules[k + 1] == tail[k];
      forall j | 0 <= j < k + 1 ensures !Fails(rules[j], value, field, regex) {
        if j > 0 { assert rules[j] == tail[j - 1]; }
      }
    }
  }

  /** The error `validateField` reports for a field holding `value`. */
  function FieldError(field: Field, value: Value, regex: RegexEngine): Option<string> {
    FirstError(field.validation, value, field, regex)
  }

  /** Later rules are never consulted once an earlier one has failed, and
      rules that pass (including failures with an empty message) are skipped. */
  lemma {:induction false} FirstErrorShortCircuits(a: seq<Rule>, b: seq<Rule>, value: Value, field: Field, regex: RegexEngine)
    ensures FirstError(a + b, value, field, regex) ==
      if FirstError(a, value, field, regex).Some? then FirstError(a, value, field, regex) else FirstError(b, value, field, regex)
    decreases |a|
  {
    if |a| == 0 {
      assert a + b == b;
    } else {
      assert (a + b)[0] == a[0];
      assert (a + b)[1..] == a[1..] + b;
      FirstErrorShortCircuits(a[1..], b, value, field, regex);
    }
  }

  /** A rule whose message is '' can never surface: evaluation moves on to the next rule. */
  lemma EmptyMessageIsSkipped(rule: Rule, rest: seq<Rule>, value: Value, field: Field, regex: RegexEngine)
    requires rule.message == ""
    ensures FirstError([rule] + rest, value, field, regex) == FirstError(rest, value, field, regex)
  {
    assert ([rule] + rest)[1..] == rest;
  }

  /** `validateField`: the rules in order, returning at the first truthy error. */
  method ValidateField(field: Field, value: Value, regex: RegexEngine) returns (err: Option<string>)
    ensures err == FieldError(field, value, regex)
    ensures err.Some? ==> err.value != ""
  {
    var rules := field.validation;
    var i := 0;
    while i < |rules|
      invariant 0 <= i <= |rules|
      invariant FirstError(rules[i..], value, field, regex) == FieldError(field, value, regex)
    {
      assert rules[i..][0] == rules[i] && rules[i..][1..] == rules[i + 1..];
      var error := ValidateRule(rules[i], value, field, regex);
      if error.Some? && error.value != "" {
        return error;
      }
      i := i + 1;
    }
    return None;
  }

  datatype ValidationResult = ValidationResult(isValid: bool, errors: map<string, string>)

  /** A field fails when its rule chain yields an error for its value in `data`. */
  predicate FieldFails(field: Field, data: map<string, Value>, regex: RegexEngine) {
    FieldError(field, Get(data, field.name), regex).Some?
  }

  /** The error map `validateForm` builds, field by field in order. */
  function FormErrors(fields: seq<Field>, data: map<string, Value>, regex: RegexEngine): map<string, string>
    decreases |fields|
  {
    if |fields| == 0 then map[]
    else
      var prev := FormErrors(fields[..|fields| - 1], data, regex);
      var f := fields[|fields| - 1];
      match FieldError(f, Get(data, f.name), regex)
      case Some(m) => prev[f.name := m]
      case None => prev
  }

  /** The error map has a key exactly for the names of the failing fields. */
  lemma {:induction false} FormErrorsKeys(fields: seq<Field>, data: map<string, Value>, regex: RegexEngine, k: string)
    ensures k in FormErrors(fields, data, regex) <==>
      exists j :: 0 <= j < |fields| && fields[j].name == k && FieldFails(fields[j], data, regex)
    decreases |fields|
  {
    if |fields| > 0 {
      var init := fields[..|fields| - 1];
      FormErrorsKeys(init, data, regex, k);
      assert forall j :: 0 <= j < |init| ==> init[j] == fields[j];
    }
  }

  /** Each key holds the error of the last failing field with that name:
      for duplicate names the later error overwrites the earlier one. */
  lemma {:induction false} FormErrorsValue(fields: seq<Field>, data: map<string, Value>, regex: RegexEngine, j: nat)
    requires j < |fields| && FieldFails(fields[j], data, regex)
    requires forall j' :: j < j' < |fields| ==> !(fields[j'].name == fields[j].name && FieldFails(fields[j'], data, regex))
    ensures fields[j].name in FormErrors(fields, data, regex)
    ensures FormErrors(fields, data, regex)[fields[j].name] == FieldError(fields[j], Get(data, fields[j].name), regex).value
    decreases |fields|
  {
    var init := fields[..|fields| - 1];
    if j < |fields| - 1 {
      assert init[j] == fields[j];
      FormErrorsValue(init, data, regex, j);
    }
  }

  /** The result is valid exactly when the error map is empty. */
  lemma {:induction false} ValidIffNoErrors(fields: seq<Field>, data: map<string, Value>, regex: RegexEngine)
    ensures (forall j :: 0 <= j < |fields| ==> !FieldFails(fields[j], data, regex)) <==> FormErrors(fields, data, regex) == map[]
    decreases |fields|
  {
    if |fields| > 0 {
      var init := fields[..|fields| - 1];
      ValidIffNoErrors(init, data, regex);
      assert forall j :: 0 <= j < |init| ==> init[j] == fields[j];
      var f := fields[|fields| - 1];
      if FieldFails(f, data, regex) {
        assert f.name in FormErrors(fields, data, regex);
      }
    }
  }

  /** `validateForm`: every field checked independently, errors collected by name. */
  method ValidateForm(fields: seq<Field>, data: map<string, Value>, regex: RegexEngine) returns (result: ValidationResult)
    ensures result.errors == FormErrors(fields, data, regex)
    ensures result.isValid <==> forall j :: 0 <= j < |fields| ==> !FieldFails(fields[j], data, regex)
  {
    var errors: map<string, string> := map[];
    var isValid := true;
    var i := 0;
    while i < |fields|
      invariant 0 <= i <= |fields|
      invariant errors == FormErrors(fields[..i], data, regex)
      invariant isValid <==> forall j :: 0 <= j < i ==> !FieldFails(fields[j], data, regex)
    {
      var field := fields[i];
      var error := ValidateField(field, Get(data, field.name), regex);
      assert fields[..i + 1][..i] == fields[..i];
      if error.Some? && error.value != "" {
        errors := errors[field.name := error.value];
        isValid := false;
      }
      i := i + 1;
    }
    assert fields[..|fields|] == fields;
    return ValidationResult(isValid, errors);
  }

  /** `getDefaultValue`: the declared default wins; otherwise the empty value of the field's kind. */
  function DefaultValue(field: Field): (r: Value)
    ensures field.defaultValue != Undef ==> r == field.defaultValue
    ensures r != Undef
  {
    if field.defaultValue != Undef then field.defaultValue
    else
      match field.kind
      case Checkbox => if field.options.Some? then Arr([]) else Bool(false)
      case Multiselect => Arr([])
      case Number => Num(0)
      case Rating => Num(0)
      case Slider => Num(0)
      case Switch => Bool(false)
      case Date => Null
      case Datetime => Null
      case Time => Null
      case File => if field.multiple then Arr([]) else Null
      case _ => Str("")
  }

  /** Which kinds start out "missing" for the required rule: a required field
      without a declared default fails its required rule on its initial value
      exactly when its kind's empty value is undefined, null or ''. */
  lemma RequiredFiresOnDefault(field: Field, rule: Rule, regex: RegexEngine)
    requires field.defaultValue == Undef && field.required && rule.kind == Required
    ensures ValidateRule(rule, DefaultValue(field), field, regex).Some? <==>
      !(field.kind in {Checkbox, Multiselect, Number, Rating, Slider, Switch} || (field.kind == File && field.multiple))
  {
  }

  /** `getAllFields`: the sections' field lists, concatenated in order (a left fold). */
  function AllFields(sections: seq<Section>): seq<Field>
    decreases |sections|
  {
    if |sections| == 0 then []
    else AllFields(sections[..|sections| - 1]) + sections[|sections| - 1].fields
  }

  /** The fold is an in-order concatenation: it distributes over joined section lists. */
  lemma {:induction false} AllFieldsAppend(a: seq<Section>, b: seq<Section>)
    ensures AllFields(a + b) == AllFields(a) + AllFields(b)
    decreases |b|
  {
    if |b| == 0 {
      assert a + b == a;
    } else {
      var b' := b[..|b| - 1];
      assert (a + b)[..|a + b| - 1] == a + b';
      AllFieldsAppend(a, b');
    }
  }

  /** The number of fields is the sum over the sections, and section i's
      fields follow those of the sections before it. */
  lemma {:induction false} AllFieldsLayout(sections: seq<Section>, i: nat)
    requires i < |sections|
    ensures |AllFields(sections[..i])| + |sections[i].fields| <= |AllFields(sections)|
    ensures AllFields(sections)[|AllFields(sections[..i])|..|AllFields(sections[..i])| + |sections[i].fields|] == sections[i].fields
  {
    assert sections == sections[..i] + ([sections[i]] + sections[i + 1..]);
    AllFieldsAppend(sections[..i], [sections[i]] + sections[i + 1..]);
    AllFieldsAppend([sections[i]], sections[i + 1..]);
    assert [sections[i]][..0] == [];
  }

  /** The default data `initializeFormData` builds, field by field in order. */
  function InitialValues(fields: seq<Field>): map<string, Value>
    decreases |fields|
  {
    if |fields| == 0 then map[]
    else
      var f := fields[|fields| - 1];
      InitialValues(fields[..|fields| - 1])[f.name := DefaultValue(f)]
  }

  /** Exactly one key per field name. */
  lemma {:induction false} InitialValuesKeys(fields: seq<Field>)
    ensures InitialValues(fields).Keys == set j | 0 <= j < |fields| :: fields[j].name
    decreases |fields|
  {
    if |fields| > 0 {
      var init := fields[..|fields| - 1];
      InitialValuesKeys(init);
      assert forall j :: 0 <= j < |init| ==> init[j] == fields[j];
      assert (set j | 0 <= j < |fields| :: fields[j].name) ==
        (set j | 0 <= j < |init| :: init[j].name) + {fields[|fields| - 1].name};
    }
  }

  /** Each name holds the default of the last field with that name. */
  lemma {:induction false} InitialValuesValue(fields: seq<Field>, j: nat)
    requires j < |fields|
    requires forall j' :: j < j' < |fields| ==> fields[j'].name != fields[j].name
    ensures fields[j].name in InitialValues(fields)
    ensures InitialValues(fields)[fields[j].name] == DefaultValue(fields[j])
    decreases |fields|
  {
    var init := fields[..|fields| - 1];
    if j < |fields| - 1 {
      assert init[j] == fields[j];
      InitialValuesValue(init, j);
    }
  }

  /** `initializeFormData`: one default per field, later fields overwriting earlier ones. */
  method InitializeFormData(fields: seq<Field>) returns (data: map<string, Value>)
    ensures data == InitialValues(fields)
  {
    data := map[];
    var i := 0;
    while i < |fields|
      invariant 0 <= i <= |fields|
      invariant data == InitialValues(fields[..i])
    {
      assert fields[..i + 1][..i] == fields[..i];
      data := data[fields[i].name := DefaultValue(fields[i])];
      i := i + 1;
    }
    assert fields[..|fields|] == fields;
  }
}
