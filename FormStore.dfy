/** The form state store behind the `useDynamicForm` hook
    (src/hooks/useDynamicForm.ts): the value map, the error map and the
    touched flags, and the handlers that update them. Each handler is one
    sequential state transition. */
module FormStore {
  import opened Json
  import opened Schema
  import opened Validation

  /** Schema defaults overlaid key by key by the caller's initial data:
      `{ ...initializeFormData(allFields), ...initialData }`. */
  function StartingData(fields: seq<Field>, initialData: map<string, Value>): (d: map<string, Value>)
    ensures d.Keys == (set j | 0 <= j < |fields| :: fields[j].name) + initialData.Keys
    ensures forall k :: k in initialData ==> d[k] == initialData[k]
    ensures forall j :: 0 <= j < |fields| ==>
      (fields[j].name !in initialData && (forall j' :: j < j' < |fields| ==> fields[j'].name != fields[j].name) ==>
         d[fields[j].name] == DefaultValue(fields[j]))
  {
    InitialValuesKeys(fields);
    forall j | 0 <= j < |fields| && (forall j' :: j < j' < |fields| ==> fields[j'].name != fields[j].name)
      ensures InitialValues(fields)[fields[j].name] == DefaultValue(fields[j])
    {
      InitialValuesValue(fields, j);
    }
    InitialValues(fields) + initialData
  }

  /** The position of the first field named `name`, as `allFields.find` locates it. */
  function FindField(fields: seq<Field>, name: string): (r: Option<nat>)
    ensures r.None? ==> forall j :: 0 <= j < |fields| ==> fields[j].name != name
    ensures r.Some? ==> (r.value < |fields| && fields[r.value].name == name &&
      forall j :: 0 <= j < r.value ==> fields[j].name != name)
    decreases |fields|
  {
    if |fields| == 0 then None
    else if fields[0].name == name then Some(0)
    else
      match FindField(fields[1..], name)
      case None => None
      case Some(i) => Some(i + 1)
  }

  /** The error map after a blur of `name`: only the first field with that
      name is validated, and only a failure is recorded. */
  function BlurredErrors(fields: seq<Field>, data: map<string, Value>, errors: map<string, string>,
                         name: string, regex: RegexEngine): map<string, string>
  {
    match FindField(fields, name)
    case None => errors
    case Some(i) =>
      match FieldError(fields[i], Get(data, name), regex)
      case Some(m) => errors[name := m]
      case None => errors
  }

  /** No two fields of the schema share the name `name`. */
  predicate NameUnique(fields: seq<Field>, name: string) {
    forall j, j' :: 0 <= j < j' < |fields| && fields[j].name == name ==> fields[j'].name != name
  }

  /** An error recorded on blur is one that submitting would also report for
      that name, and a blur never removes an error. When the name belongs to
      one field only, a blur records exactly the message that submitting
      reports for it. */
  lemma BlurAgreesWithSubmit(fields: seq<Field>, data: map<string, Value>, errors: map<string, string>,
                             name: string, regex: RegexEngine)
    ensures errors.Keys <= BlurredErrors(fields, data, errors, name, regex).Keys
    ensures name in BlurredErrors(fields, data, errors, name, regex) && name !in errors ==>
      name in FormErrors(fields, data, regex)
    ensures NameUnique(fields, name) && name in FormErrors(fields, data, regex) ==>
      name in BlurredErrors(fields, data, errors, name, regex) &&
      BlurredErrors(fields, data, errors, name, regex)[name] == FormErrors(fields, data, regex)[name]
  {
    var i := FindField(fields, name);
    FormErrorsKeys(fields, data, regex, name);
    if NameUnique(fields, name) && name in FormErrors(fields, data, regex) {
      var j :| 0 <= j < |fields| && fields[j].name == name && FieldFails(fields[j], data, regex);
      assert i == Some(j);
      FormErrorsValue(fields, data, regex, j);
    }
  }

  class FormState {
    /** `getAllFields(config.sections)` */
    const fields: seq<Field>
    const regex: RegexEngine
    var initialData: map<string, Value>
    var data: map<string, Value>
    var errors: map<string, string>
    var touched: map<string, bool>

    /** Every field of the schema has an entry in the value map. */
    ghost predicate Valid()
      reads this
    {
      forall j :: 0 <= j < |fields| ==> fields[j].name in data
    }

    constructor (sections: seq<Section>, initialData: map<string, Value>, regex: RegexEngine)
      ensures Valid()
      ensures this.fields == AllFields(sections) && this.regex == regex
      ensures this.initialData == initialData
      ensures data == StartingData(fields, initialData)
      ensures errors == map[] && touched == map[]
    {
      var all := AllFields(sections);
      var defaults := InitializeFormData(all);
      this.fields := all;
      this.regex := regex;
      this.initialData := initialData;
      data := defaults + initialData;
      errors := map[];
      touched := map[];
      new;
      assert data == StartingData(fields, initialData);
      forall j | 0 <= j < |fields|
        ensures fields[j].name in data
      {
        assert fields[j].name in set j' | 0 <= j' < |fields| :: fields[j'].name;
      }
    }

    /** `validateAllFields`: the whole schema against the current values; nothing changes. */
    method ValidateAllFields() returns (result: ValidationResult)
      ensures result.errors == FormErrors(fields, data, regex)
      ensures result.isValid <==> forall j :: 0 <= j < |fields| ==> !FieldFails(fields[j], data, regex)
    {
      result := ValidateForm(fields, data, regex);
    }

    /** `updateField`: last write wins; a non-empty error for the name is dropped. */
    method UpdateField(name: string, value: Value)
      requires Valid()
      modifies this
      ensures Valid()
      ensures data == old(data)[name := value]
      ensures errors == if name in old(errors) && old(errors)[name] != "" then old(errors) - {name} else old(errors)
      ensures touched == old(touched) && initialData == old(initialData)
    {
      data := data[name := value];
      if name in errors && errors[name] != "" {
        errors := errors - {name};
      }
    }

    /** `handleFieldBlur`: marks the name touched and validates the first field with that name. */
    method HandleFieldBlur(name: string)
      requires Valid()
      modifies this
      ensures Valid()
      ensures touched == old(touched)[name := true]
      ensures errors == BlurredErrors(fields, data, old(errors), name, regex)
      ensures data == old(data) && initialData == old(initialData)
    {
      touched := touched[name := true];
      var found := FindField(fields, name);
      if found.Some? {
        var field := fields[found.value];
        var fieldError := ValidateForm([field], data, regex);
        assert [field][..0] == [];
        if name in fieldError.errors && fieldError.errors[name] != "" {
          errors := errors[name := fieldError.errors[name]];
        }
      }
    }

    /** `resetForm`: defaults overlaid by the initial data, no errors, nothing touched. */
    method ResetForm()
      requires Valid()
      modifies this
      ensures Valid()
      ensures data == StartingData(fields, initialData)
      ensures errors == map[] && touched == map[]
      ensures initialData == old(initialData)
    {
      var defaults := InitializeFormData(fields);
      InitialValuesKeys(fields);
      data := defaults + initialData;
      errors := map[];
      touched := map[];
    }

    /** `setFieldError`: writes exactly one error entry. */
    method SetFieldError(name: string, error: string)
      requires Valid()
      modifies this
      ensures Valid()
      ensures errors == old(errors)[name := error]
      ensures data == old(data) && touched == old(touched) && initialData == old(initialData)
    {
      errors := errors[name := error];
    }

    /** `clearFieldError`: deletes exactly one error entry; clearing an absent one changes nothing. */
    method ClearFieldError(name: string)
      requires Valid()
      modifies this
      ensures Valid()
      ensures errors == old(errors) - {name}
      ensures name !in old(errors) ==> errors == old(errors)
      ensures data == old(data) && touched == old(touched) && initialData == old(initialData)
    {
      errors := errors - {name};
    }

    /** The effect run when the `initialData` prop changes: merged over the current values. */
    method InitialDataChanged(newInitialData: map<string, Value>)
      requires Valid()
      modifies this
      ensures Valid()
      ensures initialData == newInitialData
      ensures data.Keys == old(data).Keys + newInitialData.Keys
      ensures forall k :: k in newInitialData ==> data[k] == newInitialData[k]
      ensures forall k :: k in old(data) && k !in newInitialData ==> data[k] == old(data)[k]
      ensures errors == old(errors) && touched == old(touched)
    {
      initialData := newInitialData;
      data := data + newInitialData;
    }

    /** `isValid`: no error entries at all. */
    function IsValid(): (b: bool)
      reads this
      ensures b <==> errors == map[]
    {
      |errors| == 0
    }
  }

  /** The required text field with a minimum length of 3 from the sample
      schema (test/testConfig.ts:15-26) reports the required message for '',
      the length message for "ab" and nothing for "abc". */
  lemma RequiredThenMinLength(regex: RegexEngine)
    ensures var f := Field("text-field", "textField", "Text Field", Text, true,
                           [Rule(Required, Undef, "This field is required", None), Rule(MinLength, Num(3), "Minimum 3 characters", None)],
                           Undef, None, false, None, None, None);
      && FieldError(f, Str(""), regex) == Some("This field is required")
      && FieldError(f, Str("ab"), regex) == Some("Minimum 3 characters")
      && FieldError(f, Str("abc"), regex) == None
  {
    var f := Field("text-field", "textField", "Text Field", Text, true,
                   [Rule(Required, Undef, "This field is required", None), Rule(MinLength, Num(3), "Minimum 3 characters", None)],
                   Undef, None, false, None, None, None);
    var rules := f.validation;
    assert rules[1..][1..] == [];
    assert |"ab"| == 2 && |"abc"| == 3;
  }
}
