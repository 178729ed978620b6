/** The form schema: field kinds, validation rules, field descriptors,
    sections and grid column descriptors (src/types.ts). */
module Schema {
  import opened Json

  /** The closed set of field kinds. */
  datatype FieldType =
    | Text | Email | Password | Number | Tel | Url | Textarea
    | Select | Multiselect | Radio | Checkbox | Switch
    | Date | Datetime | Time | File | Rating | Slider
    | Autocomplete | Datagrid

  datatype RuleKind = Required | MinLength | MaxLength | Pattern | Custom

  /** A validation rule. `operand` is the rule's `value` (a length bound or a
      pattern source); `validator` is the user's predicate of a `custom` rule,
      foreign code that the model treats as an arbitrary total function. */
  datatype Rule = Rule(kind: RuleKind, operand: Value, message: string, validator: Option<Value -> bool>)

  /** A choice offered by select, radio and checkbox-group fields. */
  datatype SelectOption = SelectOption(value: string, caption: string)

  /** A field descriptor. Optional attributes that the library only tests
      for truthiness are booleans (absent is `false`); an absent
      `defaultValue` is `Undef`; an absent `validation` list is `[]`, which
      the library treats the same way. */
  datatype Field = Field(
    id: string,
    name: string,
    caption: string,
    kind: FieldType,
    required: bool,
    validation: seq<Rule>,
    defaultValue: Value,
    options: Option<seq<SelectOption>>,
    multiple: bool,
    min: Option<int>,
    max: Option<int>,
    step: Option<int>)

  datatype Section = Section(id: string, fields: seq<Field>)

  /** A grid column descriptor. The configuration editor writes arbitrary
      top-level keys into it, so it is kept as the object it is. */
  type Column = map<string, Value>

  /** `col.field`, the key a column reads from a row. */
  function ColumnKey(c: Column): string {
    KeyOf(Get(c, "field"))
  }

  /** `col.required`, tested for truthiness. */
  predicate ColumnRequired(c: Column) {
    Truthy(Get(c, "required"))
  }
}
