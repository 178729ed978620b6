# react-dynamic-forms-mui: the form-state and data-grid engine in Dafny

This project models the logic under the MUI form library react-dynamic-forms-mui
and proves properties of it. Rendering is not modelled. The parts modelled are:

- **Validation** (`Validation`). The rule chain of a field is evaluated in order
  and the first failure wins. A form's errors are collected by field name. Each
  field's empty value comes from its type.
- **Form store** (`FormStore.FormState`). This is the `useDynamicForm` hook: a
  class with the value map, the error map and the touched flags, and one method
  per handler.
- **Data-grid field** (`GridRows.DataGrid`). Rows get ids. Rows can be added
  (with a required-column check) and deleted by id. One cell at a time can be
  edited, through a scratch value. There is a max-rows gate, and columns are
  renumbered when the column configuration is saved.
- **Grid configuration editor** (`ColumnConfig.ColumnConfigEditor`). It adds,
  edits, saves, deletes and moves columns. It also updates single keys of the
  data-source and event-button settings.
- **Multi-checkbox toggle** (`Checkbox.Toggle`).
- **Form builder** (`FormBuilder.Builder`, `OptionsText`). The builder adds,
  removes and saves fields. Its options text editor parses and serialises
  `value|label` lines.
- **Demo grid** (`DemoGrid.SimpleDataGrid`). It edits, deletes and adds rows by
  index, and numbers new rows after the largest id.

JavaScript values are modelled by `Json.Value`: undefined, null, booleans,
integers, strings, arrays and objects. `Json.Truthy` is JavaScript truthiness
for those values. Each React handler is one sequential state transition of a
class whose fields are the component's state. A row list that the parent owns
through `onChange` is a field of the grid object.

Some behaviour is foreign to the library and becomes a parameter:

- the ECMAScript regular-expression engine is any total predicate
  (`Validation.RegexEngine`);
- user validators are arrows stored in the rule;
- ids made from `Date.now()` and `Math.random()` are parameters (`newIds`,
  `newId`, `fieldId`), and `window.confirm` is a boolean.

Three behaviours of the code that a caller might not expect:

- `validateAllFields` returns the validation result and does not write `errors`.
- `updateField` deletes an error only when it is truthy, so an empty message stays.
- `handleAddRow` does not check `maxRows`. Only the Add Row button is hidden
  (`GridRows.DataGrid.AddRow` vs `GridRows.DataGrid.CanOpenAddDialog`).

An absent `field.validation` is modelled as the empty rule list. `validateField`
returns `null` for it, as `Validation.FirstError` does for `[]`.

Some source promises follow directly from a method's whole-state postcondition:

- `resetForm` twice is `resetForm` once, since its new state does not depend on
  the old `data`, `errors` or `touched`;
- `clearFieldError` is idempotent;
- `cancelEditing` is idempotent.

## Model

| member | source | states |
|---|---|---|
| Validation.ValidateRule | src/utils/validation.ts:14-53 | A failure yields the rule's message. `required` fails iff the field is required and the value is undefined, null or `''` (0, false and [] are present). Length and pattern rules never fail on non-strings or `''`. minLength/maxLength fail iff the length is below/above the operand. pattern fails iff the engine rejects. custom fails iff a validator exists, the value is present and the validator says no. |
| Validation.FirstError | src/utils/validation.ts:3-12 | The chain yields nothing iff no rule fails. A reported error is never empty. |
| Validation.FirstErrorIsFirstFailure | src/utils/validation.ts:6-9 | A reported error is the message of a failing rule, and every rule before it passes. |
| Validation.FirstErrorShortCircuits | src/utils/validation.ts:6-9 | On `a + b`, the result is `a`'s error when `a` fails. Otherwise it is `b`'s error, so later rules are never consulted after a failure. |
| Validation.EmptyMessageIsSkipped | src/utils/validation.ts:7-8 | A rule with message `''` never surfaces; evaluation goes on with the next rule. |
| Validation.ValidateField | src/utils/validation.ts:3-12 | The loop with early return computes the chain's first error, and the error is non-empty. |
| Validation.FormErrorsKeys | src/utils/validation.ts:55-68 | The error map has a key exactly for the names of failing fields. |
| Validation.FormErrorsValue | src/utils/validation.ts:59-65 | A name's entry is the error of the last failing field with that name. |
| Validation.ValidIffNoErrors | src/utils/validation.ts:55-68 | No field fails iff the error map is empty. |
| Validation.ValidateForm | src/utils/validation.ts:55-68 | The loop builds the specified error map. `isValid` holds iff no field fails. |
| Validation.DefaultValue | src/utils/validation.ts:70-95 | A declared default wins. The result is never undefined. |
| Validation.RequiredFiresOnDefault | src/utils/validation.ts:70-95 | A required field without a default fails `required` on its empty value, except for checkbox, multiselect, number, rating, slider, switch and multiple-file fields. |
| Validation.AllFieldsAppend | src/utils/validation.ts:97-99 | The fold distributes over joined section lists (in-order concatenation). |
| Validation.AllFieldsLayout | src/utils/validation.ts:97-99 | Section i's fields sit, in order, right after those of the sections before it. |
| Validation.InitialValuesKeys | src/utils/validation.ts:101-109 | The key set is exactly the set of field names. |
| Validation.InitialValuesValue | src/utils/validation.ts:101-109 | Each name holds the default of the last field with that name. |
| Validation.InitializeFormData | src/utils/validation.ts:101-109 | The loop builds the specified default map. |
| FormStore.StartingData | src/hooks/useDynamicForm.ts:7-10 | Keys are the field names plus the initial data's keys. Initial data wins. Other names hold their schema default. |
| FormStore.FindField | src/hooks/useDynamicForm.ts:42 | Returns the first field with that name, or none exists. |
| FormStore.BlurAgreesWithSubmit | src/hooks/useDynamicForm.ts:35-52 | A blur never removes an error. An error it adds names a field that submitting would also flag. When only one field has that name and submitting flags it, the blur records exactly the message that submitting reports. |
| FormStore.FormState.constructor | src/hooks/useDynamicForm.ts:5-13 | Fields are the flattened sections. Data is the starting data. Errors and touched are empty. |
| FormStore.FormState.ValidateAllFields | src/hooks/useDynamicForm.ts:15-17 | Returns the form validation of the current data and changes nothing. |
| FormStore.FormState.UpdateField | src/hooks/useDynamicForm.ts:19-33 | Exactly `data[n]` is set, even for unknown names. A non-empty error for `n` is removed. Touched is unchanged. Every field keeps a value. |
| FormStore.FormState.HandleFieldBlur | src/hooks/useDynamicForm.ts:35-52 | `n` is marked touched. The first field named `n` is validated. An error is recorded only on failure; a passing field keeps its old error. Data is unchanged. |
| FormStore.FormState.ResetForm | src/hooks/useDynamicForm.ts:54-59 | Data becomes defaults overlaid by the initial data. Errors and touched are empty. |
| FormStore.FormState.SetFieldError | src/hooks/useDynamicForm.ts:61-66 | Exactly one error entry is written. |
| FormStore.FormState.ClearFieldError | src/hooks/useDynamicForm.ts:68-74 | Exactly one entry is deleted; an absent one changes nothing. |
| FormStore.FormState.InitialDataChanged | src/hooks/useDynamicForm.ts:76-80 | The new initial data is merged over the values. Only its keys change; the others are kept. |
| FormStore.FormState.IsValid | src/hooks/useDynamicForm.ts:92 | True iff the error map is empty. |
| FormStore.RequiredThenMinLength | src/utils/validation.ts:16-26 | The sample schema's required text field with min length 3 (test/testConfig.ts:15-26) reports the required message for `''`, the length message for `ab`, and nothing for `abc`. |
| Checkbox.Without | src/components/fields/CheckboxRadioFieldComponent.tsx:35 | The option is gone. Every other value keeps its membership and its count. |
| Checkbox.WithoutAppend | src/components/fields/CheckboxRadioFieldComponent.tsx:35 | The filter distributes over concatenation, so kept values keep their order. |
| Checkbox.WithoutAbsent | src/components/fields/CheckboxRadioFieldComponent.tsx:35 | Filtering an absent value changes nothing. |
| Checkbox.Toggle | src/components/fields/CheckboxRadioFieldComponent.tsx:32-38 | A non-array counts as `[]`. The option's membership flips and others keep theirs. An absent option is appended at the end. A present one loses every occurrence. |
| Checkbox.ToggleFlipsChecked | src/components/fields/CheckboxRadioFieldComponent.tsx:82 | The checked state after a click is flipped for the clicked option and unchanged for the others. |
| Checkbox.ToggleTwiceRestores | src/components/fields/CheckboxRadioFieldComponent.tsx:32-38 | Toggling an absent option twice returns the original list. |
| Checkbox.WithoutDistinct | src/components/fields/CheckboxRadioFieldComponent.tsx:35 | The filter keeps a list duplicate-free. |
| Checkbox.ToggleKeepsDistinct | src/components/fields/CheckboxRadioFieldComponent.tsx:32-38 | A duplicate-free list stays duplicate-free. |
| GridRows.Source | src/components/fields/DataGridFieldComponent.tsx:84 | `value \|\| initialRows \|\| []`: the first truthy one, else `[]`. |
| GridRows.EnsureRowIds | src/components/fields/DataGridFieldComponent.tsx:74-82 | A non-array gives `[]`. Otherwise length, order and all non-id fields are kept. A truthy id is kept. A falsy id is replaced by that row's generated id. |
| GridRows.EnsureRowIdsStable | src/components/fields/DataGridFieldComponent.tsx:74-82 | Rows that all have truthy ids are returned unchanged, whatever ids would be generated. |
| GridRows.EnsureRowIdsIdempotent | src/components/fields/DataGridFieldComponent.tsx:74-84 | A second application assigns no new ids. |
| GridRows.CellChanged | src/components/fields/DataGridFieldComponent.tsx:87-92 | Rows with the id get the new field value and keep their other fields. All other rows are unchanged. |
| GridRows.CellChangedKeepsIds | src/components/fields/DataGridFieldComponent.tsx:87-92 | Writing a cell other than `id` keeps every row's id. |
| GridRows.CellChangedKeepsIdsOrTruthy | src/components/fields/DataGridFieldComponent.tsx:87-92 | Ids stay truthy unless the write blanks an `id` cell. |
| GridRows.Deleted | src/components/fields/DataGridFieldComponent.tsx:118-121 | A row stays iff its id differs. |
| GridRows.DeletedAppend | src/components/fields/DataGridFieldComponent.tsx:118-121 | Deletion distributes over concatenation, so kept rows keep their order. |
| GridRows.DeletedUnknown | src/components/fields/DataGridFieldComponent.tsx:118-121 | An unknown id leaves the rows unchanged. |
| GridRows.DeletedIdempotent | src/components/fields/DataGridFieldComponent.tsx:118-121 | Deleting twice is deleting once. |
| GridRows.MissingRequired | src/components/fields/DataGridFieldComponent.tsx:99-101 | Lists exactly the required columns whose draft value is falsy. |
| GridRows.AcceptedIffRequiredFilled | src/components/fields/DataGridFieldComponent.tsx:99-105 | Nothing is missing iff every required column has a truthy draft value. |
| GridRows.Renumbered | src/components/fields/DataGridFieldComponent.tsx:258 | Count is kept. Each `order` is the list index. Other attributes are kept. |
| GridRows.RenumberedIdempotent | src/components/fields/DataGridFieldComponent.tsx:258 | Renumbering twice is renumbering once. |
| GridRows.DataGrid.constructor | src/components/fields/DataGridFieldComponent.tsx:65-84 | Rows are the id-stamped source rows, all with truthy ids. No edit is open, and the dialogs and draft are empty. |
| GridRows.DataGrid.CellChange | src/components/fields/DataGridFieldComponent.tsx:87-95 | Rows become the cell-changed rows and the edit closes. Ids stay truthy unless `id` is blanked. |
| GridRows.DataGrid.AddRow | src/components/fields/DataGridFieldComponent.tsx:98-115 | A missing required value changes nothing. Otherwise exactly one row is appended (the draft with the new id overriding its own), and the draft and dialog reset. `maxRows` is not consulted. |
| GridRows.DataGrid.DeleteRow | src/components/fields/DataGridFieldComponent.tsx:118-121 | Rows become the rows without that id. Ids stay truthy. |
| GridRows.DataGrid.StartEditing | src/components/fields/DataGridFieldComponent.tsx:124-127 | A no-op when disabled. Otherwise it replaces any open edit. |
| GridRows.DataGrid.UpdateScratch | src/components/fields/DataGridFieldComponent.tsx:147-149 | Only the scratch value of the open edit changes. |
| GridRows.DataGrid.SaveCellEdit | src/components/fields/DataGridFieldComponent.tsx:135-139 | With an open edit, the scratch value is written into that field of the matching rows and the edit closes. Without one, nothing happens. |
| GridRows.DataGrid.CancelEditing | src/components/fields/DataGridFieldComponent.tsx:130-132 | The edit closes and the rows are unchanged. |
| GridRows.DataGrid.SetNewRowField | src/components/fields/DataGridFieldComponent.tsx:419-454 | One key of the draft, the column's field, is set. |
| GridRows.DataGrid.OpenAddDialog | src/components/fields/DataGridFieldComponent.tsx:289 | The dialog opens and nothing else changes. |
| GridRows.DataGrid.ColumnConfigSave | src/components/fields/DataGridFieldComponent.tsx:254-263 | Columns become the renumbered list only when `onFieldChange` exists. The dialog closes either way. As written nothing calls this handler: the configuration editor's import is commented out (line 38) and the dialog at lines 470-490 is a placeholder. |
| GridRows.DataGrid.IsMaxRowsReached | src/components/fields/DataGridFieldComponent.tsx:266 | True iff maxRows is truthy and the row count is at least maxRows. |
| GridRows.EditOfIdlessRowIsLost | src/components/fields/DataGridFieldComponent.tsx:74-84 | As written: the re-render after starting an edit of an id-less row re-stamps it, so no row carries the edit's id. Neither the cell editor nor the Save button matches it, so the edit never opens. A save of it would change nothing. |
| GridRows.StoredIdsMakeEditsStick | src/components/fields/DataGridFieldComponent.tsx:124-139 | With stored ids, a re-render reproduces the rows and a saved edit of row i lands in row i. |
| Lists.RemovedAt | src/components/DataGridFieldConfig.tsx:240 | In range: exactly position i is removed and the rest keep their order. Out of range: unchanged. |
| Lists.KeepMap | examples/DragDropFormBuilder.tsx:375 | `filter` then `map`: never longer than the input. |
| Lists.KeepMapImage | examples/DragDropFormBuilder.tsx:375 | Each result element is the image of a kept input element. |
| Lists.KeepMapAllKept | examples/DragDropFormBuilder.tsx:375 | When every element is kept and maps to its counterpart, the result is the counterpart list. |
| Lists.KeepMapAppend | examples/DragDropFormBuilder.tsx:375 | `filter(...).map(...)` over joined lists is the join of the two results. |
| Lists.RemovedThenReinserted | src/components/DataGridFieldConfig.tsx:240 | Putting the removed element back at i restores the list. |
| ColumnConfig.DefaultColumnIncomplete | src/components/DataGridFieldConfig.tsx:113-136 | The default draft cannot be saved: its `field` is empty. |
| ColumnConfig.Moved | src/components/DataGridFieldConfig.tsx:244-257 | Up at i>0 swaps i-1 and i. Down at i<len-1 swaps i and i+1. Other positions are unchanged. Boundary moves are no-ops. It is a permutation. |
| ColumnConfig.Swap | src/components/DataGridFieldConfig.tsx:248 | The two positions are exchanged, the rest are unchanged, and it is a permutation. |
| ColumnConfig.MoveDownThenUpRestores | src/components/DataGridFieldConfig.tsx:244-257 | Down at i, then up at i+1, restores the list. |
| ColumnConfig.MoveKeepsColumns | src/components/DataGridFieldConfig.tsx:244-257 | Every position holds an original column, `order` included. |
| ColumnConfig.ButtonSettings | src/components/DataGridFieldConfig.tsx:196 | A button's settings, with an absent button spreading as `{}`. |
| ColumnConfig.ColumnConfigEditor.constructor | src/components/DataGridFieldConfig.tsx:170-174 | The config is the initial config or the default. The draft is the default column. No index, dialog closed. |
| ColumnConfig.ColumnConfigEditor.DataSourceChange | src/components/DataGridFieldConfig.tsx:180-188 | Exactly one data-source key changes. |
| ColumnConfig.ColumnConfigEditor.EventButtonChange | src/components/DataGridFieldConfig.tsx:190-201 | Exactly one key of one button changes. |
| ColumnConfig.ColumnConfigEditor.AddColumn | src/components/DataGridFieldConfig.tsx:203-207 | Loads the default draft with no index and opens the dialog. |
| ColumnConfig.ColumnConfigEditor.EditColumn | src/components/DataGridFieldConfig.tsx:209-213 | Loads column i with index i and opens the dialog. |
| ColumnConfig.ColumnConfigEditor.SaveColumn | src/components/DataGridFieldConfig.tsx:215-235 | An incomplete draft changes nothing. Otherwise it replaces exactly the edited position, or appends when there is no index. The dialog closes and the index clears. |
| ColumnConfig.ColumnConfigEditor.CloseColumnDialog | src/components/DataGridFieldConfig.tsx:954 | The dialog closes and nothing else changes. |
| ColumnConfig.ColumnConfigEditor.DeleteColumn | src/components/DataGridFieldConfig.tsx:237-242 | Columns become the list without position i. |
| ColumnConfig.ColumnConfigEditor.MoveColumn | src/components/DataGridFieldConfig.tsx:244-257 | The copy-and-swap on an array yields the specified move. |
| ColumnConfig.ColumnConfigEditor.ColumnFormChange | src/components/DataGridFieldConfig.tsx:259-264 | Exactly one top-level draft key changes. |
| ColumnConfig.ColumnConfigEditor.NestedFormChange | src/components/DataGridFieldConfig.tsx:266-274 | One key inside one nested object changes. |
| ColumnConfig.NestedChangeKeepsSiblings | src/components/DataGridFieldConfig.tsx:266-274 | The nested object's other keys and every other top-level key are kept. |
| OptionsText.TrimStart | examples/DragDropFormBuilder.tsx:375 | A suffix starting at a non-space. |
| OptionsText.TrimEnd | examples/DragDropFormBuilder.tsx:375 | A prefix ending at a non-space. |
| OptionsText.Trim | examples/DragDropFormBuilder.tsx:375-377 | Trimmed, drawn from the input, and the identity on trimmed text. |
| OptionsText.Split | examples/DragDropFormBuilder.tsx:375-376 | At least one segment, none containing the separator. |
| OptionsText.SplitNoSeparator | examples/DragDropFormBuilder.tsx:376 | Text without the separator is one segment. |
| OptionsText.SplitAtSeparator | examples/DragDropFormBuilder.tsx:376 | The separator ends the first segment. |
| OptionsText.SplitJoin | examples/DragDropFormBuilder.tsx:373-375 | Splitting joined separator-free parts gives the parts back. |
| OptionsText.ParseLine | examples/DragDropFormBuilder.tsx:376-377 | Value and label are trimmed and contain no `\|` (nor a newline if the line has none). An empty label implies an empty value, because the value is the label's fallback. |
| OptionsText.SplitSegmentChars | examples/DragDropFormBuilder.tsx:376 | A segment contains only characters of the text. |
| OptionsText.ParseOptions | examples/DragDropFormBuilder.tsx:375-378 | Split on newlines, blank lines dropped, the rest parsed in order. Every parsed option is well formed. |
| OptionsText.OptionLines | examples/DragDropFormBuilder.tsx:373 | One `value\|label` line per option, in order. |
| OptionsText.ParseOptionLine | examples/DragDropFormBuilder.tsx:373-377 | A well-formed option's line is not blank and parses back to it. |
| OptionsText.TrimStartKeepsNonSpace | examples/DragDropFormBuilder.tsx:375 | Trimming the start keeps every character from the first non-space on. |
| OptionsText.TrimEndKeepsNonSpace | examples/DragDropFormBuilder.tsx:375 | Trimming the end keeps every character up to the last non-space. |
| OptionsText.TrimKeepsNonSpace | examples/DragDropFormBuilder.tsx:375 | A line with a non-space is not dropped. |
| OptionsText.ParseOptionLines | examples/DragDropFormBuilder.tsx:373-378 | The lines of well-formed options parse back to them. |
| OptionsText.ParseSerialise | examples/DragDropFormBuilder.tsx:373-378 | Round trip: parse(serialise(opts)) == opts for well-formed options. |
| OptionsText.ParseIsStable | examples/DragDropFormBuilder.tsx:373-378 | Serialising parsed text and parsing again gives the same options. |
| OptionsText.SplitTrailingSeparator | examples/DragDropFormBuilder.tsx:375 | A separator at the end of the text adds exactly one empty last segment to `split`. |
| OptionsText.ParseIgnoresTrailingNewline | examples/DragDropFormBuilder.tsx:375-378 | For every text, adding a line break at its end leaves the parsed options unchanged. |
| OptionsText.ShownIsStable | examples/DragDropFormBuilder.tsx:373-380 | The text the controlled box shows, parsed and shown again, is the same text. |
| OptionsText.EnterAtEndDisappears | examples/DragDropFormBuilder.tsx:373-380 | As written, typing Enter after `a|A` leaves the box showing `a|A`, not the typed text. |
| OptionsText.PlaceholderText | examples/DragDropFormBuilder.tsx:381 | The two sample options serialise to the placeholder text. |
| OptionsText.PlaceholderWellFormed | examples/DragDropFormBuilder.tsx:381 | The sample options are well formed. |
| OptionsText.PlaceholderExample | examples/DragDropFormBuilder.tsx:381 | The placeholder text parses to the two sample options. |
| FormBuilder.NewField | examples/DragDropFormBuilder.tsx:97-115 | id == name, not required, caption from the palette or "New Field". Two default options iff a choice type. max 5 for rating; 0/100/1 for slider. |
| FormBuilder.WithFieldAdded | examples/DragDropFormBuilder.tsx:117-124 | The field is appended only to `main-section`. Other sections are unchanged. |
| FormBuilder.FieldsWithout | examples/DragDropFormBuilder.tsx:136 | A field stays iff its id differs. |
| FormBuilder.FieldsWithoutAppend | examples/DragDropFormBuilder.tsx:136 | The filter distributes over concatenation, so order is kept. |
| FormBuilder.FieldsWithoutUnknown | examples/DragDropFormBuilder.tsx:136 | An unknown id changes nothing. |
| FormBuilder.WithFieldRemoved | examples/DragDropFormBuilder.tsx:131-142 | Every section is kept, and each section's fields are its fields without that id. |
| FormBuilder.WithFieldReplaced | examples/DragDropFormBuilder.tsx:154-162 | Each field with the id is replaced in place. Nothing moves. |
| FormBuilder.RemoveUndoesAdd | examples/DragDropFormBuilder.tsx:97-142 | Removing a just-added field with an unused id restores the sections. |
| FormBuilder.RemoveTwiceIsRemoveOnce | examples/DragDropFormBuilder.tsx:131-142 | Removing twice is removing once. |
| FormBuilder.SavingUnchangedCopyIsNoOp | examples/DragDropFormBuilder.tsx:151-162 | Saving an unmodified copy changes nothing. |
| FormBuilder.SaveTwiceIsSaveOnce | examples/DragDropFormBuilder.tsx:151-162 | Saving twice is saving once. |
| FormBuilder.Builder.constructor | examples/DragDropFormBuilder.tsx:58-72 | One empty `main-section`. Nothing is edited, and the options box is empty. |
| FormBuilder.Builder.AddField | examples/DragDropFormBuilder.tsx:97-128 | The sections gain the new field. |
| FormBuilder.Builder.RemoveField | examples/DragDropFormBuilder.tsx:131-142 | The sections lose every field with the id. |
| FormBuilder.Builder.EditField | examples/DragDropFormBuilder.tsx:145-148 | Copies the field into the draft and opens the dialog. The options box shows the field's serialised choices, so it agrees with the draft. |
| FormBuilder.Builder.SetEditingOptions | examples/DragDropFormBuilder.tsx:374-380 | The draft's options become the parsed text. In the corrected builder the box keeps exactly the typed text, and that text parses to the choices the draft displays. |
| FormBuilder.Builder.CancelEdit | examples/DragDropFormBuilder.tsx:389 | The Cancel button (and the dialog's `onClose` at line 315) closes the dialog. The draft, the options box and the sections are kept. |
| FormBuilder.Builder.SaveFieldChanges | examples/DragDropFormBuilder.tsx:151-168 | A no-op without a draft. Otherwise the draft replaces the fields with its id, and the dialog and draft are cleared. |
| DemoGrid.MathMax | examples/DataGridDemo.tsx:129 | -Infinity iff there are no rows. A finite result bounds every id. |
| DemoGrid.EmptyTableGetsNegativeInfinity | examples/DataGridDemo.tsx:129 | As written: a row added to an empty table gets id -Infinity. |
| DemoGrid.MaxId | examples/DataGridDemo.tsx:129 | An upper bound of the ids that is one of them (a falsy id counts as 0). |
| DemoGrid.NextId | examples/DataGridDemo.tsx:129 | Greater than every id. 1 for an empty table. |
| DemoGrid.NextIdAgreesOnNonEmpty | examples/DataGridDemo.tsx:129 | On a non-empty table the corrected id equals the demo's max+1. |
| DemoGrid.MaxAgrees | examples/DataGridDemo.tsx:129 | `Math.max` over numeric ids is the largest id. |
| DemoGrid.NewRow | examples/DataGridDemo.tsx:129 | The draft with its id overridden. |
| DemoGrid.DeleteWhileEditingOverwritesNeighbour | examples/DataGridDemo.tsx:121-126 | As written: deleting A while editing B in A,B,C, then saving, leaves B and B', and C is lost. |
| DemoGrid.DeleteKeepingEdit | examples/DataGridDemo.tsx:121-126 | Unconfirmed: no change. Confirmed: exactly index i is removed. The edit still points at the same row, or ends when that row is deleted. |
| DemoGrid.SimpleDataGrid.constructor | examples/DataGridDemo.tsx:96-99 | The data, no edit, empty drafts, dialog closed. |
| DemoGrid.SimpleDataGrid.EditStart | examples/DataGridDemo.tsx:101-104 | Opens row i with a copy of its data. |
| DemoGrid.SimpleDataGrid.EditDraft | examples/DataGridDemo.tsx:143-178 | One key of the edit draft changes. |
| DemoGrid.SimpleDataGrid.EditSave | examples/DataGridDemo.tsx:106-114 | Exactly the edited row is replaced by the draft, the length is kept and the edit closes. With no edit open, nothing changes. |
| DemoGrid.SimpleDataGrid.EditCancel | examples/DataGridDemo.tsx:116-119 | The edit clears and the data is unchanged. |
| DemoGrid.SimpleDataGrid.Delete | examples/DataGridDemo.tsx:121-126 | Data and edit become the corrected delete. An edit still open points at the same row. |
| DemoGrid.SimpleDataGrid.SetNewRowField | examples/DataGridDemo.tsx:293-329 | One key of the new-row draft changes. |
| DemoGrid.SimpleDataGrid.OpenAddDialog | examples/DataGridDemo.tsx:209 | The dialog opens and nothing else changes. |
| DemoGrid.SimpleDataGrid.CloseAddDialog | examples/DataGridDemo.tsx:282 | The dialog's `onClose` (and the Cancel button at line 339) closes the dialog. The draft and everything else are kept, so reopening shows the old draft. |
| DemoGrid.SimpleDataGrid.AddNew | examples/DataGridDemo.tsx:128-133 | Any draft is accepted. One row is appended with an id above every existing id. The draft resets and the dialog closes. |
| DemoGrid.AddedIdIsNew | examples/DataGridDemo.tsx:129 | The new id differs from every existing id. |

## Left out

- Rendering: JSX, dialogs, tabs, icons, styling, and the placeholder configuration dialog of the grid field.
- Regular-expression matching is a parameter (the ECMAScript RegExp engine). The exception thrown by a malformed pattern is not modelled.
- User `validator` functions are arbitrary total predicates; a validator that throws is not modelled.
- `Date.now()`/`Math.random()` ids are parameters. A generated grid id is required to be non-empty; nothing else is assumed about it.
- Numbers are integers: floats, `Number(...)` conversion, date and locale formatting, and the demo's salary average are not modelled. A string compared against a length operand is not converted to a number; `Json.NumberOf` treats it as NaN. An array operand converts as ECMAScript does for `[]`, `[null]`, `[undefined]` and `[n]`; any other array is NaN in the model.
- String lengths count characters, not UTF-16 code units.
- Data-source, API and lookup configuration is kept only as key/value maps that the editor updates. Per-column `validation` settings are not enforced anywhere in the source and are not modelled.
- React mechanics: batched `setState`, stale closures and effect dependency tracking. Each handler is one sequential transition.
- `window.confirm` is the boolean `confirmed`. `alert`, console output, drag events and `handleDrop` are I/O.
- `handleSave` of the configuration editor (hands the config to the parent and closes) and `handleTabChange` are host callbacks.
- Fixture files, stories and demos other than the simple demo grid.
- Object identity: `===` on objects and options compares values here, not references.
- Spreading a string or an array into a row (`{...value}` on a non-object) gives `{}` in the model.
- A `null` element in the grid's value list gives a row without an id. In JavaScript, reading `row.id` on it throws.
- `addField` with a type string outside the field-type union is not modelled: `FormBuilder.AddField` takes a `Schema.FieldType`.
- Writing past the end of a JavaScript array, which leaves holes, cannot happen here. `SaveColumn` requires the edited index to be in range, and `EditSave` requires the edited row to exist.
- DemoGrid.SimpleDataGrid.constructor: requires numeric (or falsy) ids. A string id is NaN in the model (see the `Number(...)` line above), which makes `Math.max` NaN; `DemoGrid.MathMax` models that case, but the corrected class does not.
- GridRows.DataGrid.UpdateScratch: requires an open edit, because the editor that calls it exists only then.
- ColumnConfig.ColumnConfigEditor.DeleteColumn: requires the column dialog to be closed. The delete buttons sit outside that dialog.

## Findings

| source | as written | input that shows it | evidently intended | confidence | as-written member | corrected member |
|---|---|---|---|---|---|---|
| src/components/fields/DataGridFieldComponent.tsx:74-84 | `ensureRowIds` runs on every render and gives an id-less row a new generated id each time. `startEditing` sets state, so the grid renders again and re-stamps the row. `editingCell.rowId` then matches no row, so neither the cell editor (line 144) nor the Save button (lines 346-349) is drawn, and the edit never opens. | value `[{name: "a"}]`, click the `name` cell: no editor opens and the row keeps `name` `"a"` | ids assigned once and kept, so an edit lands on its row | not executed | GridRows.EditOfIdlessRowIsLost | GridRows.StoredIdsMakeEditsStick |
| examples/DataGridDemo.tsx:129 | `Math.max(...[])` is `-Infinity`, so a row added to an empty table gets id `-Infinity` | empty data, then Add | the first row gets id 1 | not executed | DemoGrid.EmptyTableGetsNegativeInfinity | DemoGrid.NextId |
| examples/DataGridDemo.tsx:121-126 | `handleDelete` shifts the rows but leaves `editingRow` as it was. The next `handleEditSave` writes the draft over a different row. | rows A,B,C; edit B (index 1); delete A; save B': the data is B,B' and C is gone | the edit follows its row, or ends when that row is deleted | not executed | DemoGrid.DeleteWhileEditingOverwritesNeighbour | DemoGrid.DeleteKeepingEdit |
| examples/DragDropFormBuilder.tsx:373-380 | The options box shows the draft's choices serialised again, not the typed text. Parsing drops a trailing line break (and trims a trailing space), so the Enter that would start a new option vanishes as it is typed. | type `a|A`, then Enter: the box shows `a|A` | the box keeps the typed text and the draft holds its parse | not executed | OptionsText.EnterAtEndDisappears | FormBuilder.Builder.SetEditingOptions |

The grid class `GridRows.DataGrid` stores the id-stamped rows once, when it is
constructed. `DemoGrid.SimpleDataGrid.AddNew` numbers rows with
`DemoGrid.NextId`. `DemoGrid.SimpleDataGrid.Delete` uses
`DemoGrid.DeleteKeepingEdit`. `FormBuilder.Builder` keeps the typed options
text in `optionsText`.
