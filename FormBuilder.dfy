/** The drag-and-drop form builder (examples/DragDropFormBuilder.tsx): the
    form's sections, the field being edited, and the handlers that add,
    remove and save fields. */
module FormBuilder {
  import opened Json
  import opened Schema
  import opened OptionsText

  /** The palette caption of a field kind (`FIELD_TYPES`); kinds that are not
      in the palette have none. */
  function PaletteLabel(kind: FieldType): Option<string> {
    match kind
    case Text => Some("Text Input")
    case Email => Some("Email")
    case Password => Some("Password")
    case Number => Some("Number")
    case Textarea => Some("Textarea")
    case Select => Some("Dropdown")
    case Multiselect => Some("Multi-Select")
    case Radio => Some("Radio Group")
    case Checkbox => Some("Checkbox")
    case Switch => Some("Toggle Switch")
    case Rating => Some("Star Rating")
    case Slider => Some("Range Slider")
    case Date => Some("Date Picker")
    case Time => Some("Time Picker")
    case _ => None
  }

  predicate HasChoices(kind: FieldType) {
    kind == Select || kind == Multiselect || kind == Radio || kind == Checkbox
  }

  /** The two choices a new choice field starts with. */
  const DefaultChoices: seq<SelectOption> :=
    [SelectOption("option1", "Option 1"), SelectOption("option2", "Option 2")]

  /** The field `addField` creates for `kind` under the generated id `fieldId`. */
  function NewField(kind: FieldType, fieldId: string): (f: Field)
    ensures f.id == fieldId && f.name == fieldId && f.kind == kind && !f.required
    ensures PaletteLabel(kind).Some? && PaletteLabel(kind).value != "" ==> f.caption == PaletteLabel(kind).value
    ensures PaletteLabel(kind).None? ==> f.caption == "New Field"
    ensures HasChoices(kind) <==> f.options.Some?
    ensures HasChoices(kind) ==> f.options.value == DefaultChoices
    ensures kind == Rating ==> f.max == Some(5) && f.min.None? && f.step.None?
    ensures kind == Slider ==> f.min == Some(0) && f.max == Some(100) && f.step == Some(1)
    ensures kind != Rating && kind != Slider ==> f.min.None? && f.max.None? && f.step.None?
    ensures f.validation == [] && f.defaultValue == Undef && !f.multiple
  {
    var caption := if PaletteLabel(kind).Some? && PaletteLabel(kind).value != "" then PaletteLabel(kind).value else "New Field";
    Field(fieldId, fieldId, caption, kind, false, [], Undef,
          if HasChoices(kind) then Some(DefaultChoices) else None,
          false,
          if kind == Slider then Some(0) else None,
          if kind == Rating then Some(5) else if kind == Slider then Some(100) else None,
          if kind == Slider then Some(1) else None)
  }

  const MainSection := "main-section"

  /** `addField`'s section update: the new field goes to the end of each
      section with id `main-section`; every other section is unchanged. */
  function WithFieldAdded(sections: seq<Section>, f: Field): (r: seq<Section>)
    ensures |r| == |sections|
    ensures forall i :: 0 <= i < |r| ==> r[i].id == sections[i].id
    ensures forall i :: 0 <= i < |r| && sections[i].id == MainSection ==> r[i].fields == sections[i].fields + [f]
    ensures forall i :: 0 <= i < |r| && sections[i].id != MainSection ==> r[i] == sections[i]
  {
    seq(|sections|, i requires 0 <= i < |sections| =>
      if sections[i].id == MainSection then sections[i].(fields := sections[i].fields + [f]) else sections[i])
  }

  /** `section.fields.filter(field => field.id !== fieldId)` */
  function FieldsWithout(fields: seq<Field>, fieldId: string): (r: seq<Field>)
    ensures forall g :: g in r <==> g in fields && g.id != fieldId
    ensures |r| <= |fields|
    decreases |fields|
  {
    if |fields| == 0 then []
    else
      assert fields == [fields[0]] + fields[1..];
      if fields[0].id == fieldId then FieldsWithout(fields[1..], fieldId)
      else [fields[0]] + FieldsWithout(fields[1..], fieldId)
  }

  lemma {:induction false} FieldsWithoutAppend(a: seq<Field>, b: seq<Field>, fieldId: string)
    ensures FieldsWithout(a + b, fieldId) == FieldsWithout(a, fieldId) + FieldsWithout(b, fieldId)
    decreases |a|
  {
    if |a| == 0 {
      assert a + b == b;
    } else {
      assert (a + b)[0] == a[0] && (a + b)[1..] == a[1..] + b;
      FieldsWithoutAppend(a[1..], b, fieldId);
    }
  }

  lemma {:induction false} FieldsWithoutUnknown(fields: seq<Field>, fieldId: string)
    requires forall j :: 0 <= j < |fields| ==> fields[j].id != fieldId
    ensures FieldsWithout(fields, fieldId) == fields
    decreases |fields|
  {
    if |fields| > 0 {
      FieldsWithoutUnknown(fields[1..], fieldId);
      assert fields == [fields[0]] + fields[1..];
    }
  }

  /** `removeField`'s section update: every field with that id leaves every
      section; sections and the remaining fields keep their order. */
  function WithFieldRemoved(sections: seq<Section>, fieldId: string): (r: seq<Section>)
    ensures |r| == |sections|
    ensures forall i :: 0 <= i < |r| ==> r[i].id == sections[i].id
    ensures forall i :: 0 <= i < |r| ==> r[i].fields == FieldsWithout(sections[i].fields, fieldId)
  {
    seq(|sections|, i requires 0 <= i < |sections| =>
      sections[i].(fields := FieldsWithout(sections[i].fields, fieldId)))
  }

  /** `saveFieldChanges`' section update: each field whose id is `edited.id`
      is replaced in place; nothing moves. */
  function WithFieldReplaced(sections: seq<Section>, edited: Field): (r: seq<Section>)
    ensures |r| == |sections|
    ensures forall i :: 0 <= i < |r| ==> r[i].id == sections[i].id && |r[i].fields| == |sections[i].fields|
    ensures forall i, j :: 0 <= i < |r| && 0 <= j < |r[i].fields| ==>
      r[i].fields[j] == if sections[i].fields[j].id == edited.id then edited else sections[i].fields[j]
  {
    seq(|sections|, i requires 0 <= i < |sections| =>
      sections[i].(fields := seq(|sections[i].fields|, j requires 0 <= j < |sections[i].fields| =>
        if sections[i].fields[j].id == edited.id then edited else sections[i].fields[j])))
  }

  predicate IdInUse(sections: seq<Section>, fieldId: string) {
    exists i, j :: 0 <= i < |sections| && 0 <= j < |sections[i].fields| && sections[i].fields[j].id == fieldId
  }

  /** Removing a freshly added field restores the sections. */
  lemma RemoveUndoesAdd(sections: seq<Section>, kind: FieldType, fieldId: string)
    requires !IdInUse(sections, fieldId)
    ensures WithFieldRemoved(WithFieldAdded(sections, NewField(kind, fieldId)), fieldId) == sections
  {
    var f := NewField(kind, fieldId);
    var added := WithFieldAdded(sections, f);
    var r := WithFieldRemoved(added, fieldId);
    forall i | 0 <= i < |sections|
      ensures r[i] == sections[i]
    {
      FieldsWithoutUnknown(sections[i].fields, fieldId);
      if sections[i].id == MainSection {
        FieldsWithoutAppend(sections[i].fields, [f], fieldId);
        assert FieldsWithout([f], fieldId) == [];
      }
    }
  }

  /** Removing is idempotent. */
  lemma RemoveTwiceIsRemoveOnce(sections: seq<Section>, fieldId: string)
    ensures WithFieldRemoved(WithFieldRemoved(sections, fieldId), fieldId) == WithFieldRemoved(sections, fieldId)
  {
    var once := WithFieldRemoved(sections, fieldId);
    forall i | 0 <= i < |sections|
      ensures FieldsWithout(once[i].fields, fieldId) == once[i].fields
    {
      forall j | 0 <= j < |once[i].fields|
        ensures once[i].fields[j].id != fieldId
      {
        assert once[i].fields[j] in once[i].fields;
      }
      FieldsWithoutUnknown(once[i].fields, fieldId);
    }
  }

  /** Saving an unmodified copy of a field whose id no other field shares changes nothing. */
  lemma SavingUnchangedCopyIsNoOp(sections: seq<Section>, edited: Field)
    requires forall i, j :: 0 <= i < |sections| && 0 <= j < |sections[i].fields| && sections[i].fields[j].id == edited.id ==>
      sections[i].fields[j] == edited
    ensures WithFieldReplaced(sections, edited) == sections
  {
    var r := WithFieldReplaced(sections, edited);
    forall i | 0 <= i < |sections|
      ensures r[i] == sections[i]
    {
      assert r[i].fields == sections[i].fields;
    }
  }

  /** Saving the same edit twice is saving it once. */
  lemma SaveTwiceIsSaveOnce(sections: seq<Section>, edited: Field)
    ensures WithFieldReplaced(WithFieldReplaced(sections, edited), edited) == WithFieldReplaced(sections, edited)
  {
    SavingUnchangedCopyIsNoOp(WithFieldReplaced(sections, edited), edited);
  }

  /** The builder. The options box keeps the text the user typed in
      `optionsText` rather than re-deriving it from the draft's choices on
      every keystroke, so a line break or a space typed at the end of a line
      stays visible (see `OptionsText.EnterAtEndDisappears` for the
      behaviour without it). */
  class Builder {
    var sections: seq<Section>
    var editingField: Option<Field>
    var editDialogOpen: bool
    var optionsText: string

    /** The options box's text parses to the choices the draft displays. */
    ghost predicate BoxAgreesWithDraft()
      reads this
    {
      editingField.Some? ==>
        ParseOptions(optionsText) == ParseOptions(SerialiseOptions(editingField.value.options))
    }

    /** The builder starts with one empty section, `main-section`. */
    constructor ()
      ensures sections == [Section(MainSection, [])]
      ensures editingField == None && !editDialogOpen && optionsText == ""
      ensures BoxAgreesWithDraft()
    {
      sections := [Section(MainSection, [])];
      editingField := None;
      editDialogOpen := false;
      optionsText := "";
    }

    /** `addField`; `fieldId` is the `field_<time>` id. */
    method AddField(kind: FieldType, fieldId: string)
      modifies this
      ensures sections == WithFieldAdded(old(sections), NewField(kind, fieldId))
      ensures editingField == old(editingField) && editDialogOpen == old(editDialogOpen)
      ensures optionsText == old(optionsText)
    {
      var newField := NewField(kind, fieldId);
      sections := WithFieldAdded(sections, newField);
    }

    /** `removeField` */
    method RemoveField(fieldId: string)
      modifies this
      ensures sections == WithFieldRemoved(old(sections), fieldId)
      ensures editingField == old(editingField) && editDialogOpen == old(editDialogOpen)
      ensures optionsText == old(optionsText)
    {
      sections := WithFieldRemoved(sections, fieldId);
    }

    /** `editField`: a copy of the field goes into the edit dialog, and the
        options box shows its choices. */
    method EditField(f: Field)
      modifies this
      ensures editingField == Some(f) && editDialogOpen
      ensures optionsText == SerialiseOptions(f.options)
      ensures sections == old(sections)
      ensures BoxAgreesWithDraft()
    {
      editingField := Some(f);
      editDialogOpen := true;
      optionsText := SerialiseOptions(f.options);
    }

    /** The options editor's change handler: the draft's choices become the
        parsed text, and the box keeps exactly the text that was typed. */
    method SetEditingOptions(text: string)
      requires editingField.Some?
      modifies this
      ensures editingField == Some(old(editingField).value.(options := Some(ParseOptions(text))))
      ensures optionsText == text
      ensures sections == old(sections) && editDialogOpen == old(editDialogOpen)
      ensures BoxAgreesWithDraft()
    {
      editingField := Some(editingField.value.(options := Some(ParseOptions(text))));
      optionsText := text;
      ParseIsStable(text);
    }

    /** The edit dialog's Cancel button and its `onClose`: the dialog closes
        and the draft stays set, unsaved. */
    method CancelEdit()
      modifies this
      ensures !editDialogOpen
      ensures sections == old(sections) && editingField == old(editingField)
      ensures optionsText == old(optionsText)
    {
      editDialogOpen := false;
    }

    /** `saveFieldChanges`: without a draft nothing happens; otherwise the
        draft replaces the fields with its id and the dialog closes. */
    method SaveFieldChanges()
      modifies this
      ensures old(editingField).None? ==>
        sections == old(sections) && editingField == None && editDialogOpen == old(editDialogOpen)
      ensures old(editingField).Some? ==>
        sections == WithFieldReplaced(old(sections), old(editingField).value) && editingField == None && !editDialogOpen
      ensures optionsText == old(optionsText)
      ensures BoxAgreesWithDraft()
    {
      if editingField.None? {
        return;
      }
      sections := WithFieldReplaced(sections, editingField.value);
      editDialogOpen := false;
      editingField := None;
    }
  }
}
