/** The grid configuration editor (src/components/DataGridFieldConfig.tsx):
    the column list with its add / edit / save / delete / move handlers, the
    column draft, and the data-source and event-button settings. */
module ColumnConfig {
  import opened Json
  import opened Schema
  import opened Lists

  datatype Direction = Up | Down

  /** The three event buttons, `eventButtons.insert`, `.update` and `.delete`. */
  datatype ButtonKind = Insert | Update | Delete

  /** The configuration being edited. Data-source and button settings are
      kept as the objects they are. */
  datatype Config = Config(
    dataSource: map<string, Value>,
    eventButtons: map<ButtonKind, map<string, Value>>,
    columns: seq<Column>)

  /** `defaultColumn`: the draft loaded by the Add Column button. */
  const DefaultColumn: Column := map[
    "field" := Str(""),
    "headerName" := Str(""),
    "displayName" := Str(""),
    "type" := Str("string"),
    "dataType" := Str("varchar"),
    "width" := Num(150),
    "editable" := Bool(true),
    "required" := Bool(false),
    "isPrimaryKey" := Bool(false),
    "gridDisplayOption" := Str("visible"),
    "format" := Obj(map["type" := Str("none")]),
    "canCreate" := Bool(true),
    "canUpdate" := Bool(true),
    "formatLookup" := Obj(map["enabled" := Bool(false)]),
    "lookupAttributes" := Obj(map["enabled" := Bool(false), "source" := Str("static")])]

  /** `defaultConfig`: a static data source, all three buttons enabled, no columns. */
  const DefaultConfig: Config := Config(
    map["type" := Str("static")],
    map[
      Insert := map["enabled" := Bool(true), "label" := Str("Add Row"), "position" := Str("top")],
      Update := map["enabled" := Bool(true), "label" := Str("Edit"), "position" := Str("row"), "mode" := Str("inline")],
      Delete := map["enabled" := Bool(true), "label" := Str("Delete"), "position" := Str("row"), "confirmDialog" := Bool(true)]],
    [])

  /** `!columnForm.field || !columnForm.headerName`: the draft cannot be saved. */
  predicate Incomplete(form: Column) {
    !Truthy(Get(form, "field")) || !Truthy(Get(form, "headerName"))
  }

  /** A freshly loaded default draft is always incomplete, so saving it changes nothing. */
  lemma DefaultColumnIncomplete()
    ensures Incomplete(DefaultColumn)
  {
    assert Get(DefaultColumn, "field") == Str("");
  }

  /** The column list after `handleMoveColumn(index, direction)`. */
  function Moved(columns: seq<Column>, index: nat, direction: Direction): (r: seq<Column>)
    requires index < |columns|
    ensures |r| == |columns|
    ensures multiset(r) == multiset(columns)
    ensures direction == Up && index > 0 ==>
      r[index - 1] == columns[index] && r[index] == columns[index - 1] &&
      forall j :: 0 <= j < |r| && j != index - 1 && j != index ==> r[j] == columns[j]
    ensures direction == Down && index < |columns| - 1 ==>
      r[index + 1] == columns[index] && r[index] == columns[index + 1] &&
      forall j :: 0 <= j < |r| && j != index + 1 && j != index ==> r[j] == columns[j]
    ensures (direction == Up && index == 0) || (direction == Down && index == |columns| - 1) ==> r == columns
  {
    if direction == Up && index > 0 then
      Swap(columns, index - 1, index)
    else if direction == Down && index < |columns| - 1 then
      Swap(columns, index, index + 1)
    else
      columns
  }

  function Swap(s: seq<Column>, i: nat, j: nat): (r: seq<Column>)
    requires i < j < |s|
    ensures |r| == |s| && r[i] == s[j] && r[j] == s[i]
    ensures forall k :: 0 <= k < |s| && k != i && k != j ==> r[k] == s[k]
    ensures multiset(r) == multiset(s)
  {
    var r := s[i := s[j]][j := s[i]];
    assert s == s[..i] + [s[i]] + s[i + 1..j] + [s[j]] + s[j + 1..];
    assert r == s[..i] + [s[j]] + s[i + 1..j] + [s[i]] + s[j + 1..];
    r
  }

  /** Moving a column down and then moving it back up restores the list. */
  lemma MoveDownThenUpRestores(columns: seq<Column>, index: nat)
    requires index + 1 < |columns|
    ensures Moved(Moved(columns, index, Down), index + 1, Up) == columns
  {
    var r := Moved(Moved(columns, index, Down), index + 1, Up);
    assert forall j :: 0 <= j < |columns| ==> r[j] == columns[j];
  }

  /** Moving a column never touches a column's attributes, its `order` included:
      each position holds one of the original columns. */
  lemma MoveKeepsColumns(columns: seq<Column>, index: nat, direction: Direction, j: nat)
    requires index < |columns| && j < |columns|
    ensures Moved(columns, index, direction)[j] in columns
  {
    var r := Moved(columns, index, direction);
    assert r[j] in multiset(r);
  }

  /** `prev.eventButtons[buttonType]`, an absent entry spreading as `{}`. */
  function ButtonSettings(buttons: map<ButtonKind, map<string, Value>>, kind: ButtonKind): (r: map<string, Value>)
    ensures kind in buttons ==> r == buttons[kind]
    ensures kind !in buttons ==> r == map[]
  {
    if kind in buttons then buttons[kind] else map[]
  }

  class ColumnConfigEditor {
    var config: Config
    var columnForm: Column
    var editingIndex: Option<nat>
    var showColumnDialog: bool

    /** While the column dialog is open, the index it edits names a column. */
    ghost predicate Valid()
      reads this
    {
      showColumnDialog && editingIndex.Some? ==> editingIndex.value < |config.columns|
    }

    /** `useState(initialConfig || defaultConfig)` and the other initial states. */
    constructor (initialConfig: Option<Config>)
      ensures Valid()
      ensures initialConfig.Some? ==> config == initialConfig.value
      ensures initialConfig.None? ==> config == DefaultConfig
      ensures columnForm == DefaultColumn && editingIndex == None && !showColumnDialog
    {
      config := if initialConfig.Some? then initialConfig.value else DefaultConfig;
      columnForm := DefaultColumn;
      editingIndex := None;
      showColumnDialog := false;
    }

    /** `handleDataSourceChange`: one key of the data source. */
    method DataSourceChange(key: string, v: Value)
      modifies this
      ensures config == old(config).(dataSource := old(config).dataSource[key := v])
      ensures columnForm == old(columnForm) && editingIndex == old(editingIndex)
      ensures showColumnDialog == old(showColumnDialog)
      ensures old(Valid()) ==> Valid()
    {
      config := config.(dataSource := config.dataSource[key := v]);
    }

    /** `handleEventButtonChange`: one key of one button's settings. */
    method EventButtonChange(kind: ButtonKind, key: string, v: Value)
      modifies this
      ensures config == old(config).(eventButtons :=
        old(config).eventButtons[kind := ButtonSettings(old(config).eventButtons, kind)[key := v]])
      ensures columnForm == old(columnForm) && editingIndex == old(editingIndex)
      ensures showColumnDialog == old(showColumnDialog)
      ensures old(Valid()) ==> Valid()
    {
      var settings := ButtonSettings(config.eventButtons, kind);
      config := config.(eventButtons := config.eventButtons[kind := settings[key := v]]);
    }

    /** `handleAddColumn`: the default draft, for appending. */
    method AddColumn()
      modifies this
      ensures columnForm == DefaultColumn && editingIndex == None && showColumnDialog
      ensures config == old(config)
      ensures Valid()
    {
      columnForm := DefaultColumn;
      editingIndex := None;
      showColumnDialog := true;
    }

    /** `handleEditColumn(index)`: a copy of that column, for replacing it. */
    method EditColumn(index: nat)
      requires index < |config.columns|
      modifies this
      ensures config == old(config)
      ensures columnForm == config.columns[index] && editingIndex == Some(index) && showColumnDialog
      ensures Valid()
    {
      columnForm := config.columns[index];
      editingIndex := Some(index);
      showColumnDialog := true;
    }

    /** `handleSaveColumn`: an incomplete draft changes nothing; otherwise the
        draft replaces the edited column or is appended, and the dialog closes. */
    method SaveColumn()
      requires Valid() && showColumnDialog
      modifies this
      ensures Valid()
      ensures Incomplete(old(columnForm)) ==>
        config == old(config) && editingIndex == old(editingIndex) && showColumnDialog
      ensures !Incomplete(old(columnForm)) && old(editingIndex).Some? ==>
        config == old(config).(columns := old(config).columns[old(editingIndex).value := old(columnForm)])
      ensures !Incomplete(old(columnForm)) && old(editingIndex).None? ==>
        config == old(config).(columns := old(config).columns + [old(columnForm)])
      ensures !Incomplete(old(columnForm)) ==> editingIndex == None && !showColumnDialog
      ensures columnForm == old(columnForm)
    {
      if Incomplete(columnForm) {
        return;
      }
      var newColumns := config.columns;
      if editingIndex.Some? {
        newColumns := newColumns[editingIndex.value := columnForm];
      } else {
        newColumns := newColumns + [columnForm];
      }
      config := config.(columns := newColumns);
      showColumnDialog := false;
      editingIndex := None;
    }

    /** The column dialog's Cancel: closes it, leaving the index as it was. */
    method CloseColumnDialog()
      modifies this
      ensures !showColumnDialog && Valid()
      ensures config == old(config) && columnForm == old(columnForm) && editingIndex == old(editingIndex)
    {
      showColumnDialog := false;
    }

    /** `handleDeleteColumn(index)`; only offered while no column dialog is open. */
    method DeleteColumn(index: int)
      requires !showColumnDialog
      modifies this
      ensures config == old(config).(columns := RemovedAt(old(config).columns, index))
      ensures columnForm == old(columnForm) && editingIndex == old(editingIndex) && !showColumnDialog
      ensures Valid()
    {
      config := config.(columns := RemovedAt(config.columns, index));
    }

    /** `handleMoveColumn`: the list is copied and two neighbours are swapped
        in the copy, unless the column is already at that end. */
    method MoveColumn(index: nat, direction: Direction)
      requires index < |config.columns|
      modifies this
      ensures config == old(config).(columns := Moved(old(config).columns, index, direction))
      ensures columnForm == old(columnForm) && editingIndex == old(editingIndex)
      ensures showColumnDialog == old(showColumnDialog)
      ensures old(Valid()) ==> Valid()
    {
      var columns := config.columns;
      var newColumns := new Column[|columns|](i requires 0 <= i < |columns| => columns[i]);
      if direction == Up && index > 0 {
        newColumns[index], newColumns[index - 1] := newColumns[index - 1], newColumns[index];
      } else if direction == Down && index < newColumns.Length - 1 {
        newColumns[index], newColumns[index + 1] := newColumns[index + 1], newColumns[index];
      }
      assert newColumns[..] == Moved(columns, index, direction);
      config := config.(columns := newColumns[..]);
    }

    /** `handleColumnFormChange`: one top-level key of the draft. */
    method ColumnFormChange(key: string, v: Value)
      modifies this
      ensures columnForm == old(columnForm)[key := v]
      ensures config == old(config) && editingIndex == old(editingIndex)
      ensures showColumnDialog == old(showColumnDialog)
      ensures old(Valid()) ==> Valid()
    {
      columnForm := columnForm[key := v];
    }

    /** `handleNestedFormChange`: one key inside one nested object of the
        draft; that object's other keys are kept. */
    method NestedFormChange(parent: string, key: string, v: Value)
      modifies this
      ensures columnForm == old(columnForm)[parent := Obj(Spread(Get(old(columnForm), parent))[key := v])]
      ensures config == old(config) && editingIndex == old(editingIndex)
      ensures showColumnDialog == old(showColumnDialog)
      ensures old(Valid()) ==> Valid()
    {
      columnForm := columnForm[parent := Obj(Spread(Get(columnForm, parent))[key := v])];
    }
  }

  /** A nested edit keeps the other keys of the nested object and every other top-level key. */
  lemma NestedChangeKeepsSiblings(form: Column, parent: string, key: string, v: Value, other: string, top: string)
    requires other != key && top != parent
    ensures var r := form[parent := Obj(Spread(Get(form, parent))[key := v])];
      && Get(Spread(Get(r, parent)), key) == v
      && Get(Spread(Get(r, parent)), other) == Get(Spread(Get(form, parent)), other)
      && Get(r, top) == Get(form, top)
  {
  }
}
