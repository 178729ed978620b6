/** The row engine of the data-grid field
    (src/components/fields/DataGridFieldComponent.tsx): id assignment, the
    add / delete / single-cell edit handlers, the max-rows gate and the
    renumbering of reconfigured columns. */
module GridRows {
  import opened Json
  import opened Schema

  /** A grid row, the plain object the table shows. */
  type Row = map<string, Value>

  /** `row.id` */
  function RowId(r: Row): Value {
    Get(r, "id")
  }

  /** `row.id` read off an element of the incoming value list; a value that
      is not an object has no own `id`. */
  function ItemId(v: Value): Value {
    Get(Spread(v), "id")
  }

  /** `value || field.initialRows || []`, where an absent `value` prop has
      already defaulted to `[]`. */
  function Source(value: Value, initialRows: Value): (v: Value)
    ensures value == Undef ==> v == Arr([])
    ensures value != Undef && Truthy(value) ==> v == value
    ensures value != Undef && !Truthy(value) && Truthy(initialRows) ==> v == initialRows
    ensures Truthy(v)
  {
    var given := if value == Undef then Arr([]) else value;
    if Truthy(given) then given else if Truthy(initialRows) then initialRows else Arr([])
  }

  /** `ensureRowIds`. `newIds[i]` is the id the generator would produce for
      the i-th row during this render (a `row_<time>_<random>` string, never
      empty); it is used only when that row's own id is falsy. */
  function EnsureRowIds(v: Value, newIds: seq<string>): (rows: seq<Row>)
    requires v.Arr? ==> |newIds| == |v.items|
    requires forall i :: 0 <= i < |newIds| ==> newIds[i] != ""
    ensures !v.Arr? ==> rows == []
    ensures v.Arr? ==> |rows| == |v.items|
    ensures v.Arr? ==> forall i :: 0 <= i < |rows| ==>
      rows[i] - {"id"} == Spread(v.items[i]) - {"id"} && "id" in rows[i] && Truthy(RowId(rows[i]))
    ensures v.Arr? ==> forall i :: 0 <= i < |rows| && Truthy(ItemId(v.items[i])) ==>
      RowId(rows[i]) == ItemId(v.items[i])
    ensures v.Arr? ==> forall i :: 0 <= i < |rows| && !Truthy(ItemId(v.items[i])) ==>
      RowId(rows[i]) == Str(newIds[i])
  {
    if !v.Arr? then []
    else
      seq(|v.items|, i requires 0 <= i < |v.items| =>
        Spread(v.items[i])["id" := if Truthy(ItemId(v.items[i])) then ItemId(v.items[i]) else Str(newIds[i])])
  }

  /** The rows handed back to the parent through `onChange`, as a value. */
  function AsValue(rows: seq<Row>): (v: Value)
    ensures v.Arr? && |v.items| == |rows|
    ensures forall i :: 0 <= i < |rows| ==> v.items[i] == Obj(rows[i])
  {
    Arr(seq(|rows|, i requires 0 <= i < |rows| => Obj(rows[i])))
  }

  predicate IdsAssigned(rows: seq<Row>) {
    forall i :: 0 <= i < |rows| ==> Truthy(RowId(rows[i]))
  }

  /** Once every row carries a truthy id, running `ensureRowIds` again
      changes nothing, whatever ids the generator would produce. */
  lemma EnsureRowIdsStable(rows: seq<Row>, newIds: seq<string>)
    requires IdsAssigned(rows)
    requires |newIds| == |rows| && forall i :: 0 <= i < |newIds| ==> newIds[i] != ""
    ensures EnsureRowIds(AsValue(rows), newIds) == rows
  {
    var r := EnsureRowIds(AsValue(rows), newIds);
    forall i | 0 <= i < |rows|
      ensures r[i] == rows[i]
    {
      assert ItemId(AsValue(rows).items[i]) == RowId(rows[i]);
      assert r[i] == rows[i]["id" := rows[i]["id"]];
    }
  }

  /** A second application of `ensureRowIds` assigns no new ids. */
  lemma EnsureRowIdsIdempotent(v: Value, ids1: seq<string>, ids2: seq<string>)
    requires v.Arr? ==> |ids1| == |v.items|
    requires forall i :: 0 <= i < |ids1| ==> ids1[i] != ""
    requires |ids2| == |EnsureRowIds(v, ids1)| && forall i :: 0 <= i < |ids2| ==> ids2[i] != ""
    ensures EnsureRowIds(AsValue(EnsureRowIds(v, ids1)), ids2) == EnsureRowIds(v, ids1)
  {
    EnsureRowIdsStable(EnsureRowIds(v, ids1), ids2);
  }

  /** `handleCellChange`: field `f` of every row whose id is `rowId` becomes
      `x`; every other field and every other row is unchanged. */
  function CellChanged(rows: seq<Row>, rowId: Value, f: string, x: Value): (r: seq<Row>)
    ensures |r| == |rows|
    ensures forall i :: 0 <= i < |r| && RowId(rows[i]) == rowId ==>
      f in r[i] && r[i][f] == x && r[i] - {f} == rows[i] - {f}
    ensures forall i :: 0 <= i < |r| && RowId(rows[i]) != rowId ==> r[i] == rows[i]
  {
    seq(|rows|, i requires 0 <= i < |rows| => if RowId(rows[i]) == rowId then rows[i][f := x] else rows[i])
  }

  /** Writing a cell other than `id` keeps every row's id. */
  lemma CellChangedKeepsIds(rows: seq<Row>, rowId: Value, f: string, x: Value)
    requires f != "id"
    ensures forall i :: 0 <= i < |rows| ==> RowId(CellChanged(rows, rowId, f, x)[i]) == RowId(rows[i])
  {
    var r := CellChanged(rows, rowId, f, x);
    forall i | 0 <= i < |rows|
      ensures RowId(r[i]) == RowId(rows[i])
    {
      assert "id" in r[i] - {f} <==> "id" in rows[i] - {f};
      if "id" in rows[i] {
        assert (r[i] - {f})["id"] == (rows[i] - {f})["id"];
      }
    }
  }

  /** `handleDeleteRow`: every row with that id dropped, the others kept in order. */
  function Deleted(rows: seq<Row>, rowId: Value): (r: seq<Row>)
    ensures |r| <= |rows|
    ensures forall row :: row in r <==> row in rows && RowId(row) != rowId
    decreases |rows|
  {
    if |rows| == 0 then []
    else
      assert rows == [rows[0]] + rows[1..];
      if RowId(rows[0]) == rowId then Deleted(rows[1..], rowId) else [rows[0]] + Deleted(rows[1..], rowId)
  }

  /** Deleting distributes over concatenation: the kept rows keep their order. */
  lemma {:induction false} DeletedAppend(a: seq<Row>, b: seq<Row>, rowId: Value)
    ensures Deleted(a + b, rowId) == Deleted(a, rowId) + Deleted(b, rowId)
    decreases |a|
  {
    if |a| == 0 {
      assert a + b == b;
    } else {
      assert (a + b)[0] == a[0] && (a + b)[1..] == a[1..] + b;
      DeletedAppend(a[1..], b, rowId);
    }
  }

  /** Deleting an id no row carries leaves the rows unchanged. */
  lemma {:induction false} DeletedUnknown(rows: seq<Row>, rowId: Value)
    requires forall i :: 0 <= i < |rows| ==> RowId(rows[i]) != rowId
    ensures Deleted(rows, rowId) == rows
    decreases |rows|
  {
    if |rows| > 0 {
      DeletedUnknown(rows[1..], rowId);
      assert rows == [rows[0]] + rows[1..];
    }
  }

  /** Deleting twice is deleting once. */
  lemma DeletedIdempotent(rows: seq<Row>, rowId: Value)
    ensures Deleted(Deleted(rows, rowId), rowId) == Deleted(rows, rowId)
  {
    var r := Deleted(rows, rowId);
    forall i | 0 <= i < |r|
      ensures RowId(r[i]) != rowId
    {
      assert r[i] in r;
    }
    DeletedUnknown(r, rowId);
  }

  /** The required columns whose draft value is falsy:
      `columns.filter(col => col.required).filter(col => !newRowData[col.field])`. */
  function MissingRequired(columns: seq<Column>, draft: Row): (r: seq<Column>)
    ensures forall c :: c in r <==> c in columns && ColumnRequired(c) && !Truthy(Get(draft, ColumnKey(c)))
    ensures |r| <= |columns|
    decreases |columns|
  {
    if |columns| == 0 then []
    else
      assert columns == [columns[0]] + columns[1..];
      var rest := MissingRequired(columns[1..], draft);
      if ColumnRequired(columns[0]) && !Truthy(Get(draft, ColumnKey(columns[0]))) then [columns[0]] + rest else rest
  }

  /** A draft is accepted exactly when every required column has a truthy value in it. */
  lemma AcceptedIffRequiredFilled(columns: seq<Column>, draft: Row)
    ensures |MissingRequired(columns, draft)| == 0 <==>
      forall j :: 0 <= j < |columns| && ColumnRequired(columns[j]) ==> Truthy(Get(draft, ColumnKey(columns[j])))
  {
    var r := MissingRequired(columns, draft);
    if |r| != 0 {
      assert r[0] in r;
      var j :| 0 <= j < |columns| && columns[j] == r[0];
      assert ColumnRequired(columns[j]) && !Truthy(Get(draft, ColumnKey(columns[j])));
    } else {
      forall j | 0 <= j < |columns| && ColumnRequired(columns[j])
        ensures Truthy(Get(draft, ColumnKey(columns[j])))
      {
        assert columns[j] !in r;
      }
    }
  }

  /** `updatedColumns.map((col, index) => ({ ...col, order: index }))` */
  function Renumbered(columns: seq<Column>): (r: seq<Column>)
    ensures |r| == |columns|
    ensures forall i :: 0 <= i < |r| ==> Get(r[i], "order") == Num(i) && r[i] - {"order"} == columns[i] - {"order"}
  {
    seq(|columns|, i requires 0 <= i < |columns| => columns[i]["order" := Num(i)])
  }

  /** Renumbering a renumbered list changes nothing. */
  lemma RenumberedIdempotent(columns: seq<Column>)
    ensures Renumbered(Renumbered(columns)) == Renumbered(columns)
  {
    var r := Renumbered(columns);
    var rr := Renumbered(r);
    forall i | 0 <= i < |r|
      ensures rr[i] == r[i]
    {
      assert rr[i] == r[i]["order" := Num(i)];
    }
  }

  /** `field.maxRows ? currentValue.length >= field.maxRows : false` */
  predicate MaxRowsReached(maxRows: Option<int>, count: nat) {
    maxRows.Some? && maxRows.value != 0 && count >= maxRows.value
  }

  /** The cell being edited and its scratch value. */
  datatype EditingCell = EditingCell(rowId: Value, field: string, scratch: Value)

  /** One mounted grid. `rows` is the list the parent holds through
      `onChange`. This class takes the corrected behaviour: the id-stamped
      rows are stored once, when the grid mounts, so every later render sees
      the same ids. The component as written stores nothing before the first
      `onChange` and stamps fresh ids on id-less rows at every render (see
      `EditOfIdlessRowIsLost` and `StoredIdsMakeEditsStick`). */
  class DataGrid {
    var rows: seq<Row>
    var columns: seq<Column>
    const maxRows: Option<int>
    const disabled: bool
    /** Whether an `onFieldChange` callback was supplied. */
    const hasFieldChange: bool
    var editingCell: Option<EditingCell>
    var addDialogOpen: bool
    var configDialogOpen: bool
    var newRowData: Row

    /** Every row carries a truthy id, so re-rendering keeps the ids. */
    ghost predicate Valid()
      reads this
    {
      IdsAssigned(rows)
    }

    constructor (value: Value, initialRows: Value, newIds: seq<string>, columns: seq<Column>,
                 maxRows: Option<int>, disabled: bool, hasFieldChange: bool)
      requires Source(value, initialRows).Arr? ==> |newIds| == |Source(value, initialRows).items|
      requires forall i :: 0 <= i < |newIds| ==> newIds[i] != ""
      ensures Valid()
      ensures rows == EnsureRowIds(Source(value, initialRows), newIds)
      ensures this.columns == columns && this.maxRows == maxRows
      ensures this.disabled == disabled && this.hasFieldChange == hasFieldChange
      ensures editingCell == None && !addDialogOpen && !configDialogOpen && newRowData == map[]
    {
      rows := EnsureRowIds(Source(value, initialRows), newIds);
      this.columns := columns;
      this.maxRows := maxRows;
      this.disabled := disabled;
      this.hasFieldChange := hasFieldChange;
      editingCell := None;
      addDialogOpen := false;
      configDialogOpen := false;
      newRowData := map[];
    }

    /** `handleCellChange`: writes one field of the rows with that id and closes the edit. */
    method CellChange(rowId: Value, fieldName: string, x: Value)
      modifies this
      ensures rows == CellChanged(old(rows), rowId, fieldName, x)
      ensures editingCell == None
      ensures old(Valid()) && (fieldName != "id" || Truthy(x)) ==> Valid()
      ensures columns == old(columns) && newRowData == old(newRowData)
      ensures addDialogOpen == old(addDialogOpen) && configDialogOpen == old(configDialogOpen)
    {
      CellChangedKeepsIdsOrTruthy(rows, rowId, fieldName, x);
      rows := CellChanged(rows, rowId, fieldName, x);
      editingCell := None;
    }

    /** `handleAddRow`: rejected while a required column is missing from the
        draft; otherwise the draft, stamped with a newIds id, is appended and
        the draft and dialog are reset. The max-rows limit is not checked. */
    method AddRow(newId: string)
      requires newId != ""
      modifies this
      ensures |MissingRequired(columns, old(newRowData))| > 0 ==>
        rows == old(rows) && newRowData == old(newRowData) && addDialogOpen == old(addDialogOpen)
      ensures |MissingRequired(columns, old(newRowData))| == 0 ==>
        rows == old(rows) + [old(newRowData)["id" := Str(newId)]] && newRowData == map[] && !addDialogOpen
      ensures old(Valid()) ==> Valid()
      ensures columns == old(columns) && editingCell == old(editingCell) && configDialogOpen == old(configDialogOpen)
    {
      var missing := MissingRequired(columns, newRowData);
      if |missing| > 0 {
        return;
      }
      rows := rows + [newRowData["id" := Str(newId)]];
      newRowData := map[];
      addDialogOpen := false;
    }

    /** `handleDeleteRow` */
    method DeleteRow(rowId: Value)
      modifies this
      ensures rows == Deleted(old(rows), rowId)
      ensures old(Valid()) ==> Valid()
      ensures columns == old(columns) && editingCell == old(editingCell) && newRowData == old(newRowData)
      ensures addDialogOpen == old(addDialogOpen) && configDialogOpen == old(configDialogOpen)
    {
      rows := Deleted(rows, rowId);
      forall i | 0 <= i < |rows|
        ensures rows[i] in old(rows)
      {
        assert rows[i] in rows;
      }
    }

    /** `startEditing`: ignored when the grid is disabled; otherwise replaces any open edit. */
    method StartEditing(rowId: Value, fieldName: string, current: Value)
      modifies this
      ensures disabled ==> editingCell == old(editingCell)
      ensures !disabled ==> editingCell == Some(EditingCell(rowId, fieldName, current))
      ensures rows == old(rows) && columns == old(columns) && newRowData == old(newRowData)
      ensures addDialogOpen == old(addDialogOpen) && configDialogOpen == old(configDialogOpen)
    {
      if disabled {
        return;
      }
      editingCell := Some(EditingCell(rowId, fieldName, current));
    }

    /** The open cell editor's change handler: `setEditingCell({ ...editingCell, value })`.
        It exists only while an edit is open. */
    method UpdateScratch(x: Value)
      requires editingCell.Some?
      modifies this
      ensures editingCell == Some(old(editingCell.value).(scratch := x))
      ensures rows == old(rows) && columns == old(columns) && newRowData == old(newRowData)
      ensures addDialogOpen == old(addDialogOpen) && configDialogOpen == old(configDialogOpen)
    {
      editingCell := Some(editingCell.value.(scratch := x));
    }

    /** `saveCellEdit`: commits the open edit, or does nothing without one. */
    method SaveCellEdit()
      modifies this
      ensures old(editingCell).None? ==> rows == old(rows) && editingCell == None
      ensures old(editingCell).Some? ==>
        var e := old(editingCell).value;
        rows == CellChanged(old(rows), e.rowId, e.field, e.scratch) && editingCell == None
      ensures old(Valid()) && (old(editingCell).Some? ==> old(editingCell).value.field != "id" || Truthy(old(editingCell).value.scratch)) ==> Valid()
      ensures columns == old(columns) && newRowData == old(newRowData)
      ensures addDialogOpen == old(addDialogOpen) && configDialogOpen == old(configDialogOpen)
    {
      if editingCell.Some? {
        var e := editingCell.value;
        CellChange(e.rowId, e.field, e.scratch);
      }
    }

    /** `cancelEditing`: closes the edit; rows unchanged. */
    method CancelEditing()
      modifies this
      ensures editingCell == None
      ensures rows == old(rows) && columns == old(columns) && newRowData == old(newRowData)
      ensures addDialogOpen == old(addDialogOpen) && configDialogOpen == old(configDialogOpen)
    {
      editingCell := None;
    }

    /** An input of the add-row dialog: `setNewRowData({ ...newRowData, [column.field]: v })`. */
    method SetNewRowField(column: Column, x: Value)
      modifies this
      ensures newRowData == old(newRowData)[ColumnKey(column) := x]
      ensures rows == old(rows) && columns == old(columns) && editingCell == old(editingCell)
      ensures addDialogOpen == old(addDialogOpen) && configDialogOpen == old(configDialogOpen)
    {
      newRowData := newRowData[ColumnKey(column) := x];
    }

    /** The Add Row button's handler; the button is offered only while this holds. */
    predicate CanOpenAddDialog(allowAdd: bool)
      reads this
    {
      allowAdd && !disabled && !IsMaxRowsReached()
    }

    method OpenAddDialog()
      modifies this
      ensures addDialogOpen
      ensures rows == old(rows) && columns == old(columns) && editingCell == old(editingCell)
      ensures newRowData == old(newRowData) && configDialogOpen == old(configDialogOpen)
    {
      addDialogOpen := true;
    }

    /** `handleColumnConfigSave`: the renumbered columns reach the field only
        through `onFieldChange`; the dialog closes either way. */
    method ColumnConfigSave(updated: seq<Column>)
      modifies this
      ensures hasFieldChange ==> columns == Renumbered(updated)
      ensures !hasFieldChange ==> columns == old(columns)
      ensures !configDialogOpen
      ensures rows == old(rows) && editingCell == old(editingCell) && newRowData == old(newRowData)
      ensures addDialogOpen == old(addDialogOpen)
    {
      if hasFieldChange {
        columns := Renumbered(updated);
      }
      configDialogOpen := false;
    }

    /** `isMaxRowsReached` */
    function IsMaxRowsReached(): (b: bool)
      reads this
      ensures b <==> maxRows.Some? && maxRows.value != 0 && |rows| >= maxRows.value
    {
      MaxRowsReached(maxRows, |rows|)
    }
  }

  /** Ids stay truthy under a cell write, unless the write blanks the `id` cell itself. */
  lemma CellChangedKeepsIdsOrTruthy(rows: seq<Row>, rowId: Value, f: string, x: Value)
    ensures IdsAssigned(rows) && (f != "id" || Truthy(x)) ==> IdsAssigned(CellChanged(rows, rowId, f, x))
  {
    if f != "id" {
      CellChangedKeepsIds(rows, rowId, f, x);
    }
  }

  /** As written, a row that reaches the grid without an id is given a new
      generated id on every render. Starting an edit sets state, so the grid
      renders again and re-stamps the row: the open edit names the id of the
      earlier render, which no row carries any more. Neither the cell editor
      nor the Save button matches it, so the edit never opens; and a save of
      it, were one reached, would change nothing. */
  lemma EditOfIdlessRowIsLost()
    ensures var value := Arr([Obj(map["name" := Str("a")])]);
      var firstRender := EnsureRowIds(Source(value, Undef), ["row_1"]);
      var edit := EditingCell(RowId(firstRender[0]), "name", Str("b"));
      var secondRender := EnsureRowIds(Source(value, Undef), ["row_2"]);
      RowId(secondRender[0]) != edit.rowId
        && CellChanged(secondRender, edit.rowId, edit.field, edit.scratch) == secondRender
        && Get(CellChanged(secondRender, edit.rowId, edit.field, edit.scratch)[0], "name") == Str("a")
  {
    var value := Arr([Obj(map["name" := Str("a")])]);
    var firstRender := EnsureRowIds(Source(value, Undef), ["row_1"]);
    var secondRender := EnsureRowIds(Source(value, Undef), ["row_2"]);
    assert RowId(firstRender[0]) == Str("row_1");
    assert RowId(secondRender[0]) == Str("row_2");
    assert "name" in secondRender[0] - {"id"};
  }

  /** With the ids stored once, as the grid does from mount on, every later
      render reproduces the same rows, and an edit started on row `i` and
      then saved lands in row `i`. */
  lemma StoredIdsMakeEditsStick(rows: seq<Row>, newIds: seq<string>, i: nat, f: string, x: Value)
    requires IdsAssigned(rows) && i < |rows|
    requires |newIds| == |rows| && forall j :: 0 <= j < |newIds| ==> newIds[j] != ""
    ensures var rendered := EnsureRowIds(AsValue(rows), newIds);
      rendered == rows
        && Get(CellChanged(rendered, RowId(rows[i]), f, x)[i], f) == x
  {
    EnsureRowIdsStable(rows, newIds);
  }
}
