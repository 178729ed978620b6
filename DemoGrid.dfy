/** The demo's simple grid (`SimpleDataGrid` in examples/DataGridDemo.tsx):
    rows addressed by index, one row edited at a time through a draft copy,
    deletion after a confirmation, and new rows numbered after the largest id. */
module DemoGrid {
  import opened Json
  import opened Lists

  type Row = map<string, Value>

  /** `row.id || 0` as `Math.max` reads it; `None` stands for NaN (an id
      that is not a number). */
  function IdNumber(row: Row): Option<int> {
    var id := Get(row, "id");
    if Truthy(id) then NumberOf(id) else Some(0)
  }

  predicate NumericIds(data: seq<Row>) {
    forall i :: 0 <= i < |data| ==> IdNumber(data[i]).Some?
  }

  /** A JavaScript number as `Math.max` can produce it from integer ids. */
  datatype JsNumber = NegInfinity | NaN | Finite(n: int)

  function Larger(a: JsNumber, b: Option<int>): JsNumber {
    if a.NaN? || b.None? then NaN
    else if a.NegInfinity? then Finite(b.value)
    else Finite(if a.n >= b.value then a.n else b.value)
  }

  /** `Math.max(...data.map(row => row.id || 0))`: `-Infinity` for no rows,
      NaN as soon as one id is not a number. */
  function MathMax(data: seq<Row>): (m: JsNumber)
    ensures |data| == 0 <==> m.NegInfinity?
    ensures m.Finite? ==> forall i :: 0 <= i < |data| ==> IdNumber(data[i]).Some? && IdNumber(data[i]).value <= m.n
    decreases |data|
  {
    if |data| == 0 then NegInfinity
    else Larger(MathMax(data[..|data| - 1]), IdNumber(data[|data| - 1]))
  }

  /** The id `handleAddNew` computes, as written: the maximum plus one. */
  function NextIdAsWritten(data: seq<Row>): JsNumber {
    match MathMax(data)
    case NegInfinity => NegInfinity
    case NaN => NaN
    case Finite(m) => Finite(m + 1)
  }

  /** As written, a row added to an empty table gets the id `-Infinity`. */
  lemma EmptyTableGetsNegativeInfinity()
    ensures NextIdAsWritten([]) == NegInfinity
  {
  }

  /** The largest numeric id of a non-empty table with numeric ids. */
  function MaxId(data: seq<Row>): (m: int)
    requires |data| > 0 && NumericIds(data)
    ensures forall i :: 0 <= i < |data| ==> IdNumber(data[i]).value <= m
    ensures exists i :: 0 <= i < |data| && IdNumber(data[i]).value == m
    decreases |data|
  {
    var last := IdNumber(data[|data| - 1]).value;
    if |data| == 1 then last
    else
      var rest := MaxId(data[..|data| - 1]);
      assert forall i :: 0 <= i < |data| - 1 ==> data[..|data| - 1][i] == data[i];
      if rest >= last then rest else last
  }

  /** The id a new row gets: one more than the largest id, and 1 for an empty table. */
  function NextId(data: seq<Row>): (r: int)
    requires NumericIds(data)
    ensures forall i :: 0 <= i < |data| ==> IdNumber(data[i]).value < r
    ensures |data| == 0 ==> r == 1
  {
    if |data| == 0 then 1 else MaxId(data) + 1
  }

  /** On a non-empty table with numeric ids the corrected id is the one the
      demo computes. */
  lemma {:induction false} NextIdAgreesOnNonEmpty(data: seq<Row>)
    requires |data| > 0 && NumericIds(data)
    ensures NextIdAsWritten(data) == Finite(NextId(data))
    decreases |data|
  {
    MaxAgrees(data);
  }

  lemma {:induction false} MaxAgrees(data: seq<Row>)
    requires |data| > 0 && NumericIds(data)
    ensures MathMax(data) == Finite(MaxId(data))
    decreases |data|
  {
    var init := data[..|data| - 1];
    if |data| > 1 {
      assert NumericIds(init) by {
        assert forall i :: 0 <= i < |init| ==> init[i] == data[i];
      }
      MaxAgrees(init);
    }
  }

  /** `{ ...newRowData, id: ... }`: the draft with its id overridden. */
  function NewRow(draft: Row, id: int): (r: Row)
    ensures Get(r, "id") == Num(id)
    ensures r - {"id"} == draft - {"id"}
  {
    draft["id" := Num(id)]
  }

  /** `handleDelete` as written: the row is dropped but the index of the row
      being edited is left as it was. */
  function DeleteAsWritten(data: seq<Row>, editingRow: Option<nat>, index: int, confirmed: bool): (seq<Row>, Option<nat>) {
    if confirmed then (RemovedAt(data, index), editingRow) else (data, editingRow)
  }

  /** As written, deleting a row above the one being edited makes the save
      overwrite the row below it: with rows A, B, C, editing B, deleting A and
      saving B' leaves B and B', and C is gone. */
  lemma DeleteWhileEditingOverwritesNeighbour()
    ensures var a := map["id" := Num(1)];
      var b := map["id" := Num(2)];
      var c := map["id" := Num(3)];
      var b' := map["id" := Num(2), "name" := Str("B")];
      var (data, editing) := DeleteAsWritten([a, b, c], Some(1), 0, true);
      && editing == Some(1) && editing.value < |data|
      && data[editing.value := b'] == [b, b']
      && c !in data[editing.value := b']
  {
    var a := map["id" := Num(1)];
    var b := map["id" := Num(2)];
    var c := map["id" := Num(3)];
    var b' := map["id" := Num(2), "name" := Str("B")];
    assert RemovedAt([a, b, c], 0) == [b, c];
    assert Get(c, "id") != Get(b, "id") && Get(c, "id") != Get(b', "id");
  }

  /** `handleDelete` with the index of the edited row kept on the same row:
      a deletion above it shifts it up, and deleting the edited row itself
      ends the edit. */
  function DeleteKeepingEdit(data: seq<Row>, editingRow: Option<nat>, index: int, confirmed: bool): (result: (seq<Row>, Option<nat>))
    requires editingRow.Some? ==> editingRow.value < |data|
    ensures !confirmed ==> result == (data, editingRow)
    ensures confirmed ==> result.0 == RemovedAt(data, index)
    ensures result.1.Some? ==> editingRow.Some? && result.1.value < |result.0| && result.0[result.1.value] == data[editingRow.value]
    ensures result.1.None? ==> editingRow.None? || (confirmed && index == editingRow.value)
  {
    if !confirmed then (data, editingRow)
    else if editingRow.None? || index == editingRow.value then (RemovedAt(data, index), None)
    else if 0 <= index < editingRow.value then
      var newData := RemovedAt(data, index);
      assert newData[editingRow.value - 1] == data[editingRow.value];
      (newData, Some(editingRow.value - 1))
    else
      var newData := RemovedAt(data, index);
      assert newData[editingRow.value] == data[editingRow.value];
      (newData, editingRow)
  }

  class SimpleDataGrid {
    var data: seq<Row>
    var editingRow: Option<nat>
    var editingData: Row
    var showAddDialog: bool
    var newRowData: Row

    /** The ids are numbers, and an edited row exists. */
    ghost predicate Valid()
      reads this
    {
      NumericIds(data) && (editingRow.Some? ==> editingRow.value < |data|)
    }

    constructor (data: seq<Row>)
      requires NumericIds(data)
      ensures Valid()
      ensures this.data == data && editingRow == None && editingData == map[]
      ensures !showAddDialog && newRowData == map[]
    {
      this.data := data;
      editingRow := None;
      editingData := map[];
      showAddDialog := false;
      newRowData := map[];
    }

    /** `handleEditStart`: the row's index and a copy of its fields. */
    method EditStart(rowIndex: nat)
      requires Valid() && rowIndex < |data|
      modifies this
      ensures Valid()
      ensures editingRow == Some(rowIndex) && editingData == data[rowIndex]
      ensures data == old(data) && showAddDialog == old(showAddDialog) && newRowData == old(newRowData)
    {
      editingRow := Some(rowIndex);
      editingData := Spread(Obj(data[rowIndex]));
    }

    /** An editor input of the edited row: one key of the draft copy. */
    method EditDraft(key: string, v: Value)
      modifies this
      ensures editingData == old(editingData)[key := v]
      ensures data == old(data) && editingRow == old(editingRow)
      ensures showAddDialog == old(showAddDialog) && newRowData == old(newRowData)
      ensures old(Valid()) ==> Valid()
    {
      editingData := editingData[key := v];
    }

    /** `handleEditSave`: the draft replaces exactly the edited row. */
    method EditSave()
      requires Valid()
      modifies this
      ensures old(editingRow).None? ==> data == old(data) && editingData == old(editingData)
      ensures old(editingRow).Some? ==>
        data == old(data)[old(editingRow).value := old(editingData)] && editingData == map[]
      ensures |data| == |old(data)| && editingRow == None
      ensures IdNumber(old(editingData)).Some? ==> Valid()
      ensures showAddDialog == old(showAddDialog) && newRowData == old(newRowData)
    {
      if editingRow.Some? {
        var newData := data;
        newData := newData[editingRow.value := editingData];
        data := newData;
        editingRow := None;
        editingData := map[];
      }
    }

    /** `handleEditCancel` */
    method EditCancel()
      modifies this
      ensures editingRow == None && editingData == map[]
      ensures data == old(data) && showAddDialog == old(showAddDialog) && newRowData == old(newRowData)
      ensures old(Valid()) ==> Valid()
    {
      editingRow := None;
      editingData := map[];
    }

    /** `handleDelete`; `confirmed` is the user's answer to the confirmation prompt. */
    method Delete(rowIndex: int, confirmed: bool)
      requires Valid()
      modifies this
      ensures Valid()
      ensures (data, editingRow) == DeleteKeepingEdit(old(data), old(editingRow), rowIndex, confirmed)
      ensures editingRow.Some? ==> old(editingRow).Some? && data[editingRow.value] == old(data)[old(editingRow).value]
      ensures editingData == old(editingData) && showAddDialog == old(showAddDialog) && newRowData == old(newRowData)
    {
      var result := DeleteKeepingEdit(data, editingRow, rowIndex, confirmed);
      data, editingRow := result.0, result.1;
    }

    /** An input of the add dialog: one key of the new-row draft. */
    method SetNewRowField(key: string, v: Value)
      modifies this
      ensures newRowData == old(newRowData)[key := v]
      ensures data == old(data) && editingRow == old(editingRow) && editingData == old(editingData)
      ensures showAddDialog == old(showAddDialog)
      ensures old(Valid()) ==> Valid()
    {
      newRowData := newRowData[key := v];
    }

    method OpenAddDialog()
      modifies this
      ensures showAddDialog
      ensures data == old(data) && editingRow == old(editingRow) && editingData == old(editingData)
      ensures newRowData == old(newRowData)
      ensures old(Valid()) ==> Valid()
    {
      showAddDialog := true;
    }

    /** The add dialog's Cancel button and its `onClose`: the dialog closes
        and the draft is kept, so reopening shows it again. */
    method CloseAddDialog()
      modifies this
      ensures !showAddDialog
      ensures data == old(data) && editingRow == old(editingRow) && editingData == old(editingData)
      ensures newRowData == old(newRowData)
      ensures old(Valid()) ==> Valid()
    {
      showAddDialog := false;
    }

    /** `handleAddNew`: any draft is accepted; it is appended with an id above
        every existing id, and the draft is reset. */
    method AddNew()
      requires Valid()
      modifies this
      ensures Valid()
      ensures data == old(data) + [NewRow(old(newRowData), NextId(old(data)))]
      ensures newRowData == map[] && !showAddDialog
      ensures editingRow == old(editingRow) && editingData == old(editingData)
    {
      var id := NextId(data);
      data := data + [NewRow(newRowData, id)];
      newRowData := map[];
      showAddDialog := false;
    }
  }

  /** A new row's id is greater than every id already in the table, so adding
      never repeats an existing numeric id. */
  lemma AddedIdIsNew(data: seq<Row>, draft: Row)
    requires NumericIds(data)
    ensures forall i :: 0 <= i < |data| ==> IdNumber(data[i]) != IdNumber(NewRow(draft, NextId(data)))
  {
    var r := NewRow(draft, NextId(data));
    if NextId(data) != 0 {
      assert IdNumber(r) == Some(NextId(data));
    } else {
      assert IdNumber(r) == Some(0);
    }
  }
}
