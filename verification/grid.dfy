/**
 The state `AttributeTableWidget` keeps: the table widget's cell texts, the snapshot
 `original_data` of the texts `load_data` showed, and the edit set `changed_cells`.
 */
module Grid {

  /** A (row, column) coordinate, as the source's `(row, col)` tuples. */
  type Cell = (int, int)

  /** The table widget's contents: the column headers (the layer's field names) and,
      per row, the texts of that row's items. */
  datatype Table = Table(headers: seq<string>, rows: seq<seq<string>>) {

    /** Every row has one item per column, as `load_data` builds the table. */
    ghost predicate Rectangular() {
      forall r :: 0 <= r < |rows| ==> |rows[r]| == |headers|
    }

    /** `table.item(r, c)` is not None. */
    predicate HasItem(r: int, c: int) {
      0 <= r < |rows| && 0 <= c < |rows[r]|
    }

    /** `item.text() if item else ""`. */
    function TextAt(r: int, c: int): string {
      if HasItem(r, c) then rows[r][c] else ""
    }

    /** The same number of rows, each of the same length. */
    ghost predicate SameShape(other: Table) {
      && headers == other.headers
      && |rows| == |other.rows|
      && forall r :: 0 <= r < |rows| ==> |rows[r]| == |other.rows[r]|
    }
  }

  /** `original_data.get(cell, "")`: the snapshot text, the empty string when the
      snapshot has no entry for the cell. */
  function Original(snapshot: map<Cell, string>, cell: Cell): string {
    if cell in snapshot then snapshot[cell] else ""
  }

  /** A selected rectangle (`QTableWidgetSelectionRange`), bounds inclusive. */
  datatype SelectionRange = SelectionRange(top: nat, left: nat, bottom: nat, right: nat)

  /** What one `AttributeTableWidget` holds between user actions. */
  datatype Session = Session(table: Table, snapshot: map<Cell, string>, changed: set<Cell>)

  /** `item.setText(text)`: the one cell gets the text and nothing else changes. */
  function SetText(t: Table, r: int, c: int, text: string): (t': Table)
    requires t.HasItem(r, c)
    ensures t'.SameShape(t)
    ensures t'.rows[r][c] == text
    ensures forall i, j :: t.HasItem(i, j) && (i, j) != (r, c) ==> t'.rows[i][j] == t.rows[i][j]
  {
    t.(rows := t.rows[r := t.rows[r][c := text]])
  }
}
