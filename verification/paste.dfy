/**
 `AttributeTableWidget.paste_from_excel`: the clipboard block is written into the
 grid anchored at the top-left corner of the first selected rectangle, clipped at
 the table's bounds; a cell whose text changes is added to `changed_cells`.
 */
module Paste {
  import opened Options
  import opened Strings
  import opened Grid
  import opened Clipboard

  /** The pasted text that lands on position (r, c) when the block is anchored at
      (top, left): block cell (r - top, c - left), provided that column is below the
      table's column count. */
  function Landing(t: Table, block: seq<seq<string>>, top: nat, left: nat, r: int, c: int): (o: Option<string>)
    ensures o.Some? ==>
      && top <= r < top + |block| && left <= c < |t.headers|
      && c - left < |block[r - top]| && o.value == block[r - top][c - left]
    ensures r < top || left > c || c >= |t.headers| ==> o == None
  {
    if top <= r && r - top < |block| && left <= c && c - left < |block[r - top]| && c < |t.headers|
    then Some(block[r - top][c - left])
    else None
  }

  /** Every cell of the block lands on its offset from the anchor, unless that
      position lies right of the last column (line 552). */
  lemma BlockCellLands(t: Table, block: seq<seq<string>>, top: nat, left: nat, i: int, j: int)
    requires 0 <= i < |block| && 0 <= j < |block[i]|
    ensures Landing(t, block, top, left, top + i, left + j) ==
      if left + j < |t.headers| then Some(block[i][j]) else None
  {
  }

  /** The text an item has after the paste. */
  function PastedText(t: Table, block: seq<seq<string>>, top: nat, left: nat, r: int, c: int): string
    requires t.HasItem(r, c)
  {
    match Landing(t, block, top, left, r, c)
    case Some(x) => x
    case None => t.rows[r][c]
  }

  /** The item at (r, c) is written: a text lands on it and differs from its text. */
  predicate WritesAt(t: Table, block: seq<seq<string>>, top: nat, left: nat, r: int, c: int) {
    t.HasItem(r, c) && PastedText(t, block, top, left, r, c) != t.rows[r][c]
  }

  /** The grid after the paste. */
  function PastedTable(t: Table, block: seq<seq<string>>, top: nat, left: nat): (t': Table)
    ensures t'.SameShape(t)
  {
    t.(rows := seq(|t.rows|, r requires 0 <= r < |t.rows| =>
      seq(|t.rows[r]|, c requires 0 <= c < |t.rows[r]| => PastedText(t, block, top, left, r, c))))
  }

  /** The cells the paste writes, each of them added to `changed_cells` and counted
      in `changes_made`. All lie in the block's window, inside the table. */
  function PasteWrites(t: Table, block: seq<seq<string>>, top: nat, left: nat): (w: set<Cell>)
    ensures forall cell :: cell in w <==> WritesAt(t, block, top, left, cell.0, cell.1)
    ensures forall cell :: cell in w ==>
      && top <= cell.0 < top + |block| && cell.0 < |t.rows|
      && left <= cell.1 < |t.headers| && cell.1 - left < |block[cell.0 - top]|
  {
    set r, c | 0 <= r < |t.rows| && 0 <= c < |t.rows[r]| && WritesAt(t, block, top, left, r, c) :: (r, c)
  }

  /** The text position c of row `row` has after `line` is pasted into it from
      column `left`, with columns at or past `columnCount` dropped. */
  function LineText(row: seq<string>, line: seq<string>, left: nat, columnCount: nat, c: int): string
    requires 0 <= c < |row|
  {
    if left <= c && c - left < |line| && c < columnCount then line[c - left] else row[c]
  }

  /** The positions before column `n` hold the pasted texts; the others are untouched. */
  ghost predicate LineBefore(row: seq<string>, line: seq<string>, left: nat, columnCount: nat, row': seq<string>, n: int) {
    && |row'| == |row|
    && forall c :: 0 <= c < |row| ==> row'[c] == if c < n then LineText(row, line, left, columnCount, c) else row[c]
  }

  /** The cells of grid row r before column `n` that the paste writes. */
  ghost predicate WrittenInLine(row: seq<string>, line: seq<string>, left: nat, columnCount: nat, r: int, cells: set<Cell>, n: int) {
    forall cell: Cell :: cell in cells <==>
      cell.0 == r && 0 <= cell.1 < |row| && cell.1 < n && LineText(row, line, left, columnCount, cell.1) != row[cell.1]
  }

  /** One pass of the inner loop (lines 555-571) for block column j landing on grid
      column `left + j`, below the column count: quotes are already removed, and the
      item, if any, is written when its text differs. */
  method PasteCell(row: seq<string>, line: seq<string>, left: nat, columnCount: nat, r: int, j: nat,
                   row': seq<string>, cells: set<Cell>, writes: nat)
    returns (row'': seq<string>, cells': set<Cell>, writes': nat)
    requires j < |line| && left + j < columnCount
    requires LineBefore(row, line, left, columnCount, row', left + j)
    requires WrittenInLine(row, line, left, columnCount, r, cells, left + j)
    requires writes == |cells|
    ensures LineBefore(row, line, left, columnCount, row'', left + j + 1)
    ensures WrittenInLine(row, line, left, columnCount, r, cells', left + j + 1)
    ensures writes' == |cells'|
  {
    row'', cells', writes' := row', cells, writes;
    var c := left + j;
    if c < |row'| {
      assert row'[c] == row[c];
      assert LineText(row, line, left, columnCount, c) == line[j];
      if line[j] != row'[c] {
        assert (r, c) !in cells;
        row'' := row'[c := line[j]];
        cells' := cells + {(r, c)};
        writes' := writes + 1;
      }
    }
  }

  /** The inner loop of `paste_from_excel` (lines 550-571) for grid row r: the cells
      of `line` land from column `left` on, stopping at the column count; an item
      whose text differs is written and its cell recorded. */
  method PasteLine(row: seq<string>, line: seq<string>, left: nat, columnCount: nat, r: int)
    returns (row': seq<string>, cells: set<Cell>, writes: nat)
    ensures |row'| == |row|
    ensures forall c :: 0 <= c < |row| ==> row'[c] == LineText(row, line, left, columnCount, c)
    ensures forall cell :: cell in cells <==>
      cell.0 == r && 0 <= cell.1 < |row| && LineText(row, line, left, columnCount, cell.1) != row[cell.1]
    ensures writes == |cells|
  {
    row' := row;
    cells := {};
    writes := 0;
    var j := 0;
    while j < |line|
      invariant 0 <= j <= |line|
      invariant LineBefore(row, line, left, columnCount, row', left + j)
      invariant WrittenInLine(row, line, left, columnCount, r, cells, left + j)
      invariant writes == |cells|
    {
      if left + j >= columnCount {
        break;
      }
      row', cells, writes := PasteCell(row, line, left, columnCount, r, j, row', cells, writes);
      j := j + 1;
    }
    LineDone(row, line, left, columnCount, r, row', cells, left + j);
  }

  /** Past the end of the line or at the column count, nothing more lands. */
  lemma LineDone(row: seq<string>, line: seq<string>, left: nat, columnCount: nat, r: int,
                 row': seq<string>, cells: set<Cell>, n: int)
    requires n >= left + |line| || n >= columnCount
    requires LineBefore(row, line, left, columnCount, row', n)
    requires WrittenInLine(row, line, left, columnCount, r, cells, n)
    ensures forall c :: 0 <= c < |row| ==> row'[c] == LineText(row, line, left, columnCount, c)
    ensures forall cell :: cell in cells <==>
      cell.0 == r && 0 <= cell.1 < |row| && LineText(row, line, left, columnCount, cell.1) != row[cell.1]
  {
  }

  /** Within the block's rows, the pasted text of a cell is the line's text. */
  lemma PastedTextIsLineText(t: Table, block: seq<seq<string>>, top: nat, left: nat, r: int, c: int)
    requires t.HasItem(r, c)
    ensures top <= r < top + |block| ==>
      PastedText(t, block, top, left, r, c) == LineText(t.rows[r], block[r - top], left, |t.headers|, c)
    ensures !(top <= r < top + |block|) ==> PastedText(t, block, top, left, r, c) == t.rows[r][c]
  {
  }

  /** The rows before row n hold the pasted texts; the others are untouched. */
  ghost predicate PastedBefore(t: Table, block: seq<seq<string>>, top: nat, left: nat, rows: seq<seq<string>>, n: int) {
    && |rows| == |t.rows|
    && forall r :: 0 <= r < |rows| ==>
         rows[r] == if r < n then PastedTable(t, block, top, left).rows[r] else t.rows[r]
  }

  /** The cells the paste writes in the rows before row n. */
  ghost predicate WrittenBefore(t: Table, block: seq<seq<string>>, top: nat, left: nat, written: set<Cell>, n: int) {
    forall cell: Cell :: cell in written <==> WritesAt(t, block, top, left, cell.0, cell.1) && cell.0 < n
  }

  /** One pass of the inner loop advances both loop invariants by one row. */
  lemma PasteLineStep(t: Table, block: seq<seq<string>>, top: nat, left: nat, rows: seq<seq<string>>,
                      written: set<Cell>, r: int, row': seq<string>, cells: set<Cell>)
    requires top <= r < top + |block| && r < |t.rows|
    requires PastedBefore(t, block, top, left, rows, r)
    requires WrittenBefore(t, block, top, left, written, r)
    requires |row'| == |t.rows[r]|
    requires forall c :: 0 <= c < |row'| ==> row'[c] == LineText(t.rows[r], block[r - top], left, |t.headers|, c)
    requires forall cell :: cell in cells <==>
      cell.0 == r && 0 <= cell.1 < |t.rows[r]| && LineText(t.rows[r], block[r - top], left, |t.headers|, cell.1) != t.rows[r][cell.1]
    ensures PastedBefore(t, block, top, left, rows[r := row'], r + 1)
    ensures WrittenBefore(t, block, top, left, written + cells, r + 1)
    ensures written * cells == {}
  {
    var target := PastedTable(t, block, top, left);
    forall c | 0 <= c < |row'| ensures row'[c] == target.rows[r][c] {
      PastedTextIsLineText(t, block, top, left, r, c);
    }
    assert row' == target.rows[r];
    forall cell: Cell ensures cell in cells <==> WritesAt(t, block, top, left, cell.0, cell.1) && cell.0 == r {
      if cell.0 == r && 0 <= cell.1 < |t.rows[r]| {
        PastedTextIsLineText(t, block, top, left, cell.0, cell.1);
      }
    }
  }

  /** Once every row of the block has been visited, or the table has run out of rows,
      the grid is the pasted table and the recorded cells are the paste's writes. */
  lemma PasteLoopDone(t: Table, block: seq<seq<string>>, top: nat, left: nat, rows: seq<seq<string>>,
                      written: set<Cell>, n: int)
    requires n >= top + |block| || n >= |t.rows|
    requires PastedBefore(t, block, top, left, rows, n)
    requires WrittenBefore(t, block, top, left, written, n)
    ensures t.(rows := rows) == PastedTable(t, block, top, left)
    ensures written == PasteWrites(t, block, top, left)
  {
    var target := PastedTable(t, block, top, left);
    forall r | 0 <= r < |rows| ensures rows[r] == target.rows[r] {
      if r >= n {
        forall c | 0 <= c < |rows[r]| ensures rows[r][c] == target.rows[r][c] {
          PastedTextIsLineText(t, block, top, left, r, c);
        }
      }
    }
  }

  /** One pass of the outer write loop (lines 546-571) for block row i, whose grid
      row exists: the row is pasted and its writes recorded and counted. */
  method PasteRow(t: Table, block: seq<seq<string>>, top: nat, left: nat, i: nat,
                  rows: seq<seq<string>>, changed': set<Cell>, changesMade: nat,
                  ghost changed: set<Cell>, ghost written: set<Cell>)
    returns (rows': seq<seq<string>>, changed'': set<Cell>, changesMade': nat, ghost written': set<Cell>)
    requires i < |block| && top + i < |t.rows|
    requires PastedBefore(t, block, top, left, rows, top + i)
    requires WrittenBefore(t, block, top, left, written, top + i)
    requires changed' == changed + written && changesMade == |written|
    ensures PastedBefore(t, block, top, left, rows', top + i + 1)
    ensures WrittenBefore(t, block, top, left, written', top + i + 1)
    ensures changed'' == changed + written' && changesMade' == |written'|
  {
    var r := top + i;
    assert rows[r] == t.rows[r];
    var row', cells, writes := PasteLine(rows[r], block[i], left, |t.headers|, r);
    PasteLineStep(t, block, top, left, rows, written, r, row', cells);
    rows' := rows[r := row'];
    changed'' := changed' + cells;
    written' := written + cells;
    changesMade' := changesMade + writes;
  }

  /** The write loop of `paste_from_excel` (lines 545-571), with its early exits at the
      table's row and column counts and its skip of positions without an item:
      the result is the anchored, clipped block; `changed_cells` gains exactly the
      cells whose text differed; `changes_made` counts them. */
  method ApplyPaste(t: Table, changed: set<Cell>, block: seq<seq<string>>, top: nat, left: nat)
    returns (t': Table, changed': set<Cell>, changesMade: nat)
    ensures t' == PastedTable(t, block, top, left)
    ensures changed' == changed + PasteWrites(t, block, top, left)
    ensures changesMade == |PasteWrites(t, block, top, left)|
  {
    var rows := t.rows;
    changed' := changed;
    changesMade := 0;
    ghost var written: set<Cell> := {};
    var i := 0;
    while i < |block|
      invariant 0 <= i <= |block|
      invariant PastedBefore(t, block, top, left, rows, top + i)
      invariant WrittenBefore(t, block, top, left, written, top + i)
      invariant changed' == changed + written
      invariant changesMade == |written|
    {
      if top + i >= |rows| {
        break;
      }
      rows, changed', changesMade, written := PasteRow(t, block, top, left, i, rows, changed', changesMade, changed, written);
      i := i + 1;
    }
    PasteLoopDone(t, block, top, left, rows, written, top + i);
    t' := t.(rows := rows);
  }

  /** What a paste request leads to. */
  datatype PasteOutcome =
    | EmptyClipboard            // "No data found in clipboard."
    | NoSelection               // "Please select a starting cell first."
    | Pasted(session: Session, changesMade: nat)

  /** `paste_from_excel` after the user confirms: an all-whitespace clipboard and an
      empty selection change nothing; otherwise the decoded clipboard block is
      written at the first range's top-left corner. The snapshot never changes. */
  function PasteFromClipboard(s: Session, clip: string, ranges: seq<SelectionRange>): (o: PasteOutcome)
    ensures o.EmptyClipboard? <==> Strip(clip) == ""
    ensures o.NoSelection? <==> Strip(clip) != "" && |ranges| == 0
    ensures o.Pasted? ==> o.session.snapshot == s.snapshot && o.session.table.SameShape(s.table)
    ensures o.Pasted? ==> s.changed <= o.session.changed
  {
    if Strip(clip) == "" then EmptyClipboard
    else if |ranges| == 0 then NoSelection
    else
      var block := Decode(clip);
      var top := ranges[0].top;
      var left := ranges[0].left;
      var writes := PasteWrites(s.table, block, top, left);
      Pasted(Session(PastedTable(s.table, block, top, left), s.snapshot, s.changed + writes), |writes|)
  }

  /** `paste_from_excel` (lines 499-571) on the "Yes" path: the guards, then the write loop. */
  method PasteFromExcel(s: Session, clip: string, ranges: seq<SelectionRange>) returns (o: PasteOutcome)
    ensures o == PasteFromClipboard(s, clip, ranges)
  {
    if Strip(clip) == "" {
      return EmptyClipboard;
    }
    if |ranges| == 0 {
      return NoSelection;
    }
    var block := Decode(clip);
    var t', changed', n := ApplyPaste(s.table, s.changed, block, ranges[0].top, ranges[0].left);
    o := Pasted(Session(t', s.snapshot, changed'), n);
  }

  /** Pasting a two-row, one-column block at row 1, column 0 of a three-row table
      writes rows 1 and 2 of that column and leaves row 0 alone. */
  lemma PasteTwoRowsAtRowOne()
    ensures var t := Table(["f"], [["a"], ["b"], ["c"]]);
      PastedTable(t, [["X"], ["Y"]], 1, 0).rows == [["a"], ["X"], ["Y"]]
  {
    var t := Table(["f"], [["a"], ["b"], ["c"]]);
    var block := [["X"], ["Y"]];
    var p := PastedTable(t, block, 1, 0);
    assert Landing(t, block, 1, 0, 0, 0) == None;
    assert Landing(t, block, 1, 0, 1, 0) == Some("X");
    assert Landing(t, block, 1, 0, 2, 0) == Some("Y");
    assert p.rows[0] == ["a"] && p.rows[1] == ["X"] && p.rows[2] == ["Y"];
  }
}
