/**
 `AttributeTableWidget.copy_selection`: the selected rectangles, in selection order,
 each read row by row and column by column, encoded as clipboard text.
 */
module Copy {
  import opened Strings
  import opened Grid
  import opened Clipboard

  /** `len(range(top, bottom + 1))`. */
  function Height(rg: SelectionRange): nat {
    if rg.bottom >= rg.top then rg.bottom - rg.top + 1 else 0
  }

  /** `len(range(left, right + 1))`. */
  function Width(rg: SelectionRange): nat {
    if rg.right >= rg.left then rg.right - rg.left + 1 else 0
  }

  function Area(rg: SelectionRange): nat {
    Height(rg) * Width(rg)
  }

  /** The sum of the rectangles' areas. */
  function TotalArea(ranges: seq<SelectionRange>): nat {
    if |ranges| == 0 then 0 else Area(ranges[0]) + TotalArea(ranges[1..])
  }

  /** The texts of one rectangle, top row first, each row left to right; a position
      without an item reads as the empty string. */
  function RangeBlock(t: Table, rg: SelectionRange): (block: seq<seq<string>>)
    ensures |block| == Height(rg)
    ensures forall i :: 0 <= i < |block| ==> |block[i]| == Width(rg)
    ensures forall i, j :: 0 <= i < Height(rg) && 0 <= j < Width(rg) ==>
      block[i][j] == t.TextAt(rg.top + i, rg.left + j)
  {
    seq(Height(rg), i requires 0 <= i < Height(rg) =>
      seq(Width(rg), j requires 0 <= j < Width(rg) => t.TextAt(rg.top + i, rg.left + j)))
  }

  /** The rows of all rectangles, each rectangle fully before the next. */
  function SelectedBlock(t: Table, ranges: seq<SelectionRange>): seq<seq<string>> {
    if |ranges| == 0 then [] else RangeBlock(t, ranges[0]) + SelectedBlock(t, ranges[1..])
  }

  /** The number of cells in a block (`total_cells`). */
  function CellCount(block: seq<seq<string>>): nat {
    if |block| == 0 then 0 else |block[0]| + CellCount(block[1..])
  }

  datatype CopyOutcome =
    | NothingSelected               // "Please select cells to copy first."
    | Copied(text: string, cells: nat)

  /** `copy_selection`: with nothing selected the clipboard is left alone; otherwise
      it receives the encoded block and the reported cell count is the sum of the
      rectangles' areas. */
  function CopySelection(t: Table, ranges: seq<SelectionRange>): (o: CopyOutcome)
    ensures o.NothingSelected? <==> |ranges| == 0
    ensures o.Copied? ==> o.cells == TotalArea(ranges)
    ensures o.Copied? ==> o.text == Encode(SelectedBlock(t, ranges))
  {
    if |ranges| == 0 then NothingSelected
    else
      var block := SelectedBlock(t, ranges);
      CellCountIsTotalArea(t, ranges);
      Copied(Encode(block), CellCount(block))
  }

  lemma {:induction false} CellCountAppend(a: seq<seq<string>>, b: seq<seq<string>>)
    ensures CellCount(a + b) == CellCount(a) + CellCount(b)
    decreases |a|
  {
    if |a| > 0 {
      assert (a + b)[1..] == a[1..] + b;
      CellCountAppend(a[1..], b);
    } else {
      assert a + b == b;
    }
  }

  lemma {:induction false} CellCountUniform(block: seq<seq<string>>, w: nat)
    requires forall i :: 0 <= i < |block| ==> |block[i]| == w
    ensures CellCount(block) == |block| * w
    decreases |block|
  {
    if |block| > 0 {
      CellCountUniform(block[1..], w);
    }
  }

  /** The copied-cell count equals the sum of the rectangle areas. */
  lemma {:induction false} CellCountIsTotalArea(t: Table, ranges: seq<SelectionRange>)
    ensures CellCount(SelectedBlock(t, ranges)) == TotalArea(ranges)
    decreases |ranges|
  {
    if |ranges| > 0 {
      var head := RangeBlock(t, ranges[0]);
      CellCountUniform(head, Width(ranges[0]));
      CellCountAppend(head, SelectedBlock(t, ranges[1..]));
      CellCountIsTotalArea(t, ranges[1..]);
    }
  }

  /** Rectangles are emitted in selection order: copying two selections together
      gives the first one's rows followed by the second one's. */
  lemma {:induction false} SelectedBlockAppend(t: Table, a: seq<SelectionRange>, b: seq<SelectionRange>)
    ensures SelectedBlock(t, a + b) == SelectedBlock(t, a) + SelectedBlock(t, b)
    decreases |a|
  {
    if |a| > 0 {
      assert (a + b)[0] == a[0];
      assert (a + b)[1..] == a[1..] + b;
      SelectedBlockAppend(t, a[1..], b);
    } else {
      assert a + b == b;
    }
  }

  /** When no rectangle is empty, neither is any copied row, and there is a row. */
  lemma {:induction false} SelectedRowsAreNonEmpty(t: Table, ranges: seq<SelectionRange>)
    requires forall k :: 0 <= k < |ranges| ==> Height(ranges[k]) > 0 && Width(ranges[k]) > 0
    ensures |ranges| > 0 ==> |SelectedBlock(t, ranges)| > 0
    ensures var block := SelectedBlock(t, ranges); forall i :: 0 <= i < |block| ==> |block[i]| > 0
    decreases |ranges|
  {
    if |ranges| > 0 {
      SelectedRowsAreNonEmpty(t, ranges[1..]);
      var head := RangeBlock(t, ranges[0]);
      var tail := SelectedBlock(t, ranges[1..]);
      assert forall i :: 0 <= i < |head + tail| ==> (head + tail)[i] == if i < |head| then head[i] else tail[i - |head|];
    }
  }

  /** Pasting what was copied recovers every selected cell, row by row, when no
      rectangle is empty, no selected text holds a tab or a newline, and the first
      copied cell does not start, and the last does not end, with whitespace. */
  lemma CopyPasteRoundTrip(t: Table, ranges: seq<SelectionRange>)
    requires |ranges| > 0
    requires forall k :: 0 <= k < |ranges| ==> Height(ranges[k]) > 0 && Width(ranges[k]) > 0
    requires PlainCells(SelectedBlock(t, ranges))
    requires var block := SelectedBlock(t, ranges);
      |block| > 0 && |block[0]| > 0 && |block[|block| - 1]| > 0 && UnpaddedEdges(block)
    ensures CopySelection(t, ranges).Copied?
    ensures Decode(CopySelection(t, ranges).text) == SelectedBlock(t, ranges)
  {
    SelectedRowsAreNonEmpty(t, ranges);
    DecodeEncode(SelectedBlock(t, ranges));
  }

  /** A text that copies and pastes as itself: no quoting, no tab or newline, and no
      whitespace at either end. */
  predicate PlainText(x: string) {
    !NeedsQuoting(x) && '\t' !in x && StartsWithNonSpace(x) && EndsWithNonSpace(x)
  }

  /** The whole-blob round trip is not exact: the final `strip()` also removes a
      leading empty cell's tab, so a copied row `["", x]` pastes back as `[x]`. */
  lemma LeadingEmptyCellIsLost(headers: seq<string>, x: string)
    requires PlainText(x)
    ensures var t := Table(headers, [["", x]]);
      var ranges := [SelectionRange(0, 0, 0, 1)];
      && SelectedBlock(t, ranges) == [["", x]]
      && CopySelection(t, ranges).text == x
      && Decode(x) == [[x]]
  {
    var t := Table(headers, [["", x]]);
    var rg := SelectionRange(0, 0, 0, 1);
    SingleRowBlock(t, x, rg);
    assert SelectedBlock(t, [rg]) == RangeBlock(t, rg) + SelectedBlock(t, []);
    EncodeDropsLeadingTab(x);
    DecodePlainCell(x);
  }

  lemma SingleRowBlock(t: Table, x: string, rg: SelectionRange)
    requires t.rows == [["", x]] && rg == SelectionRange(0, 0, 0, 1)
    ensures RangeBlock(t, rg) == [["", x]]
  {
    var block := RangeBlock(t, rg);
    assert Height(rg) == 1 && Width(rg) == 2;
    assert t.TextAt(0, 0) == "" && t.TextAt(0, 1) == x;
    assert block[0] == ["", x];
  }

  lemma EncodeDropsLeadingTab(x: string)
    requires PlainText(x)
    ensures Encode([["", x]]) == x
  {
    var row: seq<string> := ["", x];
    var block: seq<seq<string>> := [row];
    assert EscapeAll(row) == row by {
      assert !NeedsQuoting("");
    }
    assert EncodeRow(row) == ['\t'] + x by {
      assert row[1..] == [x];
      assert Join(row[1..], '\t') == x;
      assert Join(row, '\t') == "" + ['\t'] + x;
    }
    assert Serialize(block) == ['\t'] + x + "\n" by {
      assert block[1..] == [];
    }
    StripLeadingTab(x);
  }

  lemma StripLeadingTab(x: string)
    requires StartsWithNonSpace(x) && EndsWithNonSpace(x)
    ensures Strip(['\t'] + x + "\n") == x
  {
    StripPadded(['\t'], x, "\n");
  }

  lemma DecodePlainCell(x: string)
    requires PlainText(x)
    ensures Decode(x) == [[x]]
  {
    SplitWithoutSeparator(x, '\n');
    SplitWithoutSeparator(x, '\t');
    assert x[0] != '"';
    assert DecodeRow(x) == [x];
  }
}
