/**
 `AttributeTableWidget.filter_data`: a row stays visible when one of the columns the
 field chooser allows has an item whose text contains the search text, both compared
 in lower case; the status line reports how many rows are visible.
 */
module Filter {
  import opened Strings
  import opened Grid

  /** The field chooser's first entry, which allows every column. */
  const AllFields: string := "All Fields"

  /** Column `col` is searched under the chosen field. */
  predicate Eligible(t: Table, selectedField: string, col: int)
    requires 0 <= col < |t.headers|
  {
    selectedField == AllFields || t.headers[col] == selectedField
  }

  /** The item at (row, col) is searched and contains the lower-cased search text. */
  predicate CellMatches(t: Table, needle: string, selectedField: string, row: int, col: int) {
    && 0 <= col < |t.headers|
    && Eligible(t, selectedField, col)
    && t.HasItem(row, col)
    && IsInfix(needle, ToLower(t.rows[row][col]))
  }

  /** Row `row` is shown for this search. */
  ghost predicate RowMatches(t: Table, search: string, selectedField: string, row: int) {
    exists col :: CellMatches(t, ToLower(search), selectedField, row, col)
  }

  /** The rows shown for this search. */
  ghost function MatchingRows(t: Table, search: string, selectedField: string): (rows: set<int>)
    ensures forall row :: row in rows <==> 0 <= row < |t.rows| && RowMatches(t, search, selectedField, row)
  {
    set row | 0 <= row < |t.rows| && RowMatches(t, search, selectedField, row)
  }

  /** The inner loop of `filter_data` (lines 193-198): the columns are tried left to
      right and the first match ends the search. */
  method RowVisible(t: Table, needle: string, selectedField: string, row: int) returns (visible: bool)
    ensures visible <==> exists col :: CellMatches(t, needle, selectedField, row, col)
  {
    visible := false;
    var col := 0;
    while col < |t.headers|
      invariant 0 <= col <= |t.headers|
      invariant !visible ==> forall k :: 0 <= k < col ==> !CellMatches(t, needle, selectedField, row, k)
      invariant visible ==> CellMatches(t, needle, selectedField, row, col)
    {
      if selectedField == AllFields || t.headers[col] == selectedField {
        if 0 <= row < |t.rows| && col < |t.rows[row]| && IsInfix(needle, ToLower(t.rows[row][col])) {
          visible := true;
          assert CellMatches(t, needle, selectedField, row, col);
          break;
        }
      }
      col := col + 1;
    }
    if !visible {
      forall k ensures !CellMatches(t, needle, selectedField, row, k) {
        if 0 <= k < |t.headers| {
          assert k < col;
        }
      }
    }
  }

  /** The rows before `n` that are not hidden. */
  ghost function Shown(hidden: seq<bool>, n: int): set<int> {
    set row | 0 <= row < n && row < |hidden| && !hidden[row]
  }

  /** `sum(1 for row in range(rowCount) if not isRowHidden(row))` (line 202). */
  method CountVisible(hidden: seq<bool>) returns (visibleRows: nat)
    ensures visibleRows == |Shown(hidden, |hidden|)|
  {
    visibleRows := 0;
    var r := 0;
    while r < |hidden|
      invariant 0 <= r <= |hidden|
      invariant visibleRows == |Shown(hidden, r)|
    {
      if !hidden[r] {
        assert Shown(hidden, r + 1) == Shown(hidden, r) + {r};
        visibleRows := visibleRows + 1;
      } else {
        assert Shown(hidden, r + 1) == Shown(hidden, r);
      }
      r := r + 1;
    }
  }

  /** The loop of `filter_data` over the rows (lines 190-200). */
  method HideRows(t: Table, search: string, selectedField: string) returns (hidden: seq<bool>)
    ensures |hidden| == |t.rows|
    ensures forall row :: 0 <= row < |t.rows| ==> (hidden[row] <==> !RowMatches(t, search, selectedField, row))
  {
    var needle := ToLower(search);
    hidden := [];
    var row := 0;
    while row < |t.rows|
      invariant 0 <= row <= |t.rows|
      invariant |hidden| == row
      invariant forall r :: 0 <= r < row ==> (hidden[r] <==> !RowMatches(t, search, selectedField, r))
    {
      var visible := RowVisible(t, needle, selectedField, row);
      hidden := hidden + [!visible];
      row := row + 1;
    }
  }

  /** `filter_data` (lines 185-203): every row is hidden exactly when it does not match,
      and the count of rows left visible is the number of matching rows. */
  method FilterData(t: Table, search: string, selectedField: string) returns (hidden: seq<bool>, visibleRows: nat)
    ensures |hidden| == |t.rows|
    ensures forall row :: 0 <= row < |t.rows| ==> (hidden[row] <==> !RowMatches(t, search, selectedField, row))
    ensures visibleRows == |MatchingRows(t, search, selectedField)|
  {
    hidden := HideRows(t, search, selectedField);
    visibleRows := CountVisible(hidden);
    assert Shown(hidden, |hidden|) == MatchingRows(t, search, selectedField);
  }

  /** The empty search text shows every row that has an item in a searched column. */
  lemma EmptySearchShowsRowsWithItems(t: Table, selectedField: string, row: int)
    ensures RowMatches(t, "", selectedField, row) <==>
      exists col :: 0 <= col < |t.headers| && Eligible(t, selectedField, col) && t.HasItem(row, col)
  {
    if exists col :: 0 <= col < |t.headers| && Eligible(t, selectedField, col) && t.HasItem(row, col) {
      var col :| 0 <= col < |t.headers| && Eligible(t, selectedField, col) && t.HasItem(row, col);
      assert "" <= ToLower(t.rows[row][col])[0..];
      assert CellMatches(t, ToLower(""), selectedField, row, col);
    }
  }

  lemma LowerIdempotent(s: string)
    ensures ToLower(ToLower(s)) == ToLower(s)
  {
  }

  /** The search ignores the letter case of the search text. */
  lemma SearchIgnoresCase(t: Table, search: string, selectedField: string, row: int)
    ensures RowMatches(t, search, selectedField, row) <==> RowMatches(t, ToLower(search), selectedField, row)
  {
    LowerIdempotent(search);
  }

  /** Choosing a single field only ever hides more rows than searching all fields. */
  lemma FieldChoiceNarrows(t: Table, search: string, selectedField: string, row: int)
    ensures RowMatches(t, search, selectedField, row) ==> RowMatches(t, search, AllFields, row)
  {
    if RowMatches(t, search, selectedField, row) {
      var col :| CellMatches(t, ToLower(search), selectedField, row, col);
      assert CellMatches(t, ToLower(search), AllFields, row, col);
    }
  }

  /** A row matching a longer search text matches every piece of it. */
  lemma LongerSearchNarrows(t: Table, search: string, piece: string, selectedField: string, row: int)
    requires IsInfix(ToLower(piece), ToLower(search))
    ensures RowMatches(t, search, selectedField, row) ==> RowMatches(t, piece, selectedField, row)
  {
    if RowMatches(t, search, selectedField, row) {
      var col :| CellMatches(t, ToLower(search), selectedField, row, col);
      InfixTransitive(ToLower(piece), ToLower(search), ToLower(t.rows[row][col]));
      assert CellMatches(t, ToLower(piece), selectedField, row, col);
    }
  }

  lemma InfixTransitive(a: string, b: string, c: string)
    requires IsInfix(a, b) && IsInfix(b, c)
    ensures IsInfix(a, c)
  {
    var i :| 0 <= i <= |b| - |a| && a <= b[i..];
    var j :| 0 <= j <= |c| - |b| && b <= c[j..];
    assert a <= c[j + i..] by {
      forall k | 0 <= k < |a| ensures a[k] == c[j + i + k] {
        assert a[k] == b[i + k];
        assert b[i + k] == c[j + i + k];
      }
    }
  }
}
