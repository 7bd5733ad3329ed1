# Attribute table core of the QGIS attribute manager plugin

This project models the editing core of `AttributeTableWidget`. That widget shows a
vector layer's features as a grid: one row per feature, one column per field. The
user edits cells, copies rectangles to the clipboard, pastes spreadsheet blocks back,
reverts edits, filters rows and writes the edits back to the layer.

The model keeps three pieces of state between user actions (`Grid.Session`):

- the grid's texts;
- the snapshot `original_data` of the texts the last load showed;
- the edit set `changed_cells`.

The operations are written as pure functions, which serve as reference definitions.
Where the source loops, a method follows its loops step by step and is proved equal
to the reference.

| file | module | models |
|---|---|---|
| `strings.dfy` | `Options`, `Strings` | Python's `strip`, `split`, `join`, `lower` and substring test |
| `values.dfy` | `Values` | attribute values, `int()`, `str()`, `_convert_value_for_field`, the NULL display |
| `grid.dfy` | `Grid` | the grid, the snapshot lookup `original_data.get(cell, "")`, selection rectangles |
| `clipboard.dfy` | `Clipboard` | the clipboard text format that `copy_selection` writes and `paste_from_excel` reads |
| `copy.dfy` | `Copy` | `copy_selection` |
| `paste.dfy` | `Paste` | `paste_from_excel` |
| `edit_tracking.dfy` | `EditTracking` | `on_cell_changed`, user edits, `revert_changes`, runs of user actions |
| `reconcile.dfy` | `Reconcile` | the grid part of `load_data` and `update_layer` |
| `filter.dfy` | `Filter` | `filter_data` |

The main results are these:

- A tracking invariant holds over any run of edits, pastes and reverts: every item
  whose text differs from its snapshot text is in the edit set. So, in the model, a
  revert brings the grid back to the snapshot (`EditTracking.RunTracksAllEdits`);
  the re-entrant signals listed under "Left out" are not part of that claim.
- The invariant is not an equality once pastes happen. A paste can leave a cell in
  the edit set after it has been pasted back to its snapshot text
  (`EditTracking.PasteOverEditKeepsStaleCell`).
- Update counts exactly the features whose converted cells differ. It writes nothing
  when there are none. After a successful commit the grid is reloaded, and an
  immediate second update finds nothing, provided the host's parsing reads its own
  renderings back and every position was looked at or already holds a stable value.
- Escaping a cell and reading it back is exact for every text. Copying a whole
  selection and pasting it back is exact only under stated edge conditions, and a
  concrete case shows a leading empty cell being lost.
- The filter hides exactly the rows without a match and reports the number of
  matching rows.

## Model

| member | source | states |
|---|---|---|
| `Strings.Strip` | attribute_manager_dialog.py:519 | `strip()` yields the slice of the input between a whitespace prefix and a whitespace suffix, with no whitespace at either end of its own. It is empty exactly when the input is all whitespace, and it leaves a text without edge whitespace alone. |
| `Strings.StripExact` | attribute_manager_dialog.py:251 | Stripping whitespace-padded text whose own edges are not whitespace gives exactly that text. |
| `Strings.StripIdempotent` | attribute_manager_dialog.py:251 | Stripping twice is stripping once. |
| `Strings.Split` | attribute_manager_dialog.py:519 | `split(sep)` gives at least one piece. No piece holds the separator, and joining the pieces with it gives the text back. |
| `Strings.SplitJoin` | attribute_manager_dialog.py:550 | Splitting on tabs undoes the tab join of the copied cells when no cell holds a tab. |
| `Values.ParseInt` | attribute_manager_dialog.py:309 | `int(text)` succeeds only when the stripped text is an optional sign followed by a digit run (single underscores between digits) of at most 4300 digits, and then yields the signed value of the run. A text without any digit, or with one of the information separators U+001C to U+001F anywhere, is always rejected. |
| `Values.ParseIntAccepts` | attribute_manager_dialog.py:309 | Conversely, whitespace that `int()` skips (what `isspace()` accepts except U+001C to U+001F), an optional sign and a digit run are always accepted, with the run's signed value, unless the run has more than 4300 digits. |
| `Values.IntToString` | attribute_manager_dialog.py:163 | `str(n)` starts with a minus sign exactly for negative n, followed by canonical digits (no leading zero) that denote the magnitude of n. |
| `Values.ParseIntToString` | attribute_manager_dialog.py:309 | `int(str(n)) == n` for every integer whose rendering has at most 4300 digits, negative ones included; a longer rendering is rejected by `int()`. |
| `Values.ParsedIsRenderable` | attribute_manager_dialog.py:309 | Every integer `int()` accepts can be rendered again by `str()`. |
| `Values.IntToStringIsUnpadded` | attribute_manager_dialog.py:163 | The rendering of an integer starts with a sign or digit and ends with a digit, so the `strip()` of line 251 keeps it whole. |
| `Values.NotNullTokenByFirstChar` | attribute_manager_dialog.py:302 | A text starting with a sign or digit is never read as NULL. |
| `Values.IsNullToken` | attribute_manager_dialog.py:302 | A text is a null token exactly when it is empty or spells "null" or "none" in any mix of ASCII letter case. |
| `Values.Convert` | attribute_manager_dialog.py:299-323 | The result is NULL exactly for the null tokens. It is an integer only in fields of type 1 or 2, and then equals `int()` of the text. It is a host value only for types 3, 4 and 10. A failed parse gives back the text itself, never NULL. |
| `Values.Display` | attribute_manager_dialog.py:160-163 | NULL shows as "". An integer shows as a non-empty text without edge whitespace that is no null token and that `int()` reads back to the integer when Python can render it. Strings show as themselves. |
| `Values.RenderedInteger` | attribute_manager_dialog.py:160-163 | The rendering of an integer has no edge whitespace, is no null token, and parses back to the integer exactly when it has at most 4300 digits. |
| `Values.NullAndIntegersAreStable` | attribute_manager_dialog.py:299-309 | NULL shown as "" converts back to NULL in every field. An integer that `str()` can render converts back to itself in an integer field. |
| `Values.IntegerIsStable` | attribute_manager_dialog.py:160-163 | An integer of at most 4300 digits, shown and converted in an integer field, is the same integer. |
| `Values.ConvertedIsStable` | attribute_manager_dialog.py:251-323 | Whatever the conversion makes of a stripped text survives being shown and converted again, when the host's parser reads its own renderings back. |
| `Values.TextStableIff` | attribute_manager_dialog.py:312-319 | In a text or unknown-type field, a string survives display and conversion exactly when it has no edge whitespace and is not a null token. |
| `Grid.SetText` | attribute_manager_dialog.py:385 | `setText` changes the one item and keeps the grid's shape and every other item. |
| `Clipboard.DoubleQuotes` | attribute_manager_dialog.py:472 | Doubling quotes adds and removes no other character and keeps the first character. |
| `Clipboard.CollapseQuotes` | attribute_manager_dialog.py:557 | Collapsing `""` pairs never lengthens a text, adds no character, and leaves a text without quotes alone. |
| `Clipboard.CollapseDoubled` | attribute_manager_dialog.py:557 | Collapsing `""` pairs left to right undoes quote doubling for every text. |
| `Clipboard.Escape` | attribute_manager_dialog.py:470-472 | A cell is changed exactly when it holds a comma, newline or quote, and is then wrapped in quotes. Tabs, newlines and non-space edges are neither added nor removed. |
| `Clipboard.EscapeRoundTrip` | attribute_manager_dialog.py:556-557 | Unquoting on paste recovers every text escaped on copy. |
| `Clipboard.Unescape` | attribute_manager_dialog.py:556-557 | Reading a cell never lengthens it or adds a character. It leaves a text alone unless it starts and ends with a quote (a lone quote counts as both), and so in particular when it needs no quoting. |
| `Clipboard.DecodeRow` | attribute_manager_dialog.py:550-557 | A pasted line always yields at least one cell. |
| `Clipboard.Decode` | attribute_manager_dialog.py:519-526 | A clipboard text always yields at least one row, each with at least one cell. |
| `Clipboard.JoinAvoids` | attribute_manager_dialog.py:475 | A character no cell holds is not introduced by the tab join. |
| `Clipboard.EncodeRow` | attribute_manager_dialog.py:467-475 | Splitting a copied row on tabs gives back its escaped cells when there is a cell and no cell holds a tab; the row holds no newline when no cell does. |
| `Clipboard.Serialize` | attribute_manager_dialog.py:464-476 | The unstripped clipboard text is empty exactly for an empty selection and otherwise ends with a newline. |
| `Clipboard.Encode` | attribute_manager_dialog.py:477 | The clipboard text has no whitespace at either end, and is empty for an empty selection. |
| `Clipboard.LineAt` | attribute_manager_dialog.py:475 | Line i of the copied text is the tab join of row i's escaped cells. |
| `Clipboard.SerializeIsJoin` | attribute_manager_dialog.py:464-475 | Appending each row plus a newline gives the rows joined by newlines, followed by one newline. |
| `Clipboard.StripFinalNewline` | attribute_manager_dialog.py:477 | The final `strip()` removes only the trailing newline when the text has no whitespace at its edges. |
| `Clipboard.DecodeEncodeRow` | attribute_manager_dialog.py:550-557 | Pasting one copied row gives its cells back when no cell holds a tab. |
| `Clipboard.EncodeRowEdges` | attribute_manager_dialog.py:475 | A copied row starts and ends without whitespace when its first and last cells do. |
| `Clipboard.JoinedLinesEdges` | attribute_manager_dialog.py:475-477 | The joined rows start and end without whitespace when the first and last copied cells do. |
| `Clipboard.EncodeIsJoinedLines` | attribute_manager_dialog.py:475-477 | Under that edge condition the clipboard text is exactly the rows joined by newlines. |
| `Clipboard.DecodeJoinedLines` | attribute_manager_dialog.py:519-557 | Parsing the newline-joined rows gives the block back when no cell holds a tab or newline. |
| `Clipboard.DecodeEncode` | attribute_manager_dialog.py:464-557 | Copy then paste gives the block back when rows are non-empty, cells are free of tabs and newlines, and the edges are unpadded. |
| `Copy.RangeBlock` | attribute_manager_dialog.py:465-469 | One rectangle yields Height rows of Width texts, and entry (i, j) is the text at (top + i, left + j), or "" where there is no item. |
| `Copy.CopySelection` | attribute_manager_dialog.py:449-477 | With no selection nothing is copied. Otherwise the clipboard gets the encoded rows of all rectangles, and the reported count is the sum of the rectangles' areas. |
| `Copy.CellCountAppend` | attribute_manager_dialog.py:474 | The cell count of two row lists together is the sum of their counts. |
| `Copy.CellCountUniform` | attribute_manager_dialog.py:474 | Rows of equal width w count rows times w cells. |
| `Copy.CellCountIsTotalArea` | attribute_manager_dialog.py:464-474 | `total_cells` equals the sum of the selected rectangles' areas. |
| `Copy.SelectedBlockAppend` | attribute_manager_dialog.py:464-475 | Rectangles are emitted in selection order, each one whole before the next. |
| `Copy.SelectedRowsAreNonEmpty` | attribute_manager_dialog.py:465-467 | Non-empty rectangles give at least one row, and every copied row has a cell. |
| `Copy.CopyPasteRoundTrip` | attribute_manager_dialog.py:464-557 | Pasting what was copied recovers every selected cell, row by row, under the edge conditions above. |
| `Copy.LeadingEmptyCellIsLost` | attribute_manager_dialog.py:477 | The final `strip()` drops a leading empty cell's tab: a copied row `["", x]` pastes back as `[x]`. |
| `Paste.PastedTable` | attribute_manager_dialog.py:546-567 | The paste keeps the grid's shape. |
| `Paste.Landing` | attribute_manager_dialog.py:546-561 | A text lands on (r, c) only inside the block's window and left of the column count, and it is then the block cell at (r - top, c - left); nothing lands above or left of the anchor. |
| `Paste.BlockCellLands` | attribute_manager_dialog.py:546-561 | Conversely, block cell (i, j) lands on (top + i, left + j) whenever that column exists. |
| `Paste.PasteWrites` | attribute_manager_dialog.py:563-571 | The cells written are exactly the items whose landing text differs. All lie in the block's window inside the table. |
| `Paste.PasteCell` | attribute_manager_dialog.py:551-571 | One inner-loop pass keeps the row equal to the reference up to the next column, and records exactly the differing cells. |
| `Paste.PasteLine` | attribute_manager_dialog.py:550-571 | One pasted line sets each column to its landing text and stops at the column count. It records, and counts, exactly the cells whose text differed. |
| `Paste.PasteRow` | attribute_manager_dialog.py:546-571 | One outer-loop pass advances the pasted rows and the recorded writes by one row. |
| `Paste.ApplyPaste` | attribute_manager_dialog.py:545-571 | The write loop yields the anchored block clipped to the table. `changed_cells` gains exactly the written cells, and `changes_made` is their number. |
| `Paste.PasteFromClipboard` | attribute_manager_dialog.py:502-571 | A blank clipboard or an empty selection changes nothing. Otherwise the snapshot and shape are kept and the edit set only grows. |
| `Paste.PasteFromExcel` | attribute_manager_dialog.py:499-571 | The guards plus the write loop compute the reference paste. |
| `Paste.PasteTwoRowsAtRowOne` | attribute_manager_dialog.py:546-561 | A two-row block anchored at row 1 writes rows 1 and 2 and leaves row 0 alone. |
| `EditTracking.OnCellChanged` | attribute_manager_dialog.py:325-340 | The cell is in the edit set exactly when its text differs from its snapshot text. No other cell's membership changes. |
| `EditTracking.Edit` | attribute_manager_dialog.py:325-333 | An edit sets one item's text and keeps the snapshot, the shape and every other item. |
| `EditTracking.ExactTracks` | attribute_manager_dialog.py:333-338 | An exact edit set contains every differing item. |
| `EditTracking.EditKeepsExact` | attribute_manager_dialog.py:333-338 | Edits keep the edit set equal to the set of differing items. |
| `EditTracking.EditKeepsTracking` | attribute_manager_dialog.py:333-338 | Edits keep every differing item in the edit set. |
| `EditTracking.PasteKeepsTracking` | attribute_manager_dialog.py:563-569 | A paste keeps every differing item in the edit set. |
| `EditTracking.Reverted` | attribute_manager_dialog.py:380-389 | The revert empties the edit set and keeps snapshot and shape. Each tracked item gets its snapshot text; every other item keeps its text. |
| `EditTracking.RevertChanges` | attribute_manager_dialog.py:380-389 | The loop over the edit set, in any order the set yields, computes the reference revert. |
| `EditTracking.RevertRestoresSnapshot` | attribute_manager_dialog.py:380-389 | When every edit is tracked, the revert makes every item show its snapshot text, and the edit set is exact afterwards. |
| `EditTracking.RunTracksAllEdits` | attribute_manager_dialog.py:325-389 | Over any sequence of edits, pastes and reverts, no differing item escapes the edit set, so a final revert restores the snapshot. |
| `EditTracking.RunWithoutPasteIsExact` | attribute_manager_dialog.py:325-389 | Without pastes, the edit set stays exactly the set of differing items. |
| `EditTracking.PasteOverEditKeepsStaleCell` | attribute_manager_dialog.py:564-569 | A paste over an edit can record a cell that no longer differs, so exactness is not kept. |
| `Reconcile.LoadData` | attribute_manager_dialog.py:134-172 | The headers are the field names and there is one rectangular row per feature. Each item shows its value's rendering, with NULL as "". The snapshot records each shown text and keeps other entries; the edit set is untouched. |
| `Reconcile.LoadShowsSnapshot` | attribute_manager_dialog.py:155-171 | Right after a load every item shows its snapshot text, and every edit is tracked. |
| `Reconcile.ChangedFeatures` | attribute_manager_dialog.py:241-265 | The counted features are exactly those with a looked-at cell whose converted text differs from the stored value; there are at most as many as features and as table rows. |
| `Reconcile.ReconciledFeature` | attribute_manager_dialog.py:247-260 | The reference for one feature after the field loop: it keeps one value per field. `Reconcile.UpdateFeature` is proved to compute it, and `Reconcile.ChangedIffDifferent` ties its difference from the stored feature to `feature_changed`. |
| `Reconcile.Reconciled` | attribute_manager_dialog.py:241-265 | The reference for all features after the row loop: one feature per stored feature, each with one value per field. `Reconcile.UpdateFeatures` is proved to compute it, and `Reconcile.NoChangesIffUnchanged` makes it the identity exactly when nothing is counted. |
| `Reconcile.ChangedIffDifferent` | attribute_manager_dialog.py:247-265 | `feature_changed` is set exactly when the reconciled feature differs from the stored one, so a feature is counted exactly when reconciliation alters it. |
| `Reconcile.FieldStep` | attribute_manager_dialog.py:248-260 | One field pass advances the reconciled prefix, and the change flag, by one field. |
| `Reconcile.FieldWritten` | attribute_manager_dialog.py:258-260 | Writing a differing converted value reconciles that field. |
| `Reconcile.FieldKept` | attribute_manager_dialog.py:248-258 | A field that is skipped or already equal is reconciled as it stands. |
| `Reconcile.ChangesStep` | attribute_manager_dialog.py:258-260 | A difference among the first n + 1 fields is one among the first n or at field n. |
| `Reconcile.FieldsDone` | attribute_manager_dialog.py:247-263 | After the last field the feature is reconciled, and the flag says whether it changed. |
| `Reconcile.UpdateField` | attribute_manager_dialog.py:248-260 | Only an existing item's stripped, converted text is compared and written. |
| `Reconcile.UpdateFeature` | attribute_manager_dialog.py:243-260 | The inner loop yields the reconciled feature. Its flag is set exactly when some converted cell differs. |
| `Reconcile.RowStep` | attribute_manager_dialog.py:241-265 | One row pass advances the reconciled features and the counted set by one row. |
| `Reconcile.CountedStep` | attribute_manager_dialog.py:263-265 | A row is counted exactly when its feature changed, and never twice. |
| `Reconcile.UpdateFeatures` | attribute_manager_dialog.py:238-265 | Every table row that is also a feature is reconciled. `changes_made` is the number of features that changed. |
| `Reconcile.UpdateLoopDone` | attribute_manager_dialog.py:241-265 | After the last row every feature is reconciled and exactly the changed ones are counted. |
| `Reconcile.UpdateLayer` | attribute_manager_dialog.py:214-293 | Declining to edit or finding no change leaves layer and session alone. Otherwise the count of changed features is reported. A successful commit stores the reconciled features and reloads the grid from them, after which no change is pending when the host reads its own renderings back and every position was looked at or already holds a stable value; a failed one leaves everything as it was. |
| `Reconcile.SomeChangeCounted` | attribute_manager_dialog.py:263-268 | `changes_made > 0` holds exactly when some feature changed, that is when reconciliation alters the layer. |
| `Reconcile.NoChangesIffUnchanged` | attribute_manager_dialog.py:258-268 | "No changes" is reported exactly when reconciliation leaves every feature as stored. |
| `Reconcile.ReconcileIdempotent` | attribute_manager_dialog.py:241-265 | Updating again from the same grid changes nothing. |
| `Reconcile.ReloadDetectsNoChanges` | attribute_manager_dialog.py:251-258 | Updating right after a load finds no change when every value survives display and conversion. |
| `Reconcile.ReloadAfterCommitIsClean` | attribute_manager_dialog.py:241-279 | After a commit and the reload of line 279, an immediate second update finds no change, when the host's parser reads its own renderings back and every position was looked at or already stable. |
| `Reconcile.IntegerLayerIsStable` | attribute_manager_dialog.py:308-309 | A layer of NULLs, and of integers `str()` can render in integer fields, survives display and conversion whatever the host parser does. |
| `Reconcile.EditIntegerCell` | attribute_manager_dialog.py:247-265 | Typing the rendering of m over the integer n writes m, and counts the feature exactly when m differs from n; a rendering longer than `int()` accepts is written as text and always counted. |
| `Reconcile.IntegerCellValue` | attribute_manager_dialog.py:251-258 | The rendering of m in an integer field converts to m (or stays text when too long for `int()`), and differs from a stored integer exactly when it is not that same integer. |
| `Reconcile.IntegerTextConverts` | attribute_manager_dialog.py:251-309 | The stripped rendering of an integer converts back to it in an integer field, or stays text when it has more than 4300 digits. |
| `Reconcile.SingleCellReconciled` | attribute_manager_dialog.py:247-260 | A one-field, one-feature layer is reconciled to its only cell's converted text. |
| `Reconcile.SingleFeatureCounted` | attribute_manager_dialog.py:258-265 | Such a layer counts its feature exactly when that converted text differs. |
| `Filter.RowVisible` | attribute_manager_dialog.py:193-198 | A row is visible exactly when some searched column has an item containing the lower-cased search text. |
| `Filter.CountVisible` | attribute_manager_dialog.py:202 | `visible_rows` is the number of rows not hidden. |
| `Filter.HideRows` | attribute_manager_dialog.py:190-200 | Every row is hidden exactly when it does not match. |
| `Filter.FilterData` | attribute_manager_dialog.py:185-203 | Rows are hidden exactly when they do not match, and the reported count is the number of matching rows. |
| `Filter.EmptySearchShowsRowsWithItems` | attribute_manager_dialog.py:196 | The empty search shows exactly the rows with an item in a searched column. |
| `Filter.SearchIgnoresCase` | attribute_manager_dialog.py:187 | The search text's letter case does not matter. |
| `Filter.FieldChoiceNarrows` | attribute_manager_dialog.py:194 | A row shown for one chosen field is shown for "All Fields". |
| `Filter.LongerSearchNarrows` | attribute_manager_dialog.py:196 | A row matching a search text matches every piece of it. |
| `Filter.InfixTransitive` | attribute_manager_dialog.py:196 | A substring of a substring is a substring. |

## Left out

- The Qt user interface is left out: widgets, message boxes, colours, the status line text and the clipboard object. Confirmation dialogs are modelled on their "Yes" path only; `update_layer`'s edit-mode question is the `editing` parameter of `Reconcile.UpdateLayer`.
- Re-entrant `itemChanged` signals are left out. In the source, `setItem`, `setFlags` and `setText` re-enter `on_cell_changed`. The model treats a user edit as one text change followed by one `on_cell_changed`, and treats loads, pastes and reverts as not re-entering it.
- `EditTracking.RevertChanges`: the model iterates over the edit set as it stood when the revert began. In the source, each `setText` inside `for row, col in self.changed_cells` (lines 381-385) re-enters `on_cell_changed`, which discards from the set being iterated. Python then raises `RuntimeError`, which the surrounding `except` reports. That interaction is not modelled.
- The host layer API is left out: `getFeatures`, `updateFeature`, `startEditing` and `commitChanges`. A commit is the `commitSucceeds` parameter of `Reconcile.UpdateLayer`. A failed commit is modelled as leaving the layer as it was, because the host's edit buffer is not part of this model.
- `float()` and `datetime.strptime` are a `HostParser` parameter, which gives the rendering of the parsed value or a failure. Host values are compared by that rendering, and a `Host` value never equals an `Int` one. Python's `!=` at line 258 compares an int and a float numerically (`5 == 5.0`), and a NaN differs from itself; neither is modelled.
- `Values.SelfConsistent`: that the host's parser reads its own renderings back is an assumption of `Reconcile.ReloadAfterCommitIsClean`, not a proved fact about `float` or `strptime`.
- `Values.ParseInt`: the 4300-digit bound is the default limit of Python 3.11 and later; older versions and a limit changed with `sys.set_int_max_str_digits` are not modelled. Non-ASCII decimal digits, which `int()` also accepts, are rejected by the model.
- `Values.Display`: `str()` of an integer with more than 4300 digits raises `ValueError` in Python, so `load_data` would end in its `except` branch (lines 176-178). The model renders such an integer anyway; the stability results (`Values.NullAndIntegersAreStable`, `Reconcile.IntegerLayerIsStable`) therefore only cover integers `str()` can render.
- `Values.Convert`: the type codes are the numbers the source tests (1, 2, 3, 4, 6, 10). The host library's own numbering of field types is not part of this model.
- `Strings.ToLower` lowers ASCII letters only. Python's `lower()` also lowers other Unicode letters, and `int()` also accepts non-ASCII decimal digits.
- Attributes are addressed by column position. The source looks them up by field name, which is the same as long as field names are unique.
- Exceptions and their message boxes are left out. These are the `except` branches of `load_data`, `update_layer`, `revert_changes`, `copy_selection` and `paste_from_excel`.
- The `TypeError` branch of `_convert_value_for_field` is left out: every value it receives is a string.
- `Reconcile.LoadData` follows the code rather than the documented intent. A reload overwrites snapshot entries for the new grid, but it neither clears `changed_cells` nor removes snapshot entries outside the new grid.
- The layer-selection part of `load_data` is left out: the field chooser's entries and column resizing. So are the selection summary `on_selection_changed`, the context menu, keyboard shortcuts and `_make_all_cells_editable`.
- The plugin shell is not part of this model: `AttributeManagerDialog`, `main_plugin.py`, `settings_dialog.py`, `__init__.py` and `setup.py`.
- `Copy.CopyPasteRoundTrip` and `Clipboard.DecodeEncode`: the whole-text round trip is proved only under the stated edge conditions, since `Copy.LeadingEmptyCellIsLost` shows it fails without them.
