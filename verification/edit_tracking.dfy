/**
 The edit set `changed_cells`: `on_cell_changed` keeps it in step with the grid after
 each user edit, `paste_from_excel` adds the cells it writes, and `revert_changes`
 puts the snapshot texts back and empties it.
 */
module EditTracking {
  import opened Grid
  import opened Options
  import opened Strings
  import opened Clipboard
  import opened Paste

  /** `on_cell_changed` for the item at `cell` whose text is now `text`: the cell is
      in the edit set exactly when the text differs from its snapshot text, and no
      other cell's membership changes. */
  function OnCellChanged(changed: set<Cell>, snapshot: map<Cell, string>, cell: Cell, text: string): (r: set<Cell>)
    ensures cell in r <==> text != Original(snapshot, cell)
    ensures forall other :: other != cell ==> (other in r <==> other in changed)
  {
    if text != Original(snapshot, cell) then changed + {cell} else changed - {cell}
  }

  /** A user edit of the item at (r, c): the item takes the text and, when the text
      differs from what the item showed (the table only reports real changes),
      `on_cell_changed` runs. A position without an item cannot be edited. */
  function Edit(s: Session, r: int, c: int, text: string): (s': Session)
    ensures s'.snapshot == s.snapshot
    ensures s'.table.SameShape(s.table)
    ensures s.table.HasItem(r, c) ==> s'.table.rows[r][c] == text
    ensures forall i, j :: s.table.HasItem(i, j) && (i, j) != (r, c) ==> s'.table.rows[i][j] == s.table.rows[i][j]
  {
    if !s.table.HasItem(r, c) || s.table.rows[r][c] == text then s
    else Session(SetText(s.table, r, c, text), s.snapshot, OnCellChanged(s.changed, s.snapshot, (r, c), text))
  }

  /** The item at (r, c) shows a text other than its snapshot text. */
  ghost predicate Differs(s: Session, r: int, c: int) {
    s.table.HasItem(r, c) && s.table.rows[r][c] != Original(s.snapshot, (r, c))
  }

  /** Every item whose text differs from the snapshot is in the edit set, so
      `revert_changes` reaches it. */
  ghost predicate TracksAllEdits(s: Session) {
    forall r, c :: Differs(s, r, c) ==> (r, c) in s.changed
  }

  /** The edit set is exactly the set of items whose text differs from the snapshot. */
  ghost predicate ExactEditSet(s: Session) {
    forall cell: Cell :: cell in s.changed <==> Differs(s, cell.0, cell.1)
  }

  lemma ExactTracks(s: Session)
    requires ExactEditSet(s)
    ensures TracksAllEdits(s)
  {
    forall r, c | Differs(s, r, c) ensures (r, c) in s.changed {
      var cell: Cell := (r, c);
      assert cell in s.changed <==> Differs(s, cell.0, cell.1);
    }
  }

  /** An edit keeps the edit set exact. */
  lemma EditKeepsExact(s: Session, r: int, c: int, text: string)
    requires ExactEditSet(s)
    ensures ExactEditSet(Edit(s, r, c, text))
  {
    var s' := Edit(s, r, c, text);
    forall cell: Cell ensures cell in s'.changed <==> Differs(s', cell.0, cell.1) {
      assert cell in s.changed <==> Differs(s, cell.0, cell.1);
    }
  }

  /** An edit keeps every differing item in the edit set. */
  lemma EditKeepsTracking(s: Session, r: int, c: int, text: string)
    requires TracksAllEdits(s)
    ensures TracksAllEdits(Edit(s, r, c, text))
  {
    var s' := Edit(s, r, c, text);
    forall i, j | Differs(s', i, j) ensures (i, j) in s'.changed {
      if (i, j) != (r, c) {
        assert Differs(s, i, j);
      }
    }
  }

  /** A paste keeps every differing item in the edit set: what it writes it records,
      and what it leaves alone keeps its membership. */
  lemma PasteKeepsTracking(s: Session, clip: string, ranges: seq<SelectionRange>)
    requires TracksAllEdits(s)
    ensures var o := PasteFromClipboard(s, clip, ranges); o.Pasted? ==> TracksAllEdits(o.session)
  {
    var o := PasteFromClipboard(s, clip, ranges);
    if o.Pasted? {
      var block := Decode(clip);
      var top, left := ranges[0].top, ranges[0].left;
      var s' := o.session;
      assert s'.table == PastedTable(s.table, block, top, left);
      forall i, j | Differs(s', i, j) ensures (i, j) in s'.changed {
        if !WritesAt(s.table, block, top, left, i, j) {
          assert Differs(s, i, j);
        }
      }
    }
  }

  /** `revert_changes` after the user confirms: every item in the edit set shows its
      snapshot text again (a cell without an item is skipped), every other item keeps
      its text, and the edit set is emptied. */
  function Reverted(s: Session): (s': Session)
    ensures s'.snapshot == s.snapshot && s'.changed == {}
    ensures s'.table.SameShape(s.table)
    ensures forall r, c :: s.table.HasItem(r, c) ==>
      s'.table.rows[r][c] == if (r, c) in s.changed then Original(s.snapshot, (r, c)) else s.table.rows[r][c]
  {
    var t := s.table;
    Session(
      t.(rows := seq(|t.rows|, r requires 0 <= r < |t.rows| =>
        seq(|t.rows[r]|, c requires 0 <= c < |t.rows[r]| =>
          if (r, c) in s.changed then Original(s.snapshot, (r, c)) else t.rows[r][c]))),
      s.snapshot, {})
  }

  /** The grid rows after the cells of `done` have been reverted. */
  ghost predicate RevertedCells(s: Session, rows: seq<seq<string>>, done: set<Cell>) {
    && |rows| == |s.table.rows|
    && (forall r :: 0 <= r < |rows| ==> |rows[r]| == |s.table.rows[r]|)
    && forall r, c :: s.table.HasItem(r, c) ==>
         rows[r][c] == if (r, c) in done then Original(s.snapshot, (r, c)) else s.table.rows[r][c]
  }

  /** The loop of `revert_changes` (lines 380-389): each cell of the edit set, in
      whatever order the set yields them, gets its snapshot text if it has an item;
      then the set is cleared. The result does not depend on the order. */
  method RevertChanges(s: Session) returns (s': Session)
    ensures s' == Reverted(s)
  {
    var rows := s.table.rows;
    var pending := s.changed;
    while pending != {}
      invariant pending <= s.changed
      invariant RevertedCells(s, rows, s.changed - pending)
      decreases |pending|
    {
      var cell :| cell in pending;
      var r, c := cell.0, cell.1;
      if 0 <= r < |rows| && 0 <= c < |rows[r]| {
        rows := rows[r := rows[r][c := Original(s.snapshot, cell)]];
      }
      pending := pending - {cell};
    }
    s' := Session(s.table.(rows := rows), s.snapshot, {});
    var target := Reverted(s);
    forall r | 0 <= r < |rows| ensures rows[r] == target.table.rows[r] {
    }
  }

  /** Reverting while every edit is tracked restores the loaded grid: every item shows
      its snapshot text again, and the emptied edit set is exact. */
  lemma RevertRestoresSnapshot(s: Session)
    requires TracksAllEdits(s)
    ensures forall r, c :: s.table.HasItem(r, c) ==>
      Reverted(s).table.rows[r][c] == Original(s.snapshot, (r, c))
    ensures ExactEditSet(Reverted(s))
  {
    var s' := Reverted(s);
    forall r, c | s.table.HasItem(r, c) ensures s'.table.rows[r][c] == Original(s.snapshot, (r, c)) {
      if (r, c) !in s.changed {
        assert !Differs(s, r, c);
      }
    }
    forall cell: Cell ensures cell in s'.changed <==> Differs(s', cell.0, cell.1) {
      if s'.table.HasItem(cell.0, cell.1) {
        assert s.table.HasItem(cell.0, cell.1);
      }
    }
  }

  /** A user action that touches the grid or the edit set. */
  datatype Event =
    | EditCell(r: int, c: int, text: string)
    | PasteText(clip: string, ranges: seq<SelectionRange>)
    | RevertAll

  function Step(s: Session, e: Event): Session {
    match e
    case EditCell(r, c, text) => Edit(s, r, c, text)
    case PasteText(clip, ranges) =>
      (match PasteFromClipboard(s, clip, ranges)
       case Pasted(s', _) => s'
       case _ => s)
    case RevertAll => Reverted(s)
  }

  /** The session after a sequence of actions, first action first. */
  function Run(s: Session, events: seq<Event>): Session
    decreases |events|
  {
    if |events| == 0 then s else Run(Step(s, events[0]), events[1..])
  }

  /** Whatever the user does, no differing item escapes the edit set, so a revert
      always brings the grid back to the snapshot. */
  lemma {:induction false} RunTracksAllEdits(s: Session, events: seq<Event>)
    requires TracksAllEdits(s)
    ensures TracksAllEdits(Run(s, events))
    ensures forall r, c :: Run(s, events).table.HasItem(r, c) ==>
      Reverted(Run(s, events)).table.rows[r][c] == Original(Run(s, events).snapshot, (r, c))
    decreases |events|
  {
    if |events| == 0 {
      RevertRestoresSnapshot(s);
    } else {
      var e := events[0];
      match e {
        case EditCell(r, c, text) => EditKeepsTracking(s, r, c, text);
        case PasteText(clip, ranges) => PasteKeepsTracking(s, clip, ranges);
        case RevertAll => RevertRestoresSnapshot(s); ExactTracks(Reverted(s));
      }
      RunTracksAllEdits(Step(s, e), events[1..]);
    }
  }

  /** Without pastes, the edit set stays exactly the set of differing items. */
  lemma {:induction false} RunWithoutPasteIsExact(s: Session, events: seq<Event>)
    requires ExactEditSet(s)
    requires forall k :: 0 <= k < |events| ==> !events[k].PasteText?
    ensures ExactEditSet(Run(s, events))
    decreases |events|
  {
    if |events| > 0 {
      var e := events[0];
      match e {
        case EditCell(r, c, text) => EditKeepsExact(s, r, c, text);
        case RevertAll => ExactTracks(s); RevertRestoresSnapshot(s);
      }
      RunWithoutPasteIsExact(Step(s, e), events[1..]);
    }
  }

  /** A paste does not keep the edit set exact: pasting a cell's snapshot text back
      over an edit records the cell, although it no longer differs. */
  lemma PasteOverEditKeepsStaleCell()
    ensures var s := Session(Table(["f"], [["x"]]), map[(0, 0) := "a"], {(0, 0)});
      && ExactEditSet(s)
      && PasteFromClipboard(s, "a", [SelectionRange(0, 0, 0, 0)]).Pasted?
      && var s' := PasteFromClipboard(s, "a", [SelectionRange(0, 0, 0, 0)]).session;
         (0, 0) in s'.changed && s'.table.rows[0][0] == "a" && !ExactEditSet(s')
  {
    var s := Session(Table(["f"], [["x"]]), map[(0, 0) := "a"], {(0, 0)});
    forall cell: Cell ensures cell in s.changed <==> Differs(s, cell.0, cell.1) {
    }
    assert Strip("a") == "a";
    SplitWithoutSeparator("a", '\n');
    SplitWithoutSeparator("a", '\t');
    assert DecodeRow("a") == ["a"];
    assert Decode("a") == [["a"]];
    var s' := PasteFromClipboard(s, "a", [SelectionRange(0, 0, 0, 0)]).session;
    assert Landing(s.table, [["a"]], 0, 0, 0, 0) == Some("a");
    assert s'.table.rows[0][0] == "a";
    assert !Differs(s', 0, 0);
  }
}
