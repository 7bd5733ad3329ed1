/**
 `AttributeTableWidget.update_layer` and `load_data`: the grid's texts are converted
 back into field values and written into the layer's features where they differ,
 and after a successful commit the grid and the snapshot are rebuilt from the layer.
 */
module Reconcile {
  import opened Strings
  import opened Values
  import opened Grid
  import opened EditTracking

  /** The layer the widget edits: its fields and its features' attribute values,
      one value per field in field order. */
  datatype Layer = Layer(fields: seq<Field>, features: seq<seq<Value>>)

  /** Every feature has one value per field, as the host hands features out. */
  ghost predicate WellFormed(layer: Layer) {
    forall f :: 0 <= f < |layer.features| ==> |layer.features[f]| == |layer.fields|
  }

  /** `[field.name() for field in fields]`. */
  function FieldNames(fields: seq<Field>): (names: seq<string>)
    ensures |names| == |fields|
    ensures forall c :: 0 <= c < |fields| ==> names[c] == fields[c].name
  {
    seq(|fields|, c requires 0 <= c < |fields| => fields[c].name)
  }

  // ---------------------------------------------------------------- load_data

  /** The snapshot entries `load_data` writes: every (row, col) of the new grid maps
      to the text it shows. */
  function LoadedTexts(layer: Layer): (m: map<Cell, string>)
    requires WellFormed(layer)
    ensures forall cell: Cell :: cell in m <==> 0 <= cell.0 < |layer.features| && 0 <= cell.1 < |layer.fields|
  {
    map cell: Cell | cell in CellsOf(|layer.features|, |layer.fields|) :: Display(layer.features[cell.0][cell.1])
  }

  /** The positions of a grid of the given size. */
  function CellsOf(rows: nat, cols: nat): (cells: set<Cell>)
    ensures forall cell: Cell :: cell in cells <==> 0 <= cell.0 < rows && 0 <= cell.1 < cols
  {
    set r, c | 0 <= r < rows && 0 <= c < cols :: (r, c)
  }

  /** `load_data` (lines 134-172): one column per field headed by its name, one row
      per feature showing each value's rendering (NULL as the empty string); the
      snapshot takes every shown text, keeping entries for positions outside the new
      grid; the edit set is left as it was. */
  function LoadData(s: Session, layer: Layer): (s': Session)
    requires WellFormed(layer)
    ensures s'.table.headers == FieldNames(layer.fields)
    ensures |s'.table.rows| == |layer.features| && s'.table.Rectangular()
    ensures forall r, c :: s'.table.HasItem(r, c) ==> s'.table.rows[r][c] == Display(layer.features[r][c])
    ensures forall cell: Cell :: 0 <= cell.0 < |layer.features| && 0 <= cell.1 < |layer.fields| ==>
      cell in s'.snapshot && s'.snapshot[cell] == Display(layer.features[cell.0][cell.1])
    ensures forall cell: Cell :: !(0 <= cell.0 < |layer.features| && 0 <= cell.1 < |layer.fields|) ==>
      (cell in s'.snapshot <==> cell in s.snapshot) && (cell in s.snapshot ==> s'.snapshot[cell] == s.snapshot[cell])
    ensures s'.changed == s.changed
  {
    var fs := layer.features;
    var rows := seq(|fs|, r requires 0 <= r < |fs| =>
      seq(|layer.fields|, c requires 0 <= c < |layer.fields| => Display(fs[r][c])));
    Session(Table(FieldNames(layer.fields), rows), s.snapshot + LoadedTexts(layer), s.changed)
  }

  /** Right after a load every item shows its snapshot text, so no edit is pending
      and a revert changes nothing. */
  lemma LoadShowsSnapshot(s: Session, layer: Layer)
    requires WellFormed(layer)
    ensures var s' := LoadData(s, layer);
      (forall r, c :: s'.table.HasItem(r, c) ==> s'.table.rows[r][c] == Original(s'.snapshot, (r, c)))
      && TracksAllEdits(s')
  {
    var s' := LoadData(s, layer);
    forall r, c | s'.table.HasItem(r, c) ensures s'.table.rows[r][c] == Original(s'.snapshot, (r, c)) {
      var cell: Cell := (r, c);
      assert cell in s'.snapshot;
    }
  }

  // ------------------------------------------------------------- update_layer

  /** The grid position (row, col) is looked at: the row is both a table row and a
      feature, the column is both a field and a table column, and it has an item. */
  predicate Considered(t: Table, layer: Layer, row: int, col: int) {
    && 0 <= row < |t.rows| && row < |layer.features|
    && 0 <= col < |layer.fields| && col < |t.headers|
    && t.HasItem(row, col)
  }

  /** The value the item's stripped text converts to in its column's field. */
  function CellValue(t: Table, layer: Layer, parse: HostParser, row: int, col: int): Value
    requires Considered(t, layer, row, col)
  {
    Convert(Strip(t.rows[row][col]), layer.fields[col], parse)
  }

  /** The feature at `row` would be written: some looked-at value differs. */
  ghost predicate FeatureChanges(t: Table, layer: Layer, parse: HostParser, row: int)
    requires WellFormed(layer)
  {
    exists col :: Considered(t, layer, row, col) && CellValue(t, layer, parse, row, col) != layer.features[row][col]
  }

  /** The features `updateFeature` is called for, counted in `changes_made`. */
  ghost function ChangedFeatures(t: Table, layer: Layer, parse: HostParser): (rows: set<int>)
    requires WellFormed(layer)
    ensures forall row :: row in rows <==> 0 <= row < |layer.features| && FeatureChanges(t, layer, parse, row)
    ensures |rows| <= |layer.features| && |rows| <= |t.rows|
  {
    var rows := set row | 0 <= row < |layer.features| && FeatureChanges(t, layer, parse, row);
    var n := if |t.rows| < |layer.features| then |t.rows| else |layer.features|;
    assert rows <= Below(n) by {
      forall row | row in rows ensures row in Below(n) {
        assert Considered(t, layer, row, FeatureChangeColumn(t, layer, parse, row));
      }
    }
    BelowSize(n);
    SubsetSize(rows, Below(n));
    rows
  }

  /** A looked-at column where the feature at `row` differs from its converted cell. */
  ghost function FeatureChangeColumn(t: Table, layer: Layer, parse: HostParser, row: int): (col: int)
    requires WellFormed(layer) && FeatureChanges(t, layer, parse, row)
    ensures Considered(t, layer, row, col) && CellValue(t, layer, parse, row, col) != layer.features[row][col]
  {
    var col :| Considered(t, layer, row, col) && CellValue(t, layer, parse, row, col) != layer.features[row][col];
    col
  }

  /** One feature after reconciliation: every looked-at value becomes the converted
      cell text, every other value stays. */
  function ReconciledFeature(t: Table, layer: Layer, parse: HostParser, row: int): (f: seq<Value>)
    requires WellFormed(layer) && 0 <= row < |layer.features|
    ensures |f| == |layer.fields|
  {
    seq(|layer.fields|, col requires 0 <= col < |layer.fields| =>
      if Considered(t, layer, row, col) then CellValue(t, layer, parse, row, col) else layer.features[row][col])
  }

  /** All features after reconciliation. */
  function Reconciled(t: Table, layer: Layer, parse: HostParser): (fs: seq<seq<Value>>)
    requires WellFormed(layer)
    ensures |fs| == |layer.features|
    ensures WellFormed(Layer(layer.fields, fs))
  {
    seq(|layer.features|, row requires 0 <= row < |layer.features| => ReconciledFeature(t, layer, parse, row))
  }

  /** A feature is rewritten exactly when reconciliation changes it. */
  lemma ChangedIffDifferent(t: Table, layer: Layer, parse: HostParser, row: int)
    requires WellFormed(layer) && 0 <= row < |layer.features|
    ensures FeatureChanges(t, layer, parse, row) <==> ReconciledFeature(t, layer, parse, row) != layer.features[row]
    ensures row in ChangedFeatures(t, layer, parse) <==> Reconciled(t, layer, parse)[row] != layer.features[row]
  {
    var f := ReconciledFeature(t, layer, parse, row);
    if FeatureChanges(t, layer, parse, row) {
      var col := FeatureChangeColumn(t, layer, parse, row);
      assert f[col] != layer.features[row][col];
    } else {
      forall col | 0 <= col < |layer.fields| ensures f[col] == layer.features[row][col] {
        if Considered(t, layer, row, col) {
          assert !(CellValue(t, layer, parse, row, col) != layer.features[row][col]);
        }
      }
    }
  }

  /** The fields before `n` of the feature at `row` are reconciled; the others are
      untouched. */
  ghost predicate FeatureBefore(t: Table, layer: Layer, parse: HostParser, row: int, feature: seq<Value>, n: int)
    requires WellFormed(layer) && 0 <= row < |layer.features|
  {
    && |feature| == |layer.fields|
    && forall col :: 0 <= col < |feature| ==>
         feature[col] == if col < n then ReconciledFeature(t, layer, parse, row)[col] else layer.features[row][col]
  }

  /** Some field before `n` of the feature at `row` differs from its converted cell. */
  ghost predicate ChangesBefore(t: Table, layer: Layer, parse: HostParser, row: int, n: int)
    requires WellFormed(layer)
  {
    exists col :: 0 <= col < n && Considered(t, layer, row, col) && CellValue(t, layer, parse, row, col) != layer.features[row][col]
  }

  /** One pass of the inner loop advances both invariants by one field. */
  lemma FieldStep(t: Table, layer: Layer, parse: HostParser, row: int, feature: seq<Value>, n: int)
    requires WellFormed(layer) && 0 <= row < |layer.features| && 0 <= n < |layer.fields|
    requires FeatureBefore(t, layer, parse, row, feature, n)
    ensures feature[n] == layer.features[row][n]
    ensures var write := Considered(t, layer, row, n) && CellValue(t, layer, parse, row, n) != feature[n];
      && (write ==> FeatureBefore(t, layer, parse, row, feature[n := CellValue(t, layer, parse, row, n)], n + 1))
      && (!write ==> FeatureBefore(t, layer, parse, row, feature, n + 1))
      && (ChangesBefore(t, layer, parse, row, n + 1) <==> ChangesBefore(t, layer, parse, row, n) || write)
  {
    assert feature[n] == layer.features[row][n];
    if Considered(t, layer, row, n) && CellValue(t, layer, parse, row, n) != feature[n] {
      FieldWritten(t, layer, parse, row, feature, n);
    } else {
      FieldKept(t, layer, parse, row, feature, n);
    }
    ChangesStep(t, layer, parse, row, n);
  }

  /** A field whose converted cell differs is written, which reconciles it. */
  lemma FieldWritten(t: Table, layer: Layer, parse: HostParser, row: int, feature: seq<Value>, n: int)
    requires WellFormed(layer) && 0 <= row < |layer.features| && 0 <= n < |layer.fields|
    requires FeatureBefore(t, layer, parse, row, feature, n)
    requires Considered(t, layer, row, n)
    ensures FeatureBefore(t, layer, parse, row, feature[n := CellValue(t, layer, parse, row, n)], n + 1)
  {
    var target := ReconciledFeature(t, layer, parse, row);
    var next := feature[n := CellValue(t, layer, parse, row, n)];
    forall col | 0 <= col < |next|
      ensures next[col] == if col < n + 1 then target[col] else layer.features[row][col]
    {
      if col != n {
        assert next[col] == feature[col];
      }
    }
  }

  /** A field that is not looked at, or whose converted cell equals the stored value,
      is already reconciled. */
  lemma FieldKept(t: Table, layer: Layer, parse: HostParser, row: int, feature: seq<Value>, n: int)
    requires WellFormed(layer) && 0 <= row < |layer.features| && 0 <= n < |layer.fields|
    requires FeatureBefore(t, layer, parse, row, feature, n)
    requires !(Considered(t, layer, row, n) && CellValue(t, layer, parse, row, n) != feature[n])
    ensures FeatureBefore(t, layer, parse, row, feature, n + 1)
  {
    var target := ReconciledFeature(t, layer, parse, row);
    assert feature[n] == layer.features[row][n];
    if Considered(t, layer, row, n) {
      assert target[n] == CellValue(t, layer, parse, row, n) == feature[n];
    } else {
      assert target[n] == layer.features[row][n];
    }
    forall col | 0 <= col < |feature|
      ensures feature[col] == if col < n + 1 then target[col] else layer.features[row][col]
    {
      if col != n {
        assert feature[col] == if col < n then target[col] else layer.features[row][col];
      }
    }
  }

  /** A difference among the first n + 1 fields is one among the first n or at n. */
  lemma ChangesStep(t: Table, layer: Layer, parse: HostParser, row: int, n: int)
    requires WellFormed(layer) && 0 <= row < |layer.features| && 0 <= n < |layer.fields|
    ensures ChangesBefore(t, layer, parse, row, n + 1) <==>
      ChangesBefore(t, layer, parse, row, n)
      || (Considered(t, layer, row, n) && CellValue(t, layer, parse, row, n) != layer.features[row][n])
  {
    if ChangesBefore(t, layer, parse, row, n + 1) {
      var col :| 0 <= col < n + 1 && Considered(t, layer, row, col) && CellValue(t, layer, parse, row, col) != layer.features[row][col];
      if col < n {
        assert ChangesBefore(t, layer, parse, row, n);
      }
    }
  }

  /** After the last field the feature is reconciled, and a write happened exactly
      when the feature changes. */
  lemma FieldsDone(t: Table, layer: Layer, parse: HostParser, row: int, feature: seq<Value>)
    requires WellFormed(layer) && 0 <= row < |layer.features|
    requires FeatureBefore(t, layer, parse, row, feature, |layer.fields|)
    ensures feature == ReconciledFeature(t, layer, parse, row)
    ensures ChangesBefore(t, layer, parse, row, |layer.fields|) <==> FeatureChanges(t, layer, parse, row)
  {
  }

  /** One pass of the inner loop of `update_layer` (lines 248-260): when the column
      exists and has an item, the stripped text is converted and written if it
      differs from the stored value. */
  method UpdateField(t: Table, layer: Layer, parse: HostParser, row: int, col: int, feature: seq<Value>, featureChanged: bool)
    returns (feature': seq<Value>, featureChanged': bool)
    requires WellFormed(layer) && 0 <= row < |t.rows| && row < |layer.features| && 0 <= col < |layer.fields|
    requires FeatureBefore(t, layer, parse, row, feature, col)
    requires featureChanged <==> ChangesBefore(t, layer, parse, row, col)
    ensures FeatureBefore(t, layer, parse, row, feature', col + 1)
    ensures featureChanged' <==> ChangesBefore(t, layer, parse, row, col + 1)
  {
    FieldStep(t, layer, parse, row, feature, col);
    feature', featureChanged' := feature, featureChanged;
    if col < |t.headers| {
      if col < |t.rows[row]| {
        var newValue := Strip(t.rows[row][col]);
        var oldValue := feature[col];
        var converted := Convert(newValue, layer.fields[col], parse);
        assert Considered(t, layer, row, col) && converted == CellValue(t, layer, parse, row, col);
        if converted != oldValue {
          feature' := feature[col := converted];
          featureChanged' := true;
        }
      }
    }
  }

  /** The inner loop of `update_layer` (lines 247-260) for one feature: each field
      whose column exists and has an item gets the converted stripped text when
      that differs from the stored value. */
  method UpdateFeature(t: Table, layer: Layer, parse: HostParser, row: int) returns (feature: seq<Value>, featureChanged: bool)
    requires WellFormed(layer) && 0 <= row < |t.rows| && row < |layer.features|
    ensures feature == ReconciledFeature(t, layer, parse, row)
    ensures featureChanged <==> FeatureChanges(t, layer, parse, row)
  {
    feature := layer.features[row];
    featureChanged := false;
    var col := 0;
    while col < |layer.fields|
      invariant 0 <= col <= |layer.fields|
      invariant FeatureBefore(t, layer, parse, row, feature, col)
      invariant featureChanged <==> ChangesBefore(t, layer, parse, row, col)
    {
      feature, featureChanged := UpdateField(t, layer, parse, row, col, feature, featureChanged);
      col := col + 1;
    }
    FieldsDone(t, layer, parse, row, feature);
  }

  /** The features before row n are reconciled; the others are untouched. */
  ghost predicate ReconciledBefore(t: Table, layer: Layer, parse: HostParser, fs: seq<seq<Value>>, n: int)
    requires WellFormed(layer)
  {
    && |fs| == |layer.features|
    && forall row :: 0 <= row < |fs| ==>
         fs[row] == if row < n && row < |t.rows| then ReconciledFeature(t, layer, parse, row) else layer.features[row]
  }

  /** The changed features before row n. */
  ghost predicate CountedBefore(t: Table, layer: Layer, parse: HostParser, counted: set<int>, n: int)
    requires WellFormed(layer)
  {
    forall k :: k in counted <==> 0 <= k < n && k < |layer.features| && FeatureChanges(t, layer, parse, k)
  }

  /** One pass of the outer loop advances both invariants by one row. */
  lemma RowStep(t: Table, layer: Layer, parse: HostParser, fs: seq<seq<Value>>, counted: set<int>, row: int, feature: seq<Value>, featureChanged: bool)
    requires WellFormed(layer) && 0 <= row < |t.rows|
    requires ReconciledBefore(t, layer, parse, fs, row)
    requires CountedBefore(t, layer, parse, counted, row)
    requires row < |fs| ==> feature == ReconciledFeature(t, layer, parse, row)
    requires row < |fs| ==> (featureChanged <==> FeatureChanges(t, layer, parse, row))
    ensures row < |fs| ==> ReconciledBefore(t, layer, parse, fs[row := feature], row + 1)
    ensures row >= |fs| ==> ReconciledBefore(t, layer, parse, fs, row + 1)
    ensures row < |fs| && featureChanged ==> CountedBefore(t, layer, parse, counted + {row}, row + 1) && row !in counted
    ensures !(row < |fs| && featureChanged) ==> CountedBefore(t, layer, parse, counted, row + 1)
  {
    if row < |fs| {
      var fs' := fs[row := feature];
      forall k | 0 <= k < |fs'|
        ensures fs'[k] == if k < row + 1 && k < |t.rows| then ReconciledFeature(t, layer, parse, k) else layer.features[k]
      {
        if k != row {
          assert fs'[k] == fs[k];
        }
      }
    }
    CountedStep(t, layer, parse, counted, row, row < |fs| && featureChanged);
  }

  /** Counting row n exactly when it changed extends the count by one row. */
  lemma CountedStep(t: Table, layer: Layer, parse: HostParser, counted: set<int>, n: int, add: bool)
    requires WellFormed(layer) && 0 <= n
    requires CountedBefore(t, layer, parse, counted, n)
    requires add <==> n < |layer.features| && FeatureChanges(t, layer, parse, n)
    ensures add ==> CountedBefore(t, layer, parse, counted + {n}, n + 1) && n !in counted
    ensures !add ==> CountedBefore(t, layer, parse, counted, n + 1)
  {
    var counted' := if add then counted + {n} else counted;
    forall k ensures k in counted' <==> 0 <= k < n + 1 && k < |layer.features| && FeatureChanges(t, layer, parse, k) {
      if k != n {
        assert k in counted' <==> k in counted;
        assert k in counted <==> 0 <= k < n && k < |layer.features| && FeatureChanges(t, layer, parse, k);
      } else {
        assert n !in counted;
      }
    }
  }

  /** The outer loop of `update_layer` (lines 241-265): every table row that is also a
      feature is reconciled, and the features that changed are counted. */
  method UpdateFeatures(t: Table, layer: Layer, parse: HostParser) returns (fs: seq<seq<Value>>, changesMade: nat)
    requires WellFormed(layer)
    ensures fs == Reconciled(t, layer, parse)
    ensures changesMade == |ChangedFeatures(t, layer, parse)|
  {
    fs := layer.features;
    changesMade := 0;
    ghost var counted: set<int> := {};
    var row := 0;
    while row < |t.rows|
      invariant 0 <= row <= |t.rows|
      invariant ReconciledBefore(t, layer, parse, fs, row)
      invariant CountedBefore(t, layer, parse, counted, row)
      invariant changesMade == |counted|
    {
      if row < |fs| {
        var feature, featureChanged := UpdateFeature(t, layer, parse, row);
        RowStep(t, layer, parse, fs, counted, row, feature, featureChanged);
        fs := fs[row := feature];
        if featureChanged {
          counted := counted + {row};
          changesMade := changesMade + 1;
        }
      } else {
        RowStep(t, layer, parse, fs, counted, row, [], false);
      }
      row := row + 1;
    }
    UpdateLoopDone(t, layer, parse, fs, counted);
  }

  lemma UpdateLoopDone(t: Table, layer: Layer, parse: HostParser, fs: seq<seq<Value>>, counted: set<int>)
    requires WellFormed(layer)
    requires ReconciledBefore(t, layer, parse, fs, |t.rows|)
    requires CountedBefore(t, layer, parse, counted, |t.rows|)
    ensures fs == Reconciled(t, layer, parse)
    ensures counted == ChangedFeatures(t, layer, parse)
  {
    var target := Reconciled(t, layer, parse);
    forall row | 0 <= row < |fs| ensures fs[row] == target[row] {
      if row >= |t.rows| {
        forall col | 0 <= col < |layer.fields| ensures target[row][col] == layer.features[row][col] {
        }
      }
    }
  }

  /** How `update_layer` ends. */
  datatype UpdateOutcome =
    | NotEditing             // the user declined to start editing
    | NoChanges              // "No changes were detected in the attribute table."
    | Committed(changesMade: nat)
    | CommitFailed(changesMade: nat)

  /** `update_layer` (lines 241-293). `editing` says whether the layer is in edit mode
      or the user agreed to start editing; `commitSucceeds` stands for the host's
      commit. Nothing is committed when no feature changed; after a successful
      commit the layer holds the reconciled features and the grid is reloaded from
      it; a failed commit leaves the committed layer and the session as they were. */
  method UpdateLayer(s: Session, layer: Layer, parse: HostParser, editing: bool, commitSucceeds: bool)
    returns (outcome: UpdateOutcome, s': Session, layer': Layer)
    requires WellFormed(layer)
    ensures !editing ==> outcome == NotEditing && s' == s && layer' == layer
    ensures editing && ChangedFeatures(s.table, layer, parse) == {} ==>
      outcome == NoChanges && s' == s && layer' == layer
    ensures editing && ChangedFeatures(s.table, layer, parse) != {} ==>
      (outcome.Committed? || outcome.CommitFailed?) && outcome.changesMade == |ChangedFeatures(s.table, layer, parse)|
    ensures outcome.Committed? <==> editing && commitSucceeds && ChangedFeatures(s.table, layer, parse) != {}
    ensures outcome.Committed? ==>
      && layer' == Layer(layer.fields, Reconciled(s.table, layer, parse))
      && s' == LoadData(s, layer')
    ensures outcome.CommitFailed? ==> s' == s && layer' == layer
    ensures outcome.Committed? && SelfConsistent(parse) && CoveredOrStable(s.table, layer, parse) ==>
      ChangedFeatures(s'.table, layer', parse) == {}
  {
    if !editing {
      return NotEditing, s, layer;
    }
    var fs, changesMade := UpdateFeatures(s.table, layer, parse);
    SomeChangeCounted(s.table, layer, parse);
    if changesMade > 0 {
      if commitSucceeds {
        layer' := Layer(layer.fields, fs);
        s' := LoadData(s, layer');
        outcome := Committed(changesMade);
        if SelfConsistent(parse) && CoveredOrStable(s.table, layer, parse) {
          ReloadAfterCommitIsClean(s, layer, parse);
        }
      } else {
        outcome, s', layer' := CommitFailed(changesMade), s, layer;
      }
    } else {
      outcome, s', layer' := NoChanges, s, layer;
    }
  }

  // ------------------------------------------------------------------ lemmas

  /** `changes_made > 0` (line 268) holds exactly when some feature changes, that is
      when reconciliation alters the layer. */
  lemma SomeChangeCounted(t: Table, layer: Layer, parse: HostParser)
    requires WellFormed(layer)
    ensures |ChangedFeatures(t, layer, parse)| > 0 <==>
      exists row :: 0 <= row < |layer.features| && FeatureChanges(t, layer, parse, row)
    ensures |ChangedFeatures(t, layer, parse)| > 0 <==> Reconciled(t, layer, parse) != layer.features
  {
    var changed := ChangedFeatures(t, layer, parse);
    if |changed| > 0 {
      var row :| row in changed;
    } else {
      assert changed == {};
    }
    NoChangesIffUnchanged(t, layer, parse);
  }

  /** No change is counted exactly when reconciliation leaves every feature alone. */
  lemma NoChangesIffUnchanged(t: Table, layer: Layer, parse: HostParser)
    requires WellFormed(layer)
    ensures ChangedFeatures(t, layer, parse) == {} <==> Reconciled(t, layer, parse) == layer.features
  {
    var fs := Reconciled(t, layer, parse);
    if ChangedFeatures(t, layer, parse) == {} {
      forall row | 0 <= row < |fs| ensures fs[row] == layer.features[row] {
        ChangedIffDifferent(t, layer, parse, row);
        assert row !in ChangedFeatures(t, layer, parse);
      }
    } else {
      var row :| row in ChangedFeatures(t, layer, parse);
      ChangedIffDifferent(t, layer, parse, row);
      assert fs[row] != layer.features[row];
    }
  }

  /** Updating twice from the same grid changes nothing the second time. */
  lemma ReconcileIdempotent(t: Table, layer: Layer, parse: HostParser)
    requires WellFormed(layer)
    ensures var once := Layer(layer.fields, Reconciled(t, layer, parse));
      Reconciled(t, once, parse) == once.features && ChangedFeatures(t, once, parse) == {}
  {
    var once := Layer(layer.fields, Reconciled(t, layer, parse));
    var twice := Reconciled(t, once, parse);
    forall row | 0 <= row < |twice| ensures twice[row] == once.features[row] {
      forall col | 0 <= col < |layer.fields| ensures twice[row][col] == once.features[row][col] {
        if Considered(t, once, row, col) {
          assert Considered(t, layer, row, col);
        }
      }
    }
    NoChangesIffUnchanged(t, once, parse);
  }

  /** The numbers 0 to n - 1. */
  function Below(n: nat): (s: set<int>)
    ensures forall k :: k in s <==> 0 <= k < n
  {
    if n == 0 then {} else Below(n - 1) + {n - 1}
  }

  lemma {:induction false} BelowSize(n: nat)
    ensures |Below(n)| == n
  {
    if n > 0 {
      BelowSize(n - 1);
    }
  }

  lemma SubsetSize(a: set<int>, b: set<int>)
    requires a <= b
    ensures |a| <= |b|
  {
    assert b == a + (b - a);
  }

  /** Every value of the layer survives display and conversion in its field. */
  ghost predicate AllStable(layer: Layer, parse: HostParser)
    requires WellFormed(layer)
  {
    forall row, col :: 0 <= row < |layer.features| && 0 <= col < |layer.fields| ==>
      Stable(layer.features[row][col], layer.fields[col], parse)
  }

  /** Updating right after a load detects no change when every value of the layer
      survives display and conversion. */
  lemma ReloadDetectsNoChanges(s: Session, layer: Layer, parse: HostParser)
    requires WellFormed(layer)
    requires AllStable(layer, parse)
    ensures ChangedFeatures(LoadData(s, layer).table, layer, parse) == {}
  {
    var t := LoadData(s, layer).table;
    forall row | 0 <= row < |layer.features| ensures !FeatureChanges(t, layer, parse, row) {
      forall col | Considered(t, layer, row, col)
        ensures CellValue(t, layer, parse, row, col) == layer.features[row][col]
      {
        assert Stable(layer.features[row][col], layer.fields[col], parse);
      }
    }
  }

  /** Every position of the layer is either looked at by the update or holds a value
      that survives display and conversion. */
  ghost predicate CoveredOrStable(t: Table, layer: Layer, parse: HostParser)
    requires WellFormed(layer)
  {
    forall row, col :: 0 <= row < |layer.features| && 0 <= col < |layer.fields| ==>
      Considered(t, layer, row, col) || Stable(layer.features[row][col], layer.fields[col], parse)
  }

  /** After a commit the grid is reloaded from the committed layer (line 279); when
      the host reads its own renderings back, an immediate second update finds
      nothing to write. */
  lemma ReloadAfterCommitIsClean(s: Session, layer: Layer, parse: HostParser)
    requires WellFormed(layer)
    requires SelfConsistent(parse)
    requires CoveredOrStable(s.table, layer, parse)
    ensures var layer' := Layer(layer.fields, Reconciled(s.table, layer, parse));
      ChangedFeatures(LoadData(s, layer').table, layer', parse) == {}
  {
    var layer' := Layer(layer.fields, Reconciled(s.table, layer, parse));
    forall row, col | 0 <= row < |layer'.features| && 0 <= col < |layer'.fields|
      ensures Stable(layer'.features[row][col], layer'.fields[col], parse)
    {
      if Considered(s.table, layer, row, col) {
        var w := Strip(s.table.rows[row][col]);
        StripIdempotent(s.table.rows[row][col]);
        ConvertedIsStable(w, layer.fields[col], parse);
        assert layer'.features[row][col] == Convert(w, layer.fields[col], parse);
      } else {
        assert layer'.features[row][col] == layer.features[row][col];
      }
    }
    ReloadDetectsNoChanges(s, layer', parse);
  }

  /** A layer holding only NULLs, and integers Python can render in integer fields,
      is stable whatever the host's parsing does. */
  lemma IntegerLayerIsStable(layer: Layer, parse: HostParser)
    requires WellFormed(layer)
    requires forall row, col :: 0 <= row < |layer.features| && 0 <= col < |layer.fields| ==>
      || layer.features[row][col].Null?
      || (layer.features[row][col].Int? && layer.fields[col].typeCode in {1, 2} && Renderable(layer.features[row][col].n))
    ensures AllStable(layer, parse)
  {
    forall row, col | 0 <= row < |layer.features| && 0 <= col < |layer.fields|
      ensures Stable(layer.features[row][col], layer.fields[col], parse)
    {
      var v := layer.features[row][col];
      NullAndIntegersAreStable(if v.Int? then v.n else 0, layer.fields[col], parse);
    }
  }

  /** What typing the rendering of m into an integer field yields: the integer m, or
      the text itself when it has more digits than `int()` accepts. */
  function TypedInteger(m: int): Value {
    if Renderable(m) then Int(m) else Text(IntToString(m))
  }

  /** Typing the rendering of an integer m over the integer n in an integer field of
      a one-field, one-feature layer writes m into the feature, and counts the
      feature as changed exactly when m differs from n (a rendering too long for
      `int()` is written as text and always counted). */
  lemma EditIntegerCell(name: string, code: int, n: int, m: int, parse: HostParser)
    requires code in {1, 2}
    ensures var layer := Layer([Field(name, code)], [[Int(n)]]);
      var t := Table([name], [[IntToString(m)]]);
      && Reconciled(t, layer, parse) == [[TypedInteger(m)]]
      && ChangedFeatures(t, layer, parse) == if n == m && Renderable(m) then {} else {0}
  {
    var layer := Layer([Field(name, code)], [[Int(n)]]);
    var t := Table([name], [[IntToString(m)]]);
    IntegerCellValue(t, layer, m, parse);
    SingleCellReconciled(t, layer, parse);
    SingleFeatureCounted(t, layer, parse);
  }

  /** The only item of a one-field table holding the rendering of m converts to m
      when the field is an integer field and `int()` accepts the text. */
  lemma IntegerCellValue(t: Table, layer: Layer, m: int, parse: HostParser)
    requires WellFormed(layer) && |layer.fields| == 1 && layer.fields[0].typeCode in {1, 2}
    requires |layer.features| == 1 && layer.features[0][0].Int?
    requires |t.headers| == 1 && t.rows == [[IntToString(m)]]
    ensures Considered(t, layer, 0, 0) && CellValue(t, layer, parse, 0, 0) == TypedInteger(m)
    ensures CellValue(t, layer, parse, 0, 0) != layer.features[0][0] <==> !(m == layer.features[0][0].n && Renderable(m))
  {
    IntegerTextConverts(m, layer.fields[0], parse);
  }

  /** The rendering of an integer converts back to it in an integer field, unless it
      is too long for `int()`, in which case the text is kept. */
  lemma IntegerTextConverts(m: int, field: Field, parse: HostParser)
    requires field.typeCode in {1, 2}
    ensures Convert(Strip(IntToString(m)), field, parse) == TypedInteger(m)
  {
    RenderedInteger(m);
  }

  /** A one-field, one-feature layer whose only cell is looked at is reconciled to
      that cell's converted text. */
  lemma SingleCellReconciled(t: Table, layer: Layer, parse: HostParser)
    requires WellFormed(layer) && |layer.fields| == 1 && |layer.features| == 1
    requires Considered(t, layer, 0, 0)
    ensures Reconciled(t, layer, parse) == [[CellValue(t, layer, parse, 0, 0)]]
  {
    var f := ReconciledFeature(t, layer, parse, 0);
    assert f == [CellValue(t, layer, parse, 0, 0)];
  }

  /** A one-field, one-feature layer whose only cell is looked at is counted exactly
      when that cell's converted text differs from the stored value. */
  lemma SingleFeatureCounted(t: Table, layer: Layer, parse: HostParser)
    requires WellFormed(layer) && |layer.fields| == 1 && |layer.features| == 1
    requires Considered(t, layer, 0, 0)
    ensures ChangedFeatures(t, layer, parse) ==
      if CellValue(t, layer, parse, 0, 0) != layer.features[0][0] then {0} else {}
  {
    SingleFieldChanges(t, layer, parse);
    OnlyFeatureCounted(t, layer, parse);
  }

  lemma SingleFieldChanges(t: Table, layer: Layer, parse: HostParser)
    requires WellFormed(layer) && |layer.fields| == 1 && |layer.features| == 1
    requires Considered(t, layer, 0, 0)
    ensures FeatureChanges(t, layer, parse, 0) <==> CellValue(t, layer, parse, 0, 0) != layer.features[0][0]
  {
    if CellValue(t, layer, parse, 0, 0) == layer.features[0][0] {
      forall col | Considered(t, layer, 0, col)
        ensures CellValue(t, layer, parse, 0, col) == layer.features[0][col]
      {
        assert col == 0;
      }
    }
  }

  /** A one-feature layer counts its feature exactly when it changes. */
  lemma OnlyFeatureCounted(t: Table, layer: Layer, parse: HostParser)
    requires WellFormed(layer) && |layer.features| == 1
    ensures ChangedFeatures(t, layer, parse) == if FeatureChanges(t, layer, parse, 0) then {0} else {}
  {
    var rows := ChangedFeatures(t, layer, parse);
    forall row ensures row in rows <==> row in (if FeatureChanges(t, layer, parse, 0) then {0} else {}) {
      if row in rows {
        assert row == 0;
      }
    }
  }
}
