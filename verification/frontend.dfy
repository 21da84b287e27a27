/**
 The Streamlit page's two prediction paths, which load their own copy of the
 classifier and call it in-process: the single-star form, and the batch upload
 that builds a wide results table. Widgets and display calls are not modelled;
 the form's four numbers and the parsed upload are the inputs.
 */
module Frontend {
  import opened Tables
  import opened Classifier
  import Backend

  /** The one-row table built from the form: the dict's keys, in order, are
      the column names and its values the single row. */
  function SingleRecordTable<V>(temperature: V, luminosity: V, radius: V, absoluteMagnitude: V): (t: Table<V>)
    ensures Rectangular(t) && |t.rows| == 1
    ensures t.columns == Backend.RequiredColumns
    ensures forall c :: c in t.columns <==> c in Backend.RequiredColumns
    ensures CellAt(t, 0, Backend.TemperatureColumn) == temperature
    ensures CellAt(t, 0, Backend.LuminosityColumn) == luminosity
    ensures CellAt(t, 0, Backend.RadiusColumn) == radius
    ensures CellAt(t, 0, Backend.MagnitudeColumn) == absoluteMagnitude
  {
    Table(
      ["Temperature (K)", "Luminosity(L/Lo)", "Radius(R/Ro)", "Absolute magnitude(Mv)"],
      [[temperature, luminosity, radius, absoluteMagnitude]])
  }

  /** The form's table always has the backend's required columns. */
  lemma SingleRecordPassesColumnCheck<V>(temperature: V, luminosity: V, radius: V, absoluteMagnitude: V)
    ensures Backend.HasRequiredColumns(SingleRecordTable(temperature, luminosity, radius, absoluteMagnitude).columns)
  {
    Backend.AcceptedIffEachRequiredPresent(SingleRecordTable(temperature, luminosity, radius, absoluteMagnitude).columns);
  }

  /** What the single-star path shows: the first prediction and the
      class-to-probability map built from the first probability row. */
  datatype SingleResult<P> = SingleResult(predictedType: Label, probabilities: map<Label, P>)

  function PredictSingle<V, P>(clf: Classifier<V, P>, temperature: V, luminosity: V, radius: V, absoluteMagnitude: V): (r: SingleResult<P>)
    requires WellShaped(clf, SingleRecordTable(temperature, luminosity, radius, absoluteMagnitude))
    ensures var t := SingleRecordTable(temperature, luminosity, radius, absoluteMagnitude);
      && r.predictedType == clf.predict(t)[0]
      && (forall c :: c in r.probabilities <==> c in clf.classes)
      && forall i :: 0 <= i < |clf.classes| && LastOccurrence(clf.classes, i) ==>
        clf.classes[i] in r.probabilities && r.probabilities[clf.classes[i]] == clf.predictProba(t)[0][i]
  {
    var t := SingleRecordTable(temperature, luminosity, radius, absoluteMagnitude);
    SingleResult(clf.predict(t)[0], ProbabilityMap(clf.classes, clf.predictProba(t)[0]))
  }

  /** The single-star path and the batch endpoint agree: uploading the form's
      one-row table to the service yields exactly one record, at index 0,
      carrying the same label and map. */
  lemma SingleAgreesWithBackend<V, P>(clf: Classifier<V, P>, temperature: V, luminosity: V, radius: V, absoluteMagnitude: V)
    requires WellShaped(clf, SingleRecordTable(temperature, luminosity, radius, absoluteMagnitude))
    ensures var r := PredictSingle(clf, temperature, luminosity, radius, absoluteMagnitude);
      Backend.Predict(clf, SingleRecordTable(temperature, luminosity, radius, absoluteMagnitude)).response
        == Backend.Predictions([Backend.Prediction(0, r.predictedType, r.probabilities)])
  {
    var t := SingleRecordTable(temperature, luminosity, radius, absoluteMagnitude);
    SingleRecordPassesColumnCheck(temperature, luminosity, radius, absoluteMagnitude);
    var results := Backend.Predict(clf, t).response.results;
    assert |results| == 1;
  }

  /** A cell of the batch results table. */
  datatype Cell<P> = IndexCell(position: int) | LabelCell(predicted: Label) | ProbCell(probability: P)

  /** A pandas DataFrame as its ordered column names and the cells stored
      under each name. */
  datatype Frame<P> = Frame(names: seq<string>, columns: map<string, seq<Cell<P>>>)

  /** Column names are distinct and are exactly the stored columns, each
      `height` cells long. */
  ghost predicate ValidFrame<P>(f: Frame<P>, height: nat)
  {
    && Distinct(f.names)
    && (forall c :: c in f.names <==> c in f.columns)
    && (forall c :: c in f.columns ==> |f.columns[c]| == height)
  }

  /** Assigning a column by name, as pandas does: an existing column is
      overwritten where it stands, a new one is added at the right. */
  function SetColumn<P>(f: Frame<P>, name: string, cells: seq<Cell<P>>): (g: Frame<P>)
    requires ValidFrame(f, |cells|)
    ensures ValidFrame(g, |cells|)
    ensures |f.names| <= |g.names| && g.names[..|f.names|] == f.names
    ensures name in g.columns && g.columns[name] == cells
    ensures forall c :: c in f.columns && c != name ==> c in g.columns && g.columns[c] == f.columns[c]
    ensures forall c :: c in g.columns ==> c in f.columns || c == name
  {
    if name in f.columns then Frame(f.names, f.columns[name := cells])
    else Frame(f.names + [name], f.columns[name := cells])
  }

  /** Column `i` of the probability matrix, one cell per row. */
  function ProbColumn<P>(probabilities: seq<seq<P>>, i: nat): (cells: seq<Cell<P>>)
    requires forall r :: 0 <= r < |probabilities| ==> i < |probabilities[r]|
    ensures |cells| == |probabilities|
    ensures forall r :: 0 <= r < |probabilities| ==> cells[r] == ProbCell(probabilities[r][i])
  {
    seq(|probabilities|, r requires 0 <= r < |probabilities| => ProbCell(probabilities[r][i]))
  }

  /** The DataFrame built from the `Index` range and the predictions. */
  function InitialFrame<P>(predictions: seq<Label>): (f: Frame<P>)
    ensures ValidFrame(f, |predictions|)
    ensures f.names == ["Index", "Predicted Type"]
    ensures forall k :: 0 <= k < |predictions| ==> f.columns["Index"][k] == IndexCell(k)
    ensures forall k :: 0 <= k < |predictions| ==> f.columns["Predicted Type"][k] == LabelCell(predictions[k])
  {
    Frame(["Index", "Predicted Type"],
      map["Index" := seq(|predictions|, k => IndexCell(k)),
          "Predicted Type" := seq(|predictions|, k requires 0 <= k < |predictions| => LabelCell(predictions[k]))])
  }

  /** The class names that pandas appends to a frame whose columns are
      `names`, in the order they are first assigned: each name not already a
      column, once, at its first position in `classes`. */
  function NewColumnNames(names: seq<string>, classes: seq<Label>): (added: seq<string>)
    ensures forall c :: c in added <==> c in classes && c !in names
    ensures Distinct(added)
    decreases |classes|
  {
    if |classes| == 0 then []
    else
      var n := |classes| - 1;
      var front := NewColumnNames(names, classes[..n]);
      assert classes == classes[..n] + [classes[n]];
      if classes[n] in names || classes[n] in classes[..n] then front else front + [classes[n]]
  }

  /** Distinct class names that are not yet columns are appended exactly in
      class order. */
  lemma {:induction false} NewColumnNamesOfFresh(names: seq<string>, classes: seq<Label>)
    requires Distinct(classes)
    requires forall j :: 0 <= j < |classes| ==> classes[j] !in names
    ensures NewColumnNames(names, classes) == classes
    decreases |classes|
  {
    if |classes| > 0 {
      var n := |classes| - 1;
      NewColumnNamesOfFresh(names, classes[..n]);
      assert classes[n] !in classes[..n];
      assert classes == classes[..n] + [classes[n]];
    }
  }

  /** Each name of `added` occurs in `classes`, and the names stand in the
      order of their first positions there. */
  predicate InFirstOccurrenceOrder(added: seq<string>, classes: seq<Label>)
  {
    forall i, j :: 0 <= i < j < |added| ==>
      added[i] in classes && added[j] in classes
      && ColumnIndex(classes, added[i]) < ColumnIndex(classes, added[j])
  }

  /** The appended names keep the order in which their first occurrences
      stand in `classes`. */
  lemma {:induction false} NewColumnNamesInClassOrder(names: seq<string>, classes: seq<Label>)
    ensures InFirstOccurrenceOrder(NewColumnNames(names, classes), classes)
    decreases |classes|
  {
    if |classes| > 0 {
      var n := |classes| - 1;
      var front := NewColumnNames(names, classes[..n]);
      NewColumnNamesInClassOrder(names, classes[..n]);
      OrderSurvivesExtension(front, classes, n);
      if classes[n] !in names && classes[n] !in classes[..n] {
        assert NewColumnNames(names, classes) == front + [classes[n]];
        OrderAdmitsNewLast(front, classes, n);
      }
    }
  }

  /** Names first found in a prefix keep their first positions, all below
      the prefix's end, in the whole sequence. */
  lemma OrderSurvivesExtension(front: seq<string>, classes: seq<Label>, n: nat)
    requires n <= |classes|
    requires forall c :: c in front ==> c in classes[..n]
    requires InFirstOccurrenceOrder(front, classes[..n])
    ensures InFirstOccurrenceOrder(front, classes)
    ensures forall i :: 0 <= i < |front| ==> front[i] in classes && ColumnIndex(classes, front[i]) < n
  {
    forall i | 0 <= i < |front|
      ensures front[i] in classes && ColumnIndex(classes, front[i]) == ColumnIndex(classes[..n], front[i]) < n
    {
      ColumnIndexInPrefix(classes, n, front[i]);
    }
  }

  /** A name first found at position n may follow names first found
      before n. */
  lemma OrderAdmitsNewLast(front: seq<string>, classes: seq<Label>, n: nat)
    requires n < |classes| && classes[n] !in classes[..n]
    requires InFirstOccurrenceOrder(front, classes)
    requires forall i :: 0 <= i < |front| ==> front[i] in classes && ColumnIndex(classes, front[i]) < n
    ensures InFirstOccurrenceOrder(front + [classes[n]], classes)
  {
    assert ColumnIndex(classes, classes[n]) == n;
    var added := front + [classes[n]];
    forall i, j | 0 <= i < j < |added|
      ensures added[i] in classes && added[j] in classes
      ensures ColumnIndex(classes, added[i]) < ColumnIndex(classes, added[j])
    {
      assert added[i] == front[i];
      if j < |front| {
        assert added[j] == front[j];
      }
    }
  }

  /** `f` is `base` after the class columns were written in order: the
      columns of `base` keep their places, the class names not yet present
      follow in first-assignment order, the column set grows by exactly
      the class names, each class name holds its column of the matrix (the
      last of several equal names winning), and columns no class names are
      as they were. */
  ghost predicate ClassColumnsAdded<P>(base: Frame<P>, f: Frame<P>, classes: seq<Label>, probabilities: seq<seq<P>>)
  {
    && (forall r :: 0 <= r < |probabilities| ==> |classes| <= |probabilities[r]|)
    && f.names == base.names + NewColumnNames(base.names, classes)
    && (forall c :: c in f.columns <==> c in base.columns || c in classes)
    && (forall j :: 0 <= j < |classes| && LastOccurrence(classes, j) ==>
          classes[j] in f.columns && f.columns[classes[j]] == ProbColumn(probabilities, j))
    && (forall c :: c in base.columns && c !in classes ==> f.columns[c] == base.columns[c])
  }

  /** The loop over the enumerated classes, as the frame it has built once
      it has gone through `classes`. */
  function AddClassColumns<P>(base: Frame<P>, classes: seq<Label>, probabilities: seq<seq<P>>): (f: Frame<P>)
    requires ValidFrame(base, |probabilities|)
    requires forall r :: 0 <= r < |probabilities| ==> |classes| <= |probabilities[r]|
    ensures ValidFrame(f, |probabilities|)
    ensures ClassColumnsAdded(base, f, classes, probabilities)
    decreases |classes|
  {
    if |classes| == 0 then base
    else
      var n := |classes| - 1;
      var prev := AddClassColumns(base, classes[..n], probabilities);
      var cells := ProbColumn(probabilities, n);
      assert ValidFrame(prev, |cells|);
      var f := SetColumn(prev, classes[n], cells);
      AddClassColumnsStep(base, classes, probabilities, prev, f);
      f
  }

  /** One more round of the loop keeps `ClassColumnsAdded`. */
  lemma {:induction false} AddClassColumnsStep<P>(base: Frame<P>, classes: seq<Label>, probabilities: seq<seq<P>>, prev: Frame<P>, f: Frame<P>)
    requires |classes| > 0
    requires forall r :: 0 <= r < |probabilities| ==> |classes| <= |probabilities[r]|
    requires ValidFrame(base, |probabilities|)
    requires ValidFrame(prev, |probabilities|)
    requires ClassColumnsAdded(base, prev, classes[..|classes| - 1], probabilities)
    requires f == SetColumn(prev, classes[|classes| - 1], ProbColumn(probabilities, |classes| - 1))
    ensures ClassColumnsAdded(base, f, classes, probabilities)
  {
    StepKeepsPlacesAndOthers(base, classes, prev, ProbColumn(probabilities, |classes| - 1), f);
    StepWritesClassColumn(classes, probabilities, prev, f);
    StepAppendsInOrder(base, classes, prev, ProbColumn(probabilities, |classes| - 1), f);
  }

  lemma {:induction false} StepAppendsInOrder<P>(base: Frame<P>, classes: seq<Label>, prev: Frame<P>, cells: seq<Cell<P>>, f: Frame<P>)
    requires |classes| > 0
    requires ValidFrame(prev, |cells|)
    requires forall c :: c in base.names <==> c in base.columns
    requires forall c :: c in prev.columns <==> c in base.columns || c in classes[..|classes| - 1]
    requires prev.names == base.names + NewColumnNames(base.names, classes[..|classes| - 1])
    requires f == SetColumn(prev, classes[|classes| - 1], cells)
    ensures f.names == base.names + NewColumnNames(base.names, classes)
  {
    var n := |classes| - 1;
    var added := NewColumnNames(base.names, classes[..n]);
    if classes[n] in prev.columns {
      assert classes[n] in base.names || classes[n] in classes[..n];
    } else {
      assert !(classes[n] in base.names || classes[n] in classes[..n]);
      assert f.names == (base.names + added) + [classes[n]];
      assert (base.names + added) + [classes[n]] == base.names + (added + [classes[n]]);
    }
  }

  lemma {:induction false} StepKeepsPlacesAndOthers<P>(base: Frame<P>, classes: seq<Label>, prev: Frame<P>, cells: seq<Cell<P>>, f: Frame<P>)
    requires |classes| > 0
    requires ValidFrame(prev, |cells|)
    requires forall c :: c in prev.columns <==> c in base.columns || c in classes[..|classes| - 1]
    requires forall c :: c in base.columns && c !in classes[..|classes| - 1] ==> prev.columns[c] == base.columns[c]
    requires f == SetColumn(prev, classes[|classes| - 1], cells)
    ensures forall c :: c in f.columns <==> c in base.columns || c in classes
    ensures forall c :: c in base.columns && c !in classes ==> f.columns[c] == base.columns[c]
  {
    var n := |classes| - 1;
    assert classes == classes[..n] + [classes[n]];
    assert forall c :: c in classes <==> c in classes[..n] || c == classes[n];
  }

  lemma {:induction false} StepWritesClassColumn<P>(classes: seq<Label>, probabilities: seq<seq<P>>, prev: Frame<P>, f: Frame<P>)
    requires |classes| > 0
    requires forall r :: 0 <= r < |probabilities| ==> |classes| <= |probabilities[r]|
    requires ValidFrame(prev, |probabilities|)
    requires forall j :: 0 <= j < |classes| - 1 && LastOccurrence(classes[..|classes| - 1], j) ==>
      classes[j] in prev.columns && prev.columns[classes[j]] == ProbColumn(probabilities, j)
    requires f == SetColumn(prev, classes[|classes| - 1], ProbColumn(probabilities, |classes| - 1))
    ensures forall j :: 0 <= j < |classes| && LastOccurrence(classes, j) ==>
      classes[j] in f.columns && f.columns[classes[j]] == ProbColumn(probabilities, j)
  {
    var n := |classes| - 1;
    forall j | 0 <= j < |classes| && LastOccurrence(classes, j)
      ensures classes[j] in f.columns && f.columns[classes[j]] == ProbColumn(probabilities, j)
    {
      if j < n {
        assert classes[..n][j] == classes[j];
        assert LastOccurrence(classes[..n], j) && classes[j] != classes[n];
      }
    }
  }

  /** What the batch results table needs: one probability row per
      prediction, each with an entry for every class. */
  predicate Tabulable<P>(classes: seq<Label>, predictions: seq<Label>, probabilities: seq<seq<P>>)
  {
    && |probabilities| == |predictions|
    && forall r :: 0 <= r < |probabilities| ==> |classes| <= |probabilities[r]|
  }

  /** The wide results table: `Index`, `Predicted Type`, then one column per
      class. `Index` holds 0..n-1 and `Predicted Type` the predictions in
      order, unless a class of that very name overwrote them; every class
      name heads column i of the matrix for its last position i. */
  function ResultsTable<P>(classes: seq<Label>, predictions: seq<Label>, probabilities: seq<seq<P>>): (f: Frame<P>)
    requires Tabulable(classes, predictions, probabilities)
    ensures ValidFrame(f, |predictions|)
    ensures |f.names| >= 2 && f.names[0] == "Index" && f.names[1] == "Predicted Type"
    ensures f.names == ["Index", "Predicted Type"] + NewColumnNames(["Index", "Predicted Type"], classes)
    ensures (Distinct(classes) && "Index" !in classes && "Predicted Type" !in classes) ==>
      f.names == ["Index", "Predicted Type"] + classes
    ensures forall c :: c in f.columns <==> c == "Index" || c == "Predicted Type" || c in classes
    ensures "Index" !in classes ==>
      forall k :: 0 <= k < |predictions| ==> f.columns["Index"][k] == IndexCell(k)
    ensures "Predicted Type" !in classes ==>
      forall k :: 0 <= k < |predictions| ==> f.columns["Predicted Type"][k] == LabelCell(predictions[k])
    ensures forall i, k :: 0 <= i < |classes| && LastOccurrence(classes, i) && 0 <= k < |predictions| ==>
      classes[i] in f.columns && f.columns[classes[i]][k] == ProbCell(probabilities[k][i])
  {
    var base: Frame<P> := InitialFrame(predictions);
    var f := AddClassColumns(base, classes, probabilities);
    FixedColumnsSurvive(classes, predictions, probabilities, base, f);
    FreshClassesKeepOrder(classes);
    ClassCellsFromMatrix(classes, predictions, probabilities, f);
    f
  }

  /** Distinct classes other than the two fixed names follow them in class
      order. */
  lemma FreshClassesKeepOrder(classes: seq<Label>)
    ensures (Distinct(classes) && "Index" !in classes && "Predicted Type" !in classes) ==>
      NewColumnNames(["Index", "Predicted Type"], classes) == classes
  {
    if Distinct(classes) && "Index" !in classes && "Predicted Type" !in classes {
      NewColumnNamesOfFresh(["Index", "Predicted Type"], classes);
    }
  }

  /** `Index` and `Predicted Type` stay first and keep their contents
      unless a class of the same name overwrites them. */
  lemma {:induction false} FixedColumnsSurvive<P>(classes: seq<Label>, predictions: seq<Label>, probabilities: seq<seq<P>>, base: Frame<P>, f: Frame<P>)
    requires base == InitialFrame(predictions)
    requires ClassColumnsAdded(base, f, classes, probabilities)
    ensures forall c :: c in f.columns <==> c == "Index" || c == "Predicted Type" || c in classes
    ensures "Index" !in classes ==>
      forall k :: 0 <= k < |predictions| ==> f.columns["Index"][k] == IndexCell(k)
    ensures "Predicted Type" !in classes ==>
      forall k :: 0 <= k < |predictions| ==> f.columns["Predicted Type"][k] == LabelCell(predictions[k])
  {
    assert forall c :: c in base.columns <==> c == "Index" || c == "Predicted Type";
  }

  /** Every class name, at its last position i, heads column i of the matrix. */
  lemma {:induction false} ClassCellsFromMatrix<P>(classes: seq<Label>, predictions: seq<Label>, probabilities: seq<seq<P>>, f: Frame<P>)
    requires |probabilities| == |predictions|
    requires forall r :: 0 <= r < |probabilities| ==> |classes| <= |probabilities[r]|
    requires ValidFrame(f, |predictions|)
    requires forall j :: 0 <= j < |classes| && LastOccurrence(classes, j) ==>
      classes[j] in f.columns && f.columns[classes[j]] == ProbColumn(probabilities, j)
    ensures forall i, k :: 0 <= i < |classes| && LastOccurrence(classes, i) && 0 <= k < |predictions| ==>
      classes[i] in f.columns && f.columns[classes[i]][k] == ProbCell(probabilities[k][i])
  {
  }

  /** The batch button: inference over the uploaded table as it is, with no
      required-column check, then the results table. */
  function PredictBatch<V, P>(clf: Classifier<V, P>, table: Table<V>): (f: Frame<P>)
    requires WellShaped(clf, table)
    ensures ValidFrame(f, |table.rows|)
    ensures |f.names| >= 2 && f.names[0] == "Index" && f.names[1] == "Predicted Type"
    ensures f.names == ["Index", "Predicted Type"] + NewColumnNames(["Index", "Predicted Type"], clf.classes)
    ensures (Distinct(clf.classes) && "Index" !in clf.classes && "Predicted Type" !in clf.classes) ==>
      f.names == ["Index", "Predicted Type"] + clf.classes
    ensures forall c :: c in f.columns <==> c == "Index" || c == "Predicted Type" || c in clf.classes
    ensures "Index" !in clf.classes ==>
      forall k :: 0 <= k < |table.rows| ==> f.columns["Index"][k] == IndexCell(k)
    ensures "Predicted Type" !in clf.classes ==>
      forall k :: 0 <= k < |table.rows| ==> f.columns["Predicted Type"][k] == LabelCell(clf.predict(table)[k])
    ensures forall i, k :: 0 <= i < |clf.classes| && LastOccurrence(clf.classes, i) && 0 <= k < |table.rows| ==>
      clf.classes[i] in f.columns && f.columns[clf.classes[i]][k] == ProbCell(clf.predictProba(table)[k][i])
  {
    ResultsTable(clf.classes, clf.predict(table), clf.predictProba(table))
  }

  /** Unlike the service, the page runs inference on a table the service
      would reject: the service answers with its error and no calls, while
      the page still produces one results row per input row. */
  lemma PageSkipsColumnCheck<V, P>(clf: Classifier<V, P>, table: Table<V>)
    requires WellShaped(clf, table)
    requires !Backend.HasRequiredColumns(table.columns)
    ensures Backend.Predict(clf, table).response.Rejected?
    ensures Backend.Predict(clf, table).calls == []
    ensures "Index" in PredictBatch(clf, table).columns
    ensures |PredictBatch(clf, table).columns["Index"]| == |table.rows|
  {
  }

  /** The wide table and the service's record list, built from the same
      predictions and matrix, carry the same values: row k's `Predicted Type`
      is record k's label, and the cell under every class name is that
      record's probability for the class. */
  lemma {:induction false} ResultsTableAgreesWithRecords<P>(classes: seq<Label>, predictions: seq<Label>, probabilities: seq<seq<P>>)
    requires Tabulable(classes, predictions, probabilities)
    ensures Backend.Assemblable(classes, predictions, probabilities)
    ensures var f := ResultsTable(classes, predictions, probabilities);
      var results := Backend.Assemble(classes, predictions, probabilities);
      && ("Predicted Type" !in classes ==>
        forall k :: 0 <= k < |predictions| ==> f.columns["Predicted Type"][k] == LabelCell(results[k].predictedType))
      && forall c, k :: c in classes && 0 <= k < |predictions| ==>
        c in f.columns && c in results[k].probabilities && f.columns[c][k] == ProbCell(results[k].probabilities[c])
  {
    var f := ResultsTable(classes, predictions, probabilities);
    var results := Backend.Assemble(classes, predictions, probabilities);
    forall c, k | c in classes && 0 <= k < |predictions|
      ensures c in f.columns && c in results[k].probabilities && f.columns[c][k] == ProbCell(results[k].probabilities[c])
    {
      var j := LastOccurrenceExists(classes, c);
      assert f.columns[c][k] == ProbCell(probabilities[k][j]);
      assert results[k].probabilities[c] == probabilities[k][j];
    }
  }

  /** On a table the service accepts, the page's batch table and the
      service's reply carry the same labels and probabilities. */
  lemma {:induction false} BatchAgreesWithBackend<V, P>(clf: Classifier<V, P>, table: Table<V>)
    requires WellShaped(clf, table)
    requires Backend.HasRequiredColumns(table.columns)
    ensures Backend.Predict(clf, table).response.Predictions?
    ensures var f := PredictBatch(clf, table);
      var results := Backend.Predict(clf, table).response.results;
      && |results| == |table.rows|
      && ("Predicted Type" !in clf.classes ==>
        forall k :: 0 <= k < |table.rows| ==> f.columns["Predicted Type"][k] == LabelCell(results[k].predictedType))
      && forall c, k :: c in clf.classes && 0 <= k < |table.rows| ==>
        c in f.columns && c in results[k].probabilities && f.columns[c][k] == ProbCell(results[k].probabilities[c])
  {
    var predictions, probabilities := clf.predict(table), clf.predictProba(table);
    ResultsTableAgreesWithRecords(clf.classes, predictions, probabilities);
    assert PredictBatch(clf, table) == ResultsTable(clf.classes, predictions, probabilities);
    assert Backend.Predict(clf, table).response == Backend.Predictions(Backend.Assemble(clf.classes, predictions, probabilities));
  }
}
