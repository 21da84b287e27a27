/**
 The FastAPI service: a status probe, and the batch endpoint that checks an
 uploaded table's column names, runs the classifier once over the whole table
 and zips its output into one record per row. Reading and parsing the upload
 happen before this model begins; the parsed table is its input.
 */
module Backend {
  import opened Tables
  import opened Classifier
  import Strings

  const TemperatureColumn: ColumnName := "Temperature (K)"
  const LuminosityColumn: ColumnName := "Luminosity(L/Lo)"
  const RadiusColumn: ColumnName := "Radius(R/Ro)"
  const MagnitudeColumn: ColumnName := "Absolute magnitude(Mv)"

  /** The four feature columns the batch endpoint insists on, in this order. */
  const RequiredColumns: seq<ColumnName> :=
    [TemperatureColumn, LuminosityColumn, RadiusColumn, MagnitudeColumn]

  const RejectionPrefix: string := "Invalid file format. Required columns are: "

  /** The text of the `error` reply: it names all required columns, never
      just the missing ones. */
  const RejectionMessage: string := RejectionPrefix + Strings.Join(RequiredColumns, ", ")

  const StatusMessage: string := "The Star Type Classifier API is running!"

  /** One entry of the `predictions` list. */
  datatype Prediction<P> = Prediction(index: nat, predictedType: Label, probabilities: map<Label, P>)

  /** The endpoint's two reply shapes: `{"error": ...}` or `{"predictions": [...]}`. */
  datatype Response<P> = Rejected(error: string) | Predictions(results: seq<Prediction<P>>)

  /** A call made on the classifier while handling a request. */
  datatype ModelCall = PredictCall | PredictProbaCall

  /** A reply together with the classifier calls made to produce it, in order. */
  datatype Handled<P> = Handled(response: Response<P>, calls: seq<ModelCall>)

  /** The `GET /` probe: no input, one fixed `message` entry. */
  function CheckStatus(): (reply: map<string, string>)
    ensures reply.Keys == {"message"}
    ensures reply["message"] == StatusMessage
  {
    map["message" := StatusMessage]
  }

  /** Whether every required name is a column name, checked one required name
      at a time from the front and stopping at the first miss, as Python's
      `all` over a generator does. */
  predicate AllPresent(required: seq<ColumnName>, columns: seq<ColumnName>)
  {
    |required| == 0 || (required[0] in columns && AllPresent(required[1..], columns))
  }

  lemma {:induction false} AllPresentIffEach(required: seq<ColumnName>, columns: seq<ColumnName>)
    ensures AllPresent(required, columns) <==> forall i :: 0 <= i < |required| ==> required[i] in columns
  {
    if |required| > 0 {
      AllPresentIffEach(required[1..], columns);
      assert forall i :: 1 <= i < |required| ==> required[1..][i - 1] == required[i];
    }
  }

  predicate HasRequiredColumns(columns: seq<ColumnName>)
  {
    AllPresent(RequiredColumns, columns)
  }

  /** The upload passes the check exactly when each required name is, as an
      exact string, one of the table's column names. */
  lemma AcceptedIffEachRequiredPresent(columns: seq<ColumnName>)
    ensures HasRequiredColumns(columns) <==> forall c :: c in RequiredColumns ==> c in columns
  {
    AllPresentIffEach(RequiredColumns, columns);
  }

  /** Acceptance is per-name membership: adding columns or reordering them
      never turns an accepted table into a rejected one. */
  lemma AcceptanceIgnoresOrderAndExtras(columns: seq<ColumnName>, more: seq<ColumnName>)
    requires forall c :: c in columns ==> c in more
    ensures HasRequiredColumns(columns) ==> HasRequiredColumns(more)
  {
    AcceptedIffEachRequiredPresent(columns);
    AcceptedIffEachRequiredPresent(more);
  }

  /** The rejection message names every required column, in the fixed
      order: name `i` starts where the earlier names and their ", "
      separators end. */
  lemma RejectionMessageNamesRequiredColumns()
    ensures forall i :: 0 <= i < |RequiredColumns| ==>
      Strings.OccursAt(RequiredColumns[i], RejectionMessage, |RejectionPrefix| + Strings.Offset(RequiredColumns, ", ", i))
  {
    Strings.PartsAfterPrefix(RejectionPrefix, RequiredColumns, ", ");
  }

  /** Consecutive names in the rejection message are separated by ", ", and
      the message ends with the last required name. */
  lemma RejectionMessageSeparatesRequiredColumns()
    ensures forall i :: 0 <= i < |RequiredColumns| - 1 ==>
      Strings.OccursAt(", ", RejectionMessage, |RejectionPrefix| + Strings.Offset(RequiredColumns, ", ", i) + |RequiredColumns[i]|)
    ensures |RejectionMessage| == |RejectionPrefix| + Strings.Offset(RequiredColumns, ", ", |RequiredColumns| - 1) + |RequiredColumns[|RequiredColumns| - 1]|
  {
    Strings.SeparatorsAfterPrefix(RejectionPrefix, RequiredColumns, ", ");
  }

  /** What the assembly loop needs from its inputs: a probability row for
      every prediction, each with an entry for every class. */
  predicate Assemblable<P>(classes: seq<Label>, predictions: seq<Label>, probabilities: seq<seq<P>>)
  {
    && |predictions| <= |probabilities|
    && forall i :: 0 <= i < |predictions| ==> |classes| <= |probabilities[i]|
  }

  /** The results loop over the enumerated predictions, as the list it has
      built after appending one record per prediction. */
  function Assemble<P>(classes: seq<Label>, predictions: seq<Label>, probabilities: seq<seq<P>>): (results: seq<Prediction<P>>)
    requires Assemblable(classes, predictions, probabilities)
    ensures |results| == |predictions|
    ensures forall i :: 0 <= i < |results| ==>
      && results[i].index == i
      && results[i].predictedType == predictions[i]
      && results[i].probabilities == ProbabilityMap(classes, probabilities[i])
    decreases |predictions|
  {
    if |predictions| == 0 then []
    else
      var n := |predictions| - 1;
      Assemble(classes, predictions[..n], probabilities)
        + [Prediction(n, predictions[n], ProbabilityMap(classes, probabilities[n]))]
  }

  /** The `POST /predict/` handler on an already parsed table. A missing
      required column returns the fixed error before the classifier is
      touched; otherwise `predict` then `predict_proba` run once each over the
      whole table and the reply has one record per row, in row order. */
  function Predict<V, P>(clf: Classifier<V, P>, table: Table<V>): (h: Handled<P>)
    requires HasRequiredColumns(table.columns) ==> WellShaped(clf, table)
    ensures h.response.Rejected? <==> exists i :: 0 <= i < |RequiredColumns| && RequiredColumns[i] !in table.columns
    ensures h.response.Rejected? ==> h.response.error == RejectionMessage && h.calls == []
    ensures h.response.Predictions? ==>
      && HasRequiredColumns(table.columns)
      && h.calls == [PredictCall, PredictProbaCall]
      && |h.response.results| == |table.rows|
      && forall i :: 0 <= i < |table.rows| ==>
        && h.response.results[i].index == i
        && h.response.results[i].predictedType == clf.predict(table)[i]
        && (forall c :: c in h.response.results[i].probabilities <==> c in clf.classes)
        && forall j :: 0 <= j < |clf.classes| && LastOccurrence(clf.classes, j) ==>
          h.response.results[i].probabilities[clf.classes[j]] == clf.predictProba(table)[i][j]
  {
    AllPresentIffEach(RequiredColumns, table.columns);
    if !HasRequiredColumns(table.columns) then
      Handled(Rejected(RejectionMessage), [])
    else
      var predictions := clf.predict(table);
      var probabilities := clf.predictProba(table);
      Handled(Predictions(Assemble(clf.classes, predictions, probabilities)), [PredictCall, PredictProbaCall])
  }

  /** On rejection the reply does not depend on the classifier at all: any
      two classifiers give the same reply and neither is called. */
  lemma RejectionIgnoresClassifier<V, P>(clf1: Classifier<V, P>, clf2: Classifier<V, P>, table: Table<V>)
    requires !HasRequiredColumns(table.columns)
    ensures Predict(clf1, table) == Predict(clf2, table)
    ensures Predict(clf1, table).calls == []
  {
  }

  /** Two rejected uploads get the same reply, whichever column is missing. */
  lemma RejectionIndependentOfTable<V, P>(clf: Classifier<V, P>, t1: Table<V>, t2: Table<V>)
    requires !HasRequiredColumns(t1.columns) && !HasRequiredColumns(t2.columns)
    ensures Predict(clf, t1).response == Predict(clf, t2).response
  {
  }
}
