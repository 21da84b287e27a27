# Star Type Classifier: verified model of the inference pipeline

The Star Type Classifier wraps a pre-trained scikit-learn pipeline. That
pipeline predicts a star's type from four measurements: temperature,
luminosity, radius and absolute magnitude. The pipeline has two access paths:

- a FastAPI service (`backend.py`). It has a status probe and a batch
  endpoint. The endpoint checks the uploaded table's column names, runs the
  classifier once over the whole table, and returns one record per row.
- a Streamlit page (`frontend.py`). It loads its own copy of the classifier.
  It either turns a form of four numbers into a one-row table, or runs the
  classifier over an uploaded table and builds a wide results table.

This project models the logic around the classifier in Dafny:

- the required-column gate;
- the error reply;
- the zipping of labels and probability rows into records;
- the class-to-probability maps;
- the single-record table;
- the pandas results table.

The classifier itself stays opaque.

## Modelling choices

- **Modules.** There are five modules:
  - `Tables`: the parsed table, given as ordered column names plus rows.
  - `Strings`: Python's `", ".join`.
  - `Classifier`: the opaque pipeline and the per-row class-to-probability map, which both files build.
  - `Backend`: the service.
  - `Frontend`: the page.
- **The classifier.** It is a record of two function-valued fields, `predict` and `predictProba`, plus the `classes` list. Any caller may supply any functions. What the code relies on is the predicate `WellShaped`:
  - one label per row;
  - a rows × classes probability matrix whose columns follow `classes`.

  The gateways take `WellShaped` as a precondition. The assembly functions require only what their indexing needs.
- **Probabilities and cell values.** Both are type parameters, because the code only passes them through. Nothing about their range or their sum is stated, because the code checks neither.
- **Class labels.** Labels are strings, because they become dictionary keys and DataFrame column names.
- **Classifier calls.** The service handler returns its reply together with the list of calls it made on the classifier. This makes "no inference on rejection" a statement about the result.
- **Duplicate class names.** Python's dict comprehension and pandas' column assignment both let the later write win. `LastOccurrence(classes, j)` marks the position whose value survives.
- **The results table.** A pandas DataFrame is modelled as its ordered column names plus a map from name to cells. `frame[name] = cells` overwrites an existing column where it stands, or else appends a new one. So a class named `Index` or `Predicted Type` overwrites that fixed column. The contracts about those two columns hold when no class has that name. The class columns are exact in every case.
- **The single-record table.** The page's dict keys are the same four strings as the service's required list (`backend.py:40`). The contracts name them through the service's constants.

## Model

| member | source | states |
|---|---|---|
| Backend.CheckStatus | backend.py:30-32 | The probe takes no input. Its reply has exactly one key, `message`, holding the fixed text "The Star Type Classifier API is running!". |
| Backend.AllPresentIffEach | backend.py:41 | The short-circuiting `all(col in columns for col in required)` holds exactly when every required name, taken by position, is an exact member of the column names. |
| Backend.AcceptedIffEachRequiredPresent | backend.py:40-41 | A table passes the gate exactly when each of the four required names is among its column names. |
| Backend.AcceptanceIgnoresOrderAndExtras | backend.py:41 | The gate checks membership per name, not set equality. Any column list that contains every name of an accepted list is also accepted, whatever the extra columns or the order. |
| Strings.Join | backend.py:42 | `sep.join(parts)` places part i at the sum of the earlier parts' lengths plus one separator each. A separator follows every part but the last, and the result ends with the last part. The result is empty for no parts. |
| Backend.RejectionMessageNamesRequiredColumns | backend.py:40-42 | The error text names all four required columns, in their fixed order, after the fixed prefix. It names them all whichever one is missing. |
| Backend.RejectionMessageSeparatesRequiredColumns | backend.py:42 | Consecutive required names in the error text are separated by ", ". The text ends with the last required name. |
| Classifier.ProbabilityMap | backend.py:51 | The comprehension's key set is exactly the class list. Class j maps to `row[j]` whenever j is the last position holding that name, so a repeated name keeps its later value. |
| Classifier.DistinctClassesPairByPosition | backend.py:51 | With distinct class names, every `classes[j]` maps to `row[j]` and the map has one entry per class. |
| Backend.Assemble | backend.py:49-56 | The loop yields one record per prediction, in prediction order. Record i has `index == i`, `predicted_type == predictions[i]`, and the probability map of row i. |
| Backend.Predict | backend.py:34-58 | The reply is the error exactly when one of the four required names is missing from the columns. The error carries the fixed message, and the classifier is not called. Otherwise `predict` and then `predict_proba` run once each. The reply then has one record per row: index i, label `predict(table)[i]`, and keys exactly the classes, class j mapping to `predict_proba(table)[i][j]` for its last position j. |
| Backend.RejectionIgnoresClassifier | backend.py:41-46 | On a rejected table, any two classifiers produce the same reply and no calls. The error return comes before any inference. |
| Backend.RejectionIndependentOfTable | backend.py:40-42 | Any two rejected tables get the same reply, whichever columns they lack. |
| Frontend.SingleRecordTable | frontend.py:35-40 | The form's table has exactly one row. Its column list is exactly the backend's required list, in the same order: temperature, luminosity, radius, absolute magnitude. Each form value lands in its own named column. |
| Frontend.SingleRecordPassesColumnCheck | frontend.py:35-40 | The form's one-row table always passes the service's required-column check. |
| Frontend.PredictSingle | frontend.py:42-48 | The shown label is the first prediction. The shown map has exactly the classes as keys, with `classes[i]` mapping to `predict_proba(...)[0][i]` for the last position i of each name. |
| Frontend.SingleAgreesWithBackend | frontend.py:42-48 | Sending the form's table to the service would give exactly one record at index 0, carrying the same label and map that the page shows. |
| Frontend.InitialFrame | frontend.py:69-72 | The DataFrame starts with columns `Index` and then `Predicted Type`. `Index` holds 0..n-1 and `Predicted Type` holds the predictions in order. |
| Frontend.NewColumnNames | frontend.py:73-74 | The names the loop appends are exactly the classes that are not already columns, each listed once. |
| Frontend.NewColumnNamesInClassOrder | frontend.py:73-74 | The appended names stand in the order of their first positions in the class list. So a repeated class keeps the place of its first assignment, as pandas does when it overwrites an existing column. |
| Frontend.NewColumnNamesOfFresh | frontend.py:73-74 | When the classes are distinct and none is already a column, the loop appends all of them, in class order. |
| Frontend.SetColumn | frontend.py:74 | Assigning a column keeps the earlier column order. An existing name is overwritten in place and a new name is appended. Every other column is unchanged. |
| Frontend.ProbColumn | frontend.py:74 | `probabilities[:, i]` has one cell per matrix row, and cell r is `probabilities[r][i]`. |
| Frontend.AddClassColumns | frontend.py:73-74 | After the loop, the column list is the earlier columns followed by the class names that were not yet columns, in order of first assignment and without repeats. Each class name holds its column of the matrix, with the last equal name winning. Columns that no class names are unchanged and keep their places. |
| Frontend.ResultsTable | frontend.py:69-74 | The column list is `Index`, `Predicted Type`, then the new class names in first-assignment order. With distinct classes other than those two names, it is exactly `Index`, `Predicted Type`, then the classes in order. Every column has n cells. `Index` is 0..n-1 and `Predicted Type` is the predictions in order, unless a class of that name overwrote them. Every class name heads column i of the matrix for its last position i. |
| Frontend.PredictBatch | frontend.py:63-74 | The page runs inference on the uploaded table as given, with no column check. It builds the results table with one row per input row, its columns ordered as `Index`, `Predicted Type`, then the classes (exactly so when the classes are distinct and avoid the two fixed names). |
| Frontend.PageSkipsColumnCheck | frontend.py:63-66 | The page accepts a table that the service rejects. The service answers with its error and makes no calls, while the page still produces a results table with one `Index` cell per row. |
| Frontend.ResultsTableAgreesWithRecords | frontend.py:69-74 | From the same predictions and matrix, the wide table and the service's record list agree. Row k's `Predicted Type` is record k's label, and the cell under each class name is record k's probability for that class. |
| Frontend.BatchAgreesWithBackend | frontend.py:65-74 | On a table the service accepts, the page's batch table and the service's reply carry the same labels and the same per-class probabilities, row by row. |

## Left out

- Streamlit layout is not modelled, because it is presentation. This covers page configuration, title, sidebar, widgets, `st.dataframe`, `st.json`, `st.success` and the CSV download button (`frontend.py:7-31`, `46-47`, `49`, `56-61`, `76-86`).
- FastAPI setup is not modelled, because it is transport. This covers the app object, the CORS middleware, the route decorators and `await file.read()` (`backend.py:12-21`, `34-36`).
- `pd.read_csv` and `to_csv` are library I/O (`backend.py:37`, `frontend.py:60`, `frontend.py:80`). The model starts from the parsed table: ordered column names plus rows. A parse failure is not modelled.
- `joblib.load` and everything inside the pipeline are left out (`backend.py:9`, `frontend.py:17`). `predict`, `predict_proba` and `classes_` are arbitrary functions and data, constrained only by the shape promise `WellShaped`.
- Backend.Predict: exceptions are not modelled. The classifier functions are total, and nothing in the handler catches an exception from `predict` or `predict_proba` (`backend.py:45-46`), so such an error would never become a structured reply. Two kinds of break in the shape promise behave differently in Python. A matrix with fewer rows than labels, or a row shorter than `classes_`, makes the loop (`backend.py:50-51`) raise `IndexError`. A label count that differs from the table's row count, with a matrix row for every label, raises nothing, because the loop runs over `predictions`: the reply just has one record per label. The precondition `WellShaped` excludes both.
- The `StarInput` class (`backend.py:24-28`) is declared but no route uses it.
- The widgets' `min_value=0.0` bounds (`frontend.py:28-31`) are enforced by the UI and do not reach the table logic. Form values are an opaque type here.
- Floating-point values of probabilities are not modelled. No contract says they lie in [0, 1] or sum to 1, because the code checks neither.
- The predicted label is not claimed to be one of `classes_`. Nothing in the code relies on it.
- Determinism needs no lemma, because every operation here is a pure function of its inputs.
- Labels are strings. A pipeline with integer classes cannot collide with the `Index` and `Predicted Type` column names, and the string model covers that case as a class list without those names.
- The page's single-star path runs its own local copy of the classifier (`frontend.py:43-44`). It does not call the service, so no network call appears in the model.
- The service exposes only two routes: `GET /` and `POST /predict/` (`backend.py:30`, `34`). There is no separate single-record route to model.
- Classifier.ProbabilityMap: a Python dict keeps its keys in insertion order, which follows `classes_`. That order shows in the JSON reply (`backend.py:58`) and in `st.json` (`frontend.py:49`). Dafny's `map` is unordered, so the model promises the key set and each key's value, but not the order in which keys are listed.
