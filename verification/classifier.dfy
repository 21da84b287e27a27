/**
 The trained pipeline loaded from the joblib artifact, seen only through what
 the service calls on it: `predict`, `predict_proba` and `classes_`. Their
 internals are unknown, so they are function-valued fields of a record that
 any caller may choose; what the code relies on about them is stated as the
 shape promise `WellShaped`. Probabilities are an opaque type parameter `P`:
 the code passes them through without reading them.
 */
module Classifier {
  import opened Tables

  datatype Classifier<!V, P> = Classifier(
    predict: Table<V> -> seq<Label>,
    predictProba: Table<V> -> seq<seq<P>>,
    classes: seq<Label>)

  /** The classifier's shape promise on a table: one label per row, and a
      rows x classes probability matrix whose columns follow `classes`. */
  predicate WellShaped<V, P>(clf: Classifier<V, P>, t: Table<V>)
  {
    && |clf.predict(t)| == |t.rows|
    && |clf.predictProba(t)| == |t.rows|
    && forall r :: 0 <= r < |clf.predictProba(t)| ==> |clf.predictProba(t)[r]| == |clf.classes|
  }

  /** Position `j` holds the last occurrence of its value in `s`. */
  predicate LastOccurrence<T(==)>(s: seq<T>, j: nat)
    requires j < |s|
  {
    forall k :: j < k < |s| ==> s[k] != s[j]
  }

  /** Every value in `s` has a last occurrence. */
  lemma {:induction false} LastOccurrenceExists<T>(s: seq<T>, x: T) returns (j: nat)
    requires x in s
    ensures j < |s| && s[j] == x && LastOccurrence(s, j)
  {
    if s[|s| - 1] == x {
      j := |s| - 1;
    } else {
      var front := s[..|s| - 1];
      assert x in front by {
        var i :| 0 <= i < |s| && s[i] == x;
        assert i < |s| - 1 && front[i] == x;
      }
      j := LastOccurrenceExists(front, x);
      assert s[j] == front[j];
    }
  }

  /** The dict comprehension that pairs each class with the probability at its
      position in one row of the matrix. Its keys are exactly the class names; when a name repeats, the entry
      written last (highest j) is the one that survives. */
  function ProbabilityMap<P>(classes: seq<Label>, row: seq<P>): (m: map<Label, P>)
    requires |classes| <= |row|
    ensures forall c :: c in m <==> c in classes
    ensures forall j :: 0 <= j < |classes| && LastOccurrence(classes, j) ==> m[classes[j]] == row[j]
    decreases |classes|
  {
    if |classes| == 0 then map[]
    else
      var n := |classes| - 1;
      var m := ProbabilityMap(classes[..n], row);
      ProbabilityMapStep(classes, row, m);
      m[classes[n] := row[n]]
  }

  /** Writing the last class's entry over the map built from the others
      keeps `ProbabilityMap`'s contract. */
  lemma {:induction false} ProbabilityMapStep<P>(classes: seq<Label>, row: seq<P>, m: map<Label, P>)
    requires 0 < |classes| <= |row|
    requires forall c :: c in m <==> c in classes[..|classes| - 1]
    requires forall j :: 0 <= j < |classes| - 1 && LastOccurrence(classes[..|classes| - 1], j) ==> m[classes[j]] == row[j]
    ensures forall c :: c in m[classes[|classes| - 1] := row[|classes| - 1]] <==> c in classes
    ensures forall j :: 0 <= j < |classes| && LastOccurrence(classes, j) ==>
      m[classes[|classes| - 1] := row[|classes| - 1]][classes[j]] == row[j]
  {
    var n := |classes| - 1;
    var front := classes[..n];
    assert classes == front + [classes[n]];
    forall j | 0 <= j < n && LastOccurrence(classes, j)
      ensures m[classes[j]] == row[j] && classes[j] != classes[n]
    {
      assert front[j] == classes[j];
      assert LastOccurrence(front, j);
    }
  }

  /** With distinct class names the map pairs every `classes[j]` with `row[j]`
      and has one entry per class. */
  lemma DistinctClassesPairByPosition<P>(classes: seq<Label>, row: seq<P>)
    requires |classes| <= |row|
    requires Distinct(classes)
    ensures forall j :: 0 <= j < |classes| ==> ProbabilityMap(classes, row)[classes[j]] == row[j]
    ensures |ProbabilityMap(classes, row)| == |classes|
  {
    var m := ProbabilityMap(classes, row);
    assert forall j :: 0 <= j < |classes| ==> LastOccurrence(classes, j);
    assert m.Keys == set c | c in classes;
    DistinctSize(classes);
  }

  lemma {:induction false} DistinctSize(s: seq<Label>)
    requires Distinct(s)
    ensures |set c | c in s| == |s|
  {
    if |s| > 0 {
      var front := s[..|s| - 1];
      DistinctSize(front);
      assert s == front + [s[|s| - 1]];
      assert (set c | c in s) == (set c | c in front) + {s[|s| - 1]};
      assert s[|s| - 1] !in front;
    }
  }
}
