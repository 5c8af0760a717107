/**
 * The report builder: one pass over the measurements in their input order,
 * grading each one the table knows and skipping the rest.
 */
module Evaluate {
  import opened Bisect
  import opened SoilRules

  datatype Option<T> = None | Some(value: T)

  /** One input entry: an item name and a reading that may be missing. */
  type Measurement = (string, Option<real>)

  /** One report row: the item, its reading, the grade label and the status. */
  datatype Record = Record(item: string, value: real, grade: string, status: Status)

  /** An entry is graded when the table knows its name and its reading is present. */
  predicate Graded(m: Measurement) {
    m.0 in RulesDb && m.1.Some?
  }

  /** A row whose grade comes from the table for its item and whose status comes from its grade. */
  predicate Consistent(r: Record) {
    && r.item in RulesDb
    && r.grade == GradeOf(RulesDb[r.item], r.value)
    && r.grade in RulesDb[r.item].grades
    && r.status == StatusOf(r.grade)
  }

  /**
   * The row for a reading of a registered item: it keeps the item and the
   * reading, its grade is one of the item's labels (never the anomaly label)
   * and its status is that of the grade.
   */
  function Assess(item: string, value: real): (r: Record)
    requires item in RulesDb
    ensures r.item == item && r.value == value
    ensures Consistent(r) && r.grade != Anomalous
  {
    GradeNeverAnomalous(item, value);
    var grade := GradeOf(RulesDb[item], value);
    Record(item, value, grade, StatusOf(grade))
  }

  /** The report for a list of measurements, built one entry at a time from the left. */
  function Report(ms: seq<Measurement>): seq<Record>
  {
    if ms == [] then []
    else
      var last := ms[|ms| - 1];
      Report(ms[..|ms| - 1]) + (if Graded(last) then [Assess(last.0, last.1.value)] else [])
  }

  /**
   * `evaluate_soil`: walks the measurements in order, skips entries whose
   * name is not in the table or whose reading is missing, and appends one
   * row per remaining entry.
   */
  method EvaluateSoil(measurements: seq<Measurement>) returns (results: seq<Record>)
    ensures results == Report(measurements)
    ensures |results| <= |measurements|
    ensures forall r :: r in results ==> Consistent(r)
  {
    results := [];
    for i := 0 to |measurements|
      invariant results == Report(measurements[..i])
    {
      assert measurements[..i + 1][..i] == measurements[..i];
      var itemName, value := measurements[i].0, measurements[i].1;
      if itemName !in RulesDb || value.None? {
        continue;
      }
      var rule := RulesDb[itemName];
      var index := BisectRight(rule.thresholds, value.value);
      var grade := if 0 <= index < |rule.grades| then rule.grades[index] else Anomalous;
      var status := Normal;
      if '缺' in grade || '低' in grade {
        status := Deficient;
      } else if '丰' in grade || '高' in grade {
        status := Abundant;
      }
      results := results + [Record(itemName, value.value, grade, status)];
    }
    assert measurements[..|measurements|] == measurements;
    ReportLength(measurements);
    ReportConsistent(measurements);
  }

  /** The report of a concatenation is the concatenation of the reports: input order is kept. */
  lemma {:induction false} ReportAppend(a: seq<Measurement>, b: seq<Measurement>)
    ensures Report(a + b) == Report(a) + Report(b)
    decreases |b|
  {
    if b == [] {
      assert a + b == a;
    } else {
      var b' := b[..|b| - 1];
      assert (a + b)[..|a + b| - 1] == a + b';
      ReportAppend(a, b');
    }
  }

  /** A single entry yields one row when it is graded and none otherwise. */
  lemma ReportSingle(m: Measurement)
    ensures Report([m]) == if Graded(m) then [Assess(m.0, m.1.value)] else []
  {
    assert [m][..0] == [];
  }

  /** Every entry of `ms` is graded. */
  predicate AllGraded(ms: seq<Measurement>) {
    forall i :: 0 <= i < |ms| ==> Graded(ms[i])
  }

  lemma AllGradedSnoc(ms: seq<Measurement>)
    requires ms != []
    ensures AllGraded(ms) <==> AllGraded(ms[..|ms| - 1]) && Graded(ms[|ms| - 1])
  {
    var init := ms[..|ms| - 1];
    assert forall i :: 0 <= i < |init| ==> init[i] == ms[i];
  }

  /** The report has at most one row per entry, and exactly one per entry when every entry is graded. */
  lemma {:induction false} ReportLength(ms: seq<Measurement>)
    ensures |Report(ms)| <= |ms|
    ensures |Report(ms)| == |ms| <==> AllGraded(ms)
  {
    if ms != [] {
      var init := ms[..|ms| - 1];
      ReportLength(init);
      AllGradedSnoc(ms);
      assert |Report(ms)| == |Report(init)| + (if Graded(ms[|ms| - 1]) then 1 else 0);
    }
  }

  /** Every row of the report is graded from the table and carries the status of its grade. */
  lemma {:induction false} ReportConsistent(ms: seq<Measurement>)
    ensures forall r :: r in Report(ms) ==> Consistent(r)
  {
    if ms != [] {
      ReportConsistent(ms[..|ms| - 1]);
      var last := ms[|ms| - 1];
      if Graded(last) {
        GradeNeverAnomalous(last.0, last.1.value);
      }
    }
  }

  /** Every row of the report comes from some graded entry, with its name and reading unchanged. */
  lemma {:induction false} ReportRowsFromEntries(ms: seq<Measurement>, r: Record)
    requires r in Report(ms)
    ensures exists i :: 0 <= i < |ms| && Graded(ms[i]) && r == Assess(ms[i].0, ms[i].1.value)
  {
    var init := ms[..|ms| - 1];
    var last := ms[|ms| - 1];
    if r in Report(init) {
      ReportRowsFromEntries(init, r);
      var i :| 0 <= i < |init| && Graded(init[i]) && r == Assess(init[i].0, init[i].1.value);
      assert ms[i] == init[i];
    } else {
      assert Graded(last) && r == Assess(last.0, last.1.value);
    }
  }

  /** No graded entry is dropped: the row of each graded entry is in the report. */
  lemma {:induction false} ReportKeepsEntries(ms: seq<Measurement>, i: int)
    requires 0 <= i < |ms| && Graded(ms[i])
    ensures Assess(ms[i].0, ms[i].1.value) in Report(ms)
  {
    var init := ms[..|ms| - 1];
    var last := ms[|ms| - 1];
    if i < |init| {
      ReportKeepsEntries(init, i);
      assert ms[i] == init[i];
      assert Report(ms) == Report(init) + (if Graded(last) then [Assess(last.0, last.1.value)] else []);
    } else {
      assert Report(ms) == Report(init) + [Assess(last.0, last.1.value)];
    }
  }

  /**
   * A row is in the report exactly when some graded entry produced it: each
   * row carries its entry's name and reading unchanged, and no graded entry
   * is dropped.
   */
  lemma ReportMembers(ms: seq<Measurement>, r: Record)
    ensures r in Report(ms) <==>
      exists i :: 0 <= i < |ms| && Graded(ms[i]) && r == Assess(ms[i].0, ms[i].1.value)
  {
    if r in Report(ms) {
      ReportRowsFromEntries(ms, r);
    } else {
      forall i | 0 <= i < |ms| && Graded(ms[i])
        ensures r != Assess(ms[i].0, ms[i].1.value)
      {
        ReportKeepsEntries(ms, i);
      }
    }
  }

  /** The first row of the report is the row of the first entry when that entry is graded. */
  lemma ReportHead(ms: seq<Measurement>)
    requires ms != [] && Graded(ms[0])
    ensures |Report(ms)| > 0 && Report(ms)[0] == Assess(ms[0].0, ms[0].1.value)
  {
    assert ms == [ms[0]] + ms[1..];
    ReportAppend([ms[0]], ms[1..]);
    ReportSingle(ms[0]);
  }

  /** When every entry is graded, row k of the report is the row of entry k. */
  lemma {:induction false} ReportAllGraded(ms: seq<Measurement>)
    requires AllGraded(ms)
    ensures |Report(ms)| == |ms|
    ensures forall k :: 0 <= k < |ms| ==> Report(ms)[k] == Assess(ms[k].0, ms[k].1.value)
  {
    if ms != [] {
      var init := ms[..|ms| - 1];
      var last := ms[|ms| - 1];
      AllGradedSnoc(ms);
      ReportAllGraded(init);
      var rows, row := Report(init), Assess(last.0, last.1.value);
      assert Report(ms) == rows + [row];
      forall k | 0 <= k < |ms|
        ensures Report(ms)[k] == Assess(ms[k].0, ms[k].1.value)
      {
        if k < |init| {
          assert init[k] == ms[k];
          assert (rows + [row])[k] == rows[k];
        } else {
          assert (rows + [row])[k] == row;
        }
      }
    }
  }
}
