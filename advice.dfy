/**
 * The list of deficient items named in the fertilising advice: the short
 * name of every report row whose grade uses deficiency wording, in report
 * order.
 */
module Advice {
  import opened SoilRules
  import opened Evaluate

  /** The part of an item name before its first space (the whole name when it has none). */
  function ShortName(item: string): (s: string)
    ensures |s| <= |item| && s == item[..|s|]
    ensures ' ' !in s
    ensures |s| < |item| ==> item[|s|] == ' '
  {
    if item == [] || item[0] == ' ' then []
    else [item[0]] + ShortName(item[1..])
  }

  /** The advice's own test on a row: its grade label contains 缺 or 低. */
  predicate GradeSaysLacking(r: Record) {
    '缺' in r.grade || '低' in r.grade
  }

  /**
   * The short names of the rows whose grade says lacking, in report order:
   * at most one name per row, and a name is listed exactly when some such
   * row carries it.
   */
  function Lacking(report: seq<Record>): (names: seq<string>)
    ensures |names| <= |report|
    ensures forall n :: n in names <==>
      exists r :: r in report && GradeSaysLacking(r) && ShortName(r.item) == n
  {
    if report == [] then []
    else
      (if GradeSaysLacking(report[0]) then [ShortName(report[0].item)] else [])
      + Lacking(report[1..])
  }

  /** Reference list: the short names of the rows whose status is deficient, in report order. */
  function DeficientNames(report: seq<Record>): seq<string>
  {
    if report == [] then []
    else
      (if report[0].status == Deficient then [ShortName(report[0].item)] else [])
      + DeficientNames(report[1..])
  }

  /**
   * On rows whose status was derived from their grade, the advice's keyword
   * test picks exactly the deficient rows.
   */
  lemma {:induction false} LackingIsDeficient(report: seq<Record>)
    requires forall r :: r in report ==> r.status == StatusOf(r.grade)
    ensures Lacking(report) == DeficientNames(report)
  {
    if report != [] {
      assert forall r :: r in report[1..] ==> r in report;
      LackingIsDeficient(report[1..]);
    }
  }

  /** For any list of measurements, the advice lists exactly the deficient rows of its report. */
  lemma LackingOfReport(ms: seq<Measurement>)
    ensures Lacking(Report(ms)) == DeficientNames(Report(ms))
  {
    ReportConsistent(ms);
    LackingIsDeficient(Report(ms));
  }

  /** The advice names at most one item per row, and keeps the order of the rows. */
  lemma {:induction false} LackingAppend(a: seq<Record>, b: seq<Record>)
    ensures Lacking(a + b) == Lacking(a) + Lacking(b)
    ensures |Lacking(a)| <= |a|
  {
    if a != [] {
      assert (a + b)[1..] == a[1..] + b;
      LackingAppend(a[1..], b);
    } else {
      assert a + b == b;
    }
  }

  /**
   * A row graded from the table is named in the advice exactly when its
   * reading is below the second threshold of its item.
   */
  lemma LacksIffBelowSecondThreshold(r: Record)
    requires Consistent(r)
    ensures GradeSaysLacking(r) <==> r.value < RulesDb[r.item].thresholds[1]
  {
    StatusByThresholds(r.item, r.value);
  }
}
