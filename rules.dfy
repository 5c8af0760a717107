/**
 * The cotton soil-nutrient reference table and the two pure steps that grade
 * one reading: the threshold lookup that yields a grade label, and the
 * keyword rule that turns a label into a three-way status.
 */
module SoilRules {
  import opened Bisect

  /** One table entry: ascending thresholds and one more grade label than thresholds. */
  datatype Rule = Rule(thresholds: seq<real>, grades: seq<string>)

  /** The data invariant every entry of the table is meant to satisfy. */
  predicate WellFormed(rule: Rule) {
    StrictlyIncreasing(rule.thresholds) && |rule.grades| == |rule.thresholds| + 1
  }

  /** The five-level scale shared by the trace elements. */
  const TraceGrades: seq<string> := ["1 (很缺)", "2 (缺)", "3 (适中)", "4 (丰)", "5 (很丰)"]

  /** The four-level scale shared by organic matter and the major nutrients. */
  const MajorGrades: seq<string> := ["极低", "低", "中", "高"]

  /** The reference table, keyed by the item names the input form uses. */
  const RulesDb: map<string, Rule> := map[
    "硼 B (mg/kg)" := Rule([0.2, 0.5, 1.0, 2.0], TraceGrades),
    "钼 Mo (mg/kg)" := Rule([0.1, 0.15, 0.2, 0.3], TraceGrades),
    "锰 Mn (mg/kg)" := Rule([1.0, 5.0, 15.0, 30.0], TraceGrades),
    "锌 Zn (mg/kg)" := Rule([0.3, 0.5, 1.0, 3.0], TraceGrades),
    "铜 Cu (mg/kg)" := Rule([0.1, 0.2, 1.0, 1.8], TraceGrades),
    "铁 Fe (mg/kg)" := Rule([2.5, 4.5, 10.0, 20.0], TraceGrades),
    "有机质(北疆) g/kg" := Rule([12.0, 15.0, 18.0], MajorGrades),
    "有机质(南疆) g/kg" := Rule([8.0, 12.0, 16.0], MajorGrades),
    "碱解氮 ppm" := Rule([40.0, 60.0, 90.0], MajorGrades),
    "有效磷 ppm" := Rule([7.0, 13.0, 30.0], MajorGrades),
    "速效钾 ppm" := Rule([80.0, 160.0, 210.0], MajorGrades)
  ]

  /** The label given when the insertion point has no grade. */
  const Anomalous: string := "异常"

  /**
   * The grade of a reading: the label at bisect_right's insertion point, or
   * the anomaly label when that point is past the end of the label list. On a
   * well-formed entry it is the label indexed by the number of thresholds at
   * or below the reading.
   */
  function GradeOf(rule: Rule, value: real): (g: string)
    ensures WellFormed(rule) ==> g == rule.grades[CountAtMost(rule.thresholds, value)]
  {
    BisectRightIsCount(rule.thresholds, value);
    var index := BisectRight(rule.thresholds, value);
    if 0 <= index < |rule.grades| then rule.grades[index] else Anomalous
  }

  /** Coarse status of a grade label. */
  datatype Status = Deficient | Abundant | Normal

  /** The text the report shows for a status. */
  function StatusText(s: Status): string
  {
    match s
    case Deficient => "缺乏"
    case Abundant => "丰富"
    case Normal => "正常"
  }

  /** Each status has its own text, so the report column determines the status. */
  lemma StatusTextDistinct(s: Status, s': Status)
    ensures StatusText(s) == StatusText(s') <==> s == s'
  {
    if s != s' {
      assert StatusText(s)[0] != StatusText(s')[0];
    }
  }

  /** Keyword table consulted in order: deficiency wording first, then abundance wording. */
  const StatusKeywords: seq<(char, Status)> :=
    [('缺', Deficient), ('低', Deficient), ('丰', Abundant), ('高', Abundant)]

  /** The status of the first keyword of `table` that occurs in `grade`, Normal if none does. */
  function FirstMatch(table: seq<(char, Status)>, grade: string): Status
  {
    if table == [] then Normal
    else if table[0].0 in grade then table[0].1
    else FirstMatch(table[1..], grade)
  }

  /**
   * Status of a grade label, driven by the keyword table: deficiency wording
   * wins over abundance wording, and a label with neither is normal.
   */
  function StatusOf(grade: string): (s: Status)
    ensures s == Deficient <==> ('缺' in grade || '低' in grade)
    ensures s == Abundant <==>
      !('缺' in grade || '低' in grade) && ('丰' in grade || '高' in grade)
    ensures s == Normal <==>
      !('缺' in grade || '低' in grade || '丰' in grade || '高' in grade)
  {
    FirstMatchKeywords(grade);
    FirstMatch(StatusKeywords, grade)
  }

  /**
   * Scanning the keyword table agrees with the inline rule of the report
   * loop: a label with 缺 or 低 is deficient, whatever else it contains;
   * otherwise one with 丰 or 高 is abundant; every other label is normal.
   */
  lemma FirstMatchKeywords(grade: string)
    ensures FirstMatch(StatusKeywords, grade) == Deficient <==> ('缺' in grade || '低' in grade)
    ensures FirstMatch(StatusKeywords, grade) == Abundant <==>
      !('缺' in grade || '低' in grade) && ('丰' in grade || '高' in grade)
    ensures FirstMatch(StatusKeywords, grade) == Normal <==>
      !('缺' in grade || '低' in grade || '丰' in grade || '高' in grade)
  {
    var t0 := StatusKeywords;
    var t1, t2, t3 := t0[1..], t0[2..], t0[3..];
    assert t1 == [('低', Deficient), ('丰', Abundant), ('高', Abundant)];
    assert t2 == [('丰', Abundant), ('高', Abundant)];
    assert t3 == [('高', Abundant)] && t3[1..] == [];
    assert FirstMatch(t3, grade) == if '高' in grade then Abundant else Normal;
    assert FirstMatch(t2, grade) == if '丰' in grade then Abundant else FirstMatch(t3, grade);
    assert FirstMatch(t1, grade) == if '低' in grade then Deficient else FirstMatch(t2, grade);
  }

  /** Every entry of the table has strictly ascending thresholds and one label more than thresholds. */
  lemma RulesWellFormed(name: string)
    requires name in RulesDb
    ensures WellFormed(RulesDb[name])
  {
  }

  /**
   * On every scale of the table the two lowest grades are deficient, the
   * third is normal and the ones above are abundant.
   */
  lemma GradeStatusByIndex(name: string, i: nat)
    requires name in RulesDb
    requires i < |RulesDb[name].grades|
    ensures StatusOf(RulesDb[name].grades[i]) ==
      (if i < 2 then Deficient else if i == 2 then Normal else Abundant)
  {
    var g := RulesDb[name].grades[i];
    assert g in TraceGrades || g in MajorGrades;
  }

  /** The anomaly label is never produced for a registered nutrient. */
  lemma GradeNeverAnomalous(name: string, value: real)
    requires name in RulesDb
    ensures GradeOf(RulesDb[name], value) != Anomalous
    ensures GradeOf(RulesDb[name], value) in RulesDb[name].grades
  {
    RulesWellFormed(name);
    var g := GradeOf(RulesDb[name], value);
    assert Anomalous !in TraceGrades && Anomalous !in MajorGrades;
  }

  /** A reading exactly on the k-th boundary gets the grade above that boundary. */
  lemma GradeAtBoundary(rule: Rule, k: nat)
    requires WellFormed(rule)
    requires k < |rule.thresholds|
    ensures GradeOf(rule, rule.thresholds[k]) == rule.grades[k + 1]
  {
    BoundaryGoesUp(rule.thresholds, k);
    BisectRightIsCount(rule.thresholds, rule.thresholds[k]);
  }

  /** Below the lowest boundary the grade is the first; at or above the highest it is the last. */
  lemma GradeExtremes(rule: Rule, value: real)
    requires WellFormed(rule)
    requires |rule.thresholds| > 0
    ensures value < rule.thresholds[0] ==> GradeOf(rule, value) == rule.grades[0]
    ensures rule.thresholds[|rule.thresholds| - 1] <= value ==>
      GradeOf(rule, value) == rule.grades[|rule.grades| - 1]
  {
    StrictlyIncreasingIsSorted(rule.thresholds);
    BisectRightExtremes(rule.thresholds, value);
    BisectRightIsCount(rule.thresholds, value);
  }

  /**
   * For every registered nutrient the status of a reading is decided by its
   * second and third thresholds: deficient below the second, abundant from
   * the third on, normal in between.
   */
  lemma StatusByThresholds(name: string, value: real)
    requires name in RulesDb
    ensures var t := RulesDb[name].thresholds;
      && (StatusOf(GradeOf(RulesDb[name], value)) == Deficient <==> value < t[1])
      && (StatusOf(GradeOf(RulesDb[name], value)) == Normal <==> t[1] <= value < t[2])
      && (StatusOf(GradeOf(RulesDb[name], value)) == Abundant <==> t[2] <= value)
  {
    var rule := RulesDb[name];
    var t := rule.thresholds;
    RulesWellFormed(name);
    StrictlyIncreasingIsSorted(t);
    BisectRightSplits(t, value);
    BisectRightIsCount(t, value);
    var i := CountAtMost(t, value);
    GradeStatusByIndex(name, i);
    assert i < 2 <==> value < t[1];
    assert i <= 2 <==> value < t[2];
  }

  /** A phosphorus reading below the first boundary, and one exactly on the second. */
  lemma PhosphorusExamples()
    ensures GradeOf(RulesDb["有效磷 ppm"], 5.0) == "极低"
    ensures StatusOf(GradeOf(RulesDb["有效磷 ppm"], 5.0)) == Deficient
    ensures GradeOf(RulesDb["有效磷 ppm"], 13.0) == "中"
    ensures StatusOf(GradeOf(RulesDb["有效磷 ppm"], 13.0)) == Normal
  {
    var rule := RulesDb["有效磷 ppm"];
    GradeExtremes(rule, 5.0);
    GradeAtBoundary(rule, 1);
    StatusByThresholds("有效磷 ppm", 5.0);
    StatusByThresholds("有效磷 ppm", 13.0);
  }
}
