/**
 * How the readings typed into the form become the measurements that are
 * graded: the organic-matter item is keyed by the growing region, every
 * reading that is not strictly positive is dropped as "not measured", and
 * the remaining entries are graded in the order the form lists them.
 */
module Intake {
  import opened SoilRules
  import opened Evaluate

  /** The two growing regions offered by the region selector, which decide the organic-matter scale. */
  datatype Region = North | South

  /** The region's name as the selector shows it and as it appears in the item key. */
  function RegionName(region: Region): string
  {
    match region
    case North => "北疆"
    case South => "南疆"
  }

  /** The table key for organic matter in the chosen region. */
  function OrganicMatterKey(region: Region): (k: string)
    ensures k in RulesDb
    ensures RulesDb[k].thresholds ==
      (if region == North then [12.0, 15.0, 18.0] else [8.0, 12.0, 16.0])
    ensures RulesDb[k].grades == MajorGrades
  {
    var k := "有机质(" + RegionName(region) + ") g/kg";
    assert k == if region == North then "有机质(北疆) g/kg" else "有机质(南疆) g/kg";
    k
  }

  /** The ten numbers entered in the form; each widget starts at 0 and accepts no negative number. */
  datatype Readings = Readings(
    organicMatter: real,
    nitrogen: real,
    phosphorus: real,
    potassium: real,
    iron: real,
    manganese: real,
    copper: real,
    zinc: real,
    boron: real,
    molybdenum: real)

  /**
   * The form's entries in insertion order: organic matter first, and only
   * when its reading is positive, then the major nutrients, then the trace
   * elements, each under its table key.
   */
  function FormInputs(region: Region, rd: Readings): (inputs: seq<(string, real)>)
    ensures |inputs| == if rd.organicMatter > 0.0 then 10 else 9
    ensures forall e :: e in inputs ==> e.0 in RulesDb
    ensures rd.organicMatter > 0.0 ==> inputs[0] == (OrganicMatterKey(region), rd.organicMatter)
  {
    (if rd.organicMatter > 0.0 then [(OrganicMatterKey(region), rd.organicMatter)] else [])
    + FixedInputs(rd)
  }

  /** The nine entries that do not depend on the region, in form order. */
  function FixedInputs(rd: Readings): seq<(string, real)>
  {
      [ ("碱解氮 ppm", rd.nitrogen),
        ("有效磷 ppm", rd.phosphorus),
        ("速效钾 ppm", rd.potassium),
        ("铁 Fe (mg/kg)", rd.iron),
        ("锰 Mn (mg/kg)", rd.manganese),
        ("铜 Cu (mg/kg)", rd.copper),
        ("锌 Zn (mg/kg)", rd.zinc),
        ("硼 B (mg/kg)", rd.boron),
        ("钼 Mo (mg/kg)", rd.molybdenum) ]
  }

  /** The entries whose reading is strictly positive, in their original order. */
  function PositiveOnly(inputs: seq<(string, real)>): (r: seq<(string, real)>)
    ensures |r| <= |inputs|
    ensures forall e :: e in r <==> e in inputs && e.1 > 0.0
  {
    if inputs == [] then []
    else
      (if inputs[0].1 > 0.0 then [inputs[0]] else []) + PositiveOnly(inputs[1..])
  }

  /** The form's entries as passed to the report builder: every reading is present. */
  function AsMeasurements(inputs: seq<(string, real)>): seq<Measurement>
  {
    seq(|inputs|, i requires 0 <= i < |inputs| => (inputs[i].0, Some(inputs[i].1)))
  }

  /**
   * The report for one press of the assess button: one row per positive
   * reading of the form, each graded from the table with the status of its
   * grade.
   */
  function Assessment(region: Region, rd: Readings): (rows: seq<Record>)
    ensures |rows| == |PositiveOnly(FormInputs(region, rd))|
    ensures forall r :: r in rows ==> Consistent(r)
  {
    var valid := PositiveOnly(FormInputs(region, rd));
    var ms := AsMeasurements(valid);
    assert forall k :: 0 <= k < |valid| ==> valid[k] in valid;
    assert AllGraded(ms);
    ReportLength(ms);
    ReportConsistent(ms);
    Report(ms)
  }

  /** Filtering a concatenation filters each part: the order of the kept entries is unchanged. */
  lemma {:induction false} PositiveOnlyAppend(a: seq<(string, real)>, b: seq<(string, real)>)
    ensures PositiveOnly(a + b) == PositiveOnly(a) + PositiveOnly(b)
  {
    if a != [] {
      assert (a + b)[1..] == a[1..] + b;
      PositiveOnlyAppend(a[1..], b);
    } else {
      assert a + b == b;
    }
  }

  /** A kept entry at the front of the input stays at the front of the filtered list. */
  lemma PositiveOnlyHead(x: (string, real), rest: seq<(string, real)>)
    requires x.1 > 0.0
    ensures PositiveOnly([x] + rest) == [x] + PositiveOnly(rest)
  {
    assert ([x] + rest)[0] == x && ([x] + rest)[1..] == rest;
  }

  /** None of the region-independent keys is an organic-matter key. */
  lemma FixedKeysNotOrganicMatter(rd: Readings)
    ensures forall e :: e in FixedInputs(rd) ==>
      e.0 != OrganicMatterKey(North) && e.0 != OrganicMatterKey(South)
  {
    var north, south := OrganicMatterKey(North), OrganicMatterKey(South);
    assert north[1] == '机' && south[1] == '机';
    forall e | e in FixedInputs(rd)
      ensures |e.0| > 1 && e.0[1] != '机'
    {
    }
  }

  /**
   * Every positive reading of the form gets exactly one row, in form order,
   * carrying its key and reading unchanged; a zero reading gets none.
   */
  lemma AssessmentRows(region: Region, rd: Readings)
    ensures var valid := PositiveOnly(FormInputs(region, rd));
      && |Assessment(region, rd)| == |valid|
      && forall k :: 0 <= k < |valid| ==>
           && Assessment(region, rd)[k].item == valid[k].0
           && Assessment(region, rd)[k].value == valid[k].1
           && Assessment(region, rd)[k].value > 0.0
  {
    var valid := PositiveOnly(FormInputs(region, rd));
    var ms := AsMeasurements(valid);
    assert forall k :: 0 <= k < |valid| ==> valid[k] in valid;
    assert AllGraded(ms);
    ReportAllGraded(ms);
  }

  /** A positive organic-matter reading is graded first, on the scale of the chosen region. */
  lemma OrganicMatterFirst(region: Region, rd: Readings)
    requires rd.organicMatter > 0.0
    ensures |Assessment(region, rd)| > 0
    ensures Assessment(region, rd)[0] == Assess(OrganicMatterKey(region), rd.organicMatter)
  {
    var key := OrganicMatterKey(region);
    var inputs := FormInputs(region, rd);
    assert inputs[0] == (key, rd.organicMatter);
    assert inputs == [inputs[0]] + inputs[1..];
    PositiveOnlyHead(inputs[0], inputs[1..]);
    var ms := AsMeasurements(PositiveOnly(inputs));
    assert ms[0] == (key, Some(rd.organicMatter));
    ReportHead(ms);
  }

  /** A zero organic-matter reading yields no organic-matter row for either region. */
  lemma NoOrganicMatterWhenZero(region: Region, rd: Readings)
    requires rd.organicMatter <= 0.0
    ensures forall r :: r in Assessment(region, rd) ==>
      r.item != OrganicMatterKey(North) && r.item != OrganicMatterKey(South)
  {
    var inputs := FormInputs(region, rd);
    var valid := PositiveOnly(inputs);
    var north, south := OrganicMatterKey(North), OrganicMatterKey(South);
    assert inputs == [] + FixedInputs(rd);
    FixedKeysNotOrganicMatter(rd);
    AssessmentRows(region, rd);
    forall r | r in Assessment(region, rd)
      ensures r.item != north && r.item != south
    {
      var k :| 0 <= k < |Assessment(region, rd)| && Assessment(region, rd)[k] == r;
      assert valid[k] in inputs;
    }
  }
}
