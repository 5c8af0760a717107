# Cotton soil-nutrient grading, modelled in Dafny

This project models the grading engine of a cotton soil-nutrient expert
system. A reference table gives, for each of eleven soil items, ascending
thresholds and grade labels (six trace elements on a five-level scale;
organic matter for the northern and southern Xinjiang regions, alkali-hydrolysable
nitrogen, available phosphorus and available potassium on a four-level scale).
A reading is graded by right-biased binary search over the thresholds, so a
reading exactly on a boundary gets the grade above it. The grade label's
wording then decides a three-way status: deficient (缺乏), abundant (丰富) or
normal (正常). The report has one row per known, present reading, in input order.

Around that engine the model also covers:

- the form's intake: organic matter is keyed by the chosen region, and a reading
  that is not strictly positive counts as "not measured" and is dropped;
- the advice's list of deficient items, each given by the short name before the
  first space of its item name.

Modules, one file each:

- `Bisect` (`bisect.dfy`): `bisect_right` as the library's lo/hi search. It is
  proved equal to "the number of thresholds at or below the reading" on sorted
  input, with its boundary, extreme and monotonicity properties.
- `SoilRules` (`rules.dfy`): the reference table and its well-formedness, the
  grade lookup with its anomaly fallback, and the status rule. The status rule
  is written as an ordered keyword table and proved equal to the source's inline
  `if`/`elif`.
- `Evaluate` (`evaluate.dfy`): the report loop as a method with a loop. It is
  proved against a filter-map specification `Report`, with lemmas on order,
  length, membership and row consistency.
- `Intake` (`intake.dfy`): the region's organic-matter key, the form's entries in
  insertion order, the positive-value filter and the end-to-end report for one
  form submission.
- `Advice` (`advice.dfy`): the short name and the deficient-name list. The list
  uses its own keyword test on the grade, which is proved to pick exactly the
  rows whose status is deficient.

Readings and thresholds are `real`. The source only compares them and never
does arithmetic on them. A report row's status is the datatype `Status`, and
`StatusText` gives the text the source stores.

The table holds both organic-matter entries side by side, one for each region
(cotton_expert.py:13-14). The region does not change the table: it only picks
which of the two keys the organic-matter reading is filed under
(cotton_expert.py:64). The status text for abundance wording is 丰富
(cotton_expert.py:32).

## Model

| member | source | states |
|---|---|---|
| `Bisect.Search` | cotton_expert.py:26 | each halving step of the right-biased search keeps the insertion point between its lower and upper bound |
| `Bisect.BisectRight` | cotton_expert.py:26 | the insertion point is never past the end of the threshold list |
| `Bisect.BisectRightSplits` | cotton_expert.py:26 | on sorted thresholds every threshold left of the index is at most the reading and every threshold from the index on is above it |
| `Bisect.BisectRightIsCount` | cotton_expert.py:26 | on sorted thresholds the index is the number of thresholds at or below the reading |
| `Bisect.BoundaryGoesUp` | cotton_expert.py:26 | a reading equal to boundary k gets index k + 1, never k |
| `Bisect.BisectRightExtremes` | cotton_expert.py:26 | below the first threshold the index is 0; at or above the last it is the number of thresholds |
| `Bisect.BisectRightMonotone` | cotton_expert.py:26 | a larger reading never gets a smaller index |
| `SoilRules.GradeOf` | cotton_expert.py:25-27 | on a well-formed entry the grade is the label indexed by the count of thresholds at or below the reading |
| `SoilRules.RulesWellFormed` | cotton_expert.py:6-18 | every table entry has strictly ascending thresholds and exactly one label more than thresholds |
| `SoilRules.GradeNeverAnomalous` | cotton_expert.py:27 | for every registered item the grade is one of its labels, never the anomaly label 异常 |
| `SoilRules.GradeAtBoundary` | cotton_expert.py:26-27 | a reading exactly on boundary k gets label k + 1, the grade above the boundary |
| `SoilRules.GradeExtremes` | cotton_expert.py:26-27 | below the lowest threshold the grade is the first label; at or above the highest it is the last label |
| `SoilRules.StatusOf` | cotton_expert.py:30-32 | a label is deficient exactly when it contains 缺 or 低; abundant exactly when it contains neither but contains 丰 or 高; normal exactly when it contains none of the four |
| `SoilRules.FirstMatchKeywords` | cotton_expert.py:30-32 | scanning the ordered keyword table gives deficient exactly when the label has 缺 or 低; abundant exactly when it has neither but has 丰 or 高; normal exactly when it has none of the four |
| `SoilRules.StatusTextDistinct` | cotton_expert.py:30-32 | the three status texts are pairwise different |
| `SoilRules.GradeStatusByIndex` | cotton_expert.py:7-17 | on every scale of the table the two lowest labels are deficient, the third normal and the rest abundant |
| `SoilRules.StatusByThresholds` | cotton_expert.py:25-32 | for every registered item a reading is deficient exactly below the second threshold, abundant exactly from the third on, normal in between |
| `SoilRules.PhosphorusExamples` | cotton_expert.py:16 | available phosphorus 5.0 grades 极低 and is deficient; 13.0, on a boundary, grades 中 and is normal |
| `Evaluate.Assess` | cotton_expert.py:25-38 | the row for a registered item keeps the item and the reading, its grade is one of the item's labels and never 异常, and its status is that of its grade |
| `Evaluate.EvaluateSoil` | cotton_expert.py:20-40 | the loop returns exactly the filter-map report of its input, no longer than the input, each row graded from the table with the status of its grade |
| `Evaluate.ReportAppend` | cotton_expert.py:22 | the report of two concatenated inputs is the concatenation of their reports, so input order is kept |
| `Evaluate.ReportLength` | cotton_expert.py:21-40 | the report has at most one row per entry, and as many rows as entries exactly when every entry is known and present |
| `Evaluate.ReportConsistent` | cotton_expert.py:25-38 | every row is for a registered item, its grade is that item's grade of its reading, and its status is the status of its grade |
| `Evaluate.ReportRowsFromEntries` | cotton_expert.py:22-39 | every row of the report is the row of some known, present entry |
| `Evaluate.ReportKeepsEntries` | cotton_expert.py:22-39 | the row of every known, present entry is in the report |
| `Evaluate.ReportMembers` | cotton_expert.py:22-39 | a row is in the report exactly when some known, present entry produced it, with that entry's name and reading unchanged |
| `Evaluate.ReportHead` | cotton_expert.py:22-39 | when the first entry is known and present, the first row is its row |
| `Evaluate.ReportAllGraded` | cotton_expert.py:22-39 | when every entry is known and present, row k is the row of entry k |
| `Intake.OrganicMatterKey` | cotton_expert.py:62-64 | for either region the organic-matter key is a table key, and it selects the northern or the southern scale |
| `Intake.FormInputs` | cotton_expert.py:58-76 | the form yields ten entries when the organic-matter reading is positive and nine otherwise, every key is a table key, and a positive organic-matter reading comes first under the region's key |
| `Intake.PositiveOnly` | cotton_expert.py:79 | the kept entries are exactly the input entries with a strictly positive reading |
| `Intake.PositiveOnlyAppend` | cotton_expert.py:79 | the filter keeps the relative order of the entries |
| `Intake.PositiveOnlyHead` | cotton_expert.py:79 | a positive entry at the front of the input stays at the front of the filtered entries |
| `Intake.Assessment` | cotton_expert.py:79-88 | one submission's report has one row per positive entry of the form, each graded from the table with the status of its grade |
| `Intake.AssessmentRows` | cotton_expert.py:79-88 | one submission gives one row per positive reading, in form order, with the reading unchanged and positive |
| `Intake.OrganicMatterFirst` | cotton_expert.py:62-64 | a positive organic-matter reading is the first row and is graded on the chosen region's scale |
| `Intake.NoOrganicMatterWhenZero` | cotton_expert.py:62-64 | a zero organic-matter reading yields no organic-matter row for either region |
| `Advice.ShortName` | cotton_expert.py:110 | the short name is the prefix of the item name up to, not including, its first space, or the whole name if it has no space |
| `Advice.Lacking` | cotton_expert.py:110 | the list has at most one name per row, and a name is listed exactly when some row whose grade contains 缺 or 低 has that short name |
| `Advice.LackingIsDeficient` | cotton_expert.py:110 | on rows whose status comes from their grade, the list names exactly the deficient rows, in report order |
| `Advice.LackingOfReport` | cotton_expert.py:110 | for any input, the list drawn from its report names exactly the report's deficient rows |
| `Advice.LackingAppend` | cotton_expert.py:110 | the list keeps report order and names at most one item per row |
| `Advice.LacksIffBelowSecondThreshold` | cotton_expert.py:110 | a graded row is named exactly when its reading is below the second threshold of its item |

## Left out

- Page setup, widgets, buttons and messages (cotton_expert.py:45-57, 83-87, 89-109, 111-118). These are presentation and I/O; the report call at line 88 is `Intake.Assessment` and the list at line 110 is `Advice.Lacking`. The ten numbers the widgets return are the parameters of `Intake.FormInputs`.
- The table rendering and the `color_status` colouring (cotton_expert.py:89, 95-106). These are display formatting in a library outside the model.
- Deficiency amounts, fertilizer doses, utilization rates and severity multipliers. The source does not compute any of them.
- Floating-point representation. Readings are `real`, since the source only compares them.
- Python dictionary semantics. Inputs are sequences of pairs in insertion order. Re-assigning an existing key, which keeps its place in a dictionary, does not happen in the source.
- The widgets' lower bound of 0. `Readings` admits any real; the zero filter drops every reading at or below 0 either way.
- Substring tests. The source's keywords are single characters, so each substring test is modelled as character membership in the label.
