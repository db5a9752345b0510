# Healthcare ETL core in Dafny

This project models the validate-then-transform core of a daily healthcare
ETL pipeline (`dags/etl_script.py`). The model has two stages.

* **Validation** (`validate_data`) is a fail-fast gate over the extracted
  table. It checks three rules in a fixed order:
  1. every age lies in [0, 120];
  2. no gender is missing;
  3. no admission or discharge date is missing.

  It stops the run with the first rule broken. Otherwise it hands the table
  on untouched.
* **Transformation** (`transform_data`) works in these steps:
  1. drop every row with a missing cell in any column;
  2. capitalize gender and medical condition;
  3. add the length of stay, the age group and the numeric readmission flag;
  4. summarise the surviving rows in three KPIs: average stay, readmission
     rate in percent, and record count.

Both stages pass an absent table on as an absent result and raise nothing.

A row is a datatype whose cells are all `Option`s. Dates are already-parsed
day numbers. A sequence of further cells stands for the columns the stages
never read. These cells still matter to the complete-case drop. A table is a
`seq<Row>`. A raised `ValueError` becomes `Failure(v)` of a `Result`, where
`v` names the rule that was broken. A NaN mean becomes `None`.

Modules:

| file | module | models |
|---|---|---|
| wrappers.dfy | `Wrappers` | `Option` and `Result` |
| series.dfy | `Series` | the column reductions: `isnull().any()`, `between().all()`, and `mean()` skipping missing cells |
| rows.dfy | `Rows` | rows, tables, completeness, columns |
| text.dfy | `Text` | ASCII `str.capitalize` |
| validator.dfy | `Validator` | `validate_data` |
| features.dfy | `Features` | length of stay, `pd.cut(..., right=False)`, age groups, the Yes/No map |
| transformer.dfy | `Transformer` | `transform_data` and its KPIs |
| examples.dfy | `Scenarios` | two worked tables |

The model follows the code in two places where one might expect otherwise:

* The age bins are `[0,18) [18,35) [35,60) [60,120)`, closed on the left.
  So age 120 passes validation but gets **no** age group, although the
  label of the last bin is "60+". `Features.AgeGroupOf` and
  `Transformer.ValidatedRowsHaveGroupsBelowMax` state this behaviour.
* A readmission status other than exactly "Yes" or "No" maps to a missing
  flag. The mean skips missing flags, so such rows leave the rate's
  denominator. They do **not** count as 0.

## Model

| member | source | states |
|---|---|---|
| Series.AnyNull | dags/etl_script.py:29-31 | a column "has a null" exactly when some cell of it is missing |
| Series.AllBetween | dags/etl_script.py:27 | `between(0,120).all()` holds exactly when every cell is present and in range, both ends included; a missing age fails |
| Series.Count | dags/etl_script.py:61-62 | the number of present cells is at most the column length, and is zero exactly when every cell is missing |
| Series.CountIsPresentCells | dags/etl_script.py:61-62 | the count `mean()` divides by is the column length less the number of missing cells |
| Series.SumCountSplit | dags/etl_script.py:61-62 | the total and the count of present cells are additive over concatenation, which with their one-cell values fixes both |
| Series.Mean | dags/etl_script.py:61-62 | the mean is absent (NaN) exactly when no cell is present; otherwise mean times the number of present cells equals their total |
| Series.SumWithin | dags/etl_script.py:62 | when every present cell lies in [lo, hi], their total lies between lo and hi times their number |
| Series.MeanWithin | dags/etl_script.py:62 | a mean of values in [lo, hi] lies in [lo, hi] |
| Text.Capitalize | dags/etl_script.py:50-51 | capitalizing keeps the length, upper-cases the first character and lower-cases every later one |
| Text.CapitalizeShape | dags/etl_script.py:50-51 | the result is capitalized and differs from the input only in letter case, which fixes it uniquely |
| Text.CapitalizeFixedPoints | dags/etl_script.py:50-51 | capitalizing leaves a string unchanged exactly when it is already capitalized |
| Text.CapitalizeIdempotent | dags/etl_script.py:50-51 | capitalizing twice equals capitalizing once |
| Validator.Validate | dags/etl_script.py:21-35 | an absent table passes as absent without error; each error is reported exactly when its rule is the first one, in the order age, gender, dates, that some row breaks; on success the table comes back unchanged |
| Validator.MessageIdentifiesRule | dags/etl_script.py:28-32 | distinct rules raise distinct error texts, so the text identifies the rule |
| Validator.ValidatePassesIffEveryRowValid | dags/etl_script.py:27-35 | a table passes exactly when every row has an age in [0,120], a gender, and both dates |
| Features.LengthOfStay | dags/etl_script.py:54 | a stay exists exactly when both dates do; admission plus stay is discharge; the stay is negative exactly when discharge precedes admission |
| Features.Cut | dags/etl_script.py:57 | left-closed binning returns the unique bin holding the value, and none exactly when the value is below the first edge or at or above the last |
| Features.AgeGroupOf | dags/etl_script.py:55-57 | ages [0,18), [18,35), [35,60) and [60,120) get the labels "0-18", "19-35", "36-60" and "60+", each in both directions; a missing age, an age below 0, and an age of 120 or more get no group |
| Features.LabelsDistinct | dags/etl_script.py:56 | the four groups carry four distinct labels |
| Features.Readmitted | dags/etl_script.py:60 | "Yes" gives 1, "No" gives 0, and every other or missing status gives a missing flag, each in both directions |
| Transformer.DropIncomplete | dags/etl_script.py:49 | every surviving row has no missing cell, and the survivors number exactly the complete rows, at most the input length |
| Transformer.DropIncompleteKeepsCompleteRows | dags/etl_script.py:49 | each complete row survives as often as it occurs, and no incomplete row survives |
| Transformer.DropIncompleteKeepsOrder | dags/etl_script.py:49 | the survivors keep their original relative order |
| Transformer.DropIncompleteIdentity | dags/etl_script.py:49 | the drop changes a table exactly when some row has a missing cell |
| Transformer.DropSingleIncomplete | dags/etl_script.py:49 | when exactly one row is incomplete, the result is the input without that row |
| Transformer.CapitalizeCell | dags/etl_script.py:50-51 | a missing cell stays missing; a present one becomes capitalized with only its letter case changed |
| Transformer.Normalize | dags/etl_script.py:50-51 | only gender and medical condition change, and only in letter case, into capitalized form; no other field changes |
| Transformer.NormalizeIdempotent | dags/etl_script.py:50-51 | normalizing twice equals normalizing once, and it neither creates nor removes a missing cell |
| Transformer.Enrich | dags/etl_script.py:54-60 | the row itself is kept; a stay exists exactly when both dates do and adds to admission to give discharge; a missing age gives no group; a flag exists exactly for "Yes" or "No" and is 1 exactly for "Yes" |
| Transformer.Prepare | dags/etl_script.py:50-60 | each surviving row, in order, is normalized and then given its derived columns |
| Transformer.Transform | dags/etl_script.py:39-71 | an absent table gives an absent result; otherwise one complete row out per complete row in, the record count equals their number (at most the input length), and every row has a stay |
| Transformer.TransformRows | dags/etl_script.py:49-60 | each output row is the normalized surviving row with stay equal to discharge minus admission, the age group of its age and the flag of its status |
| Transformer.StaysOfComplete | dags/etl_script.py:61 | over complete rows the stay column has no missing cell and totals the day differences |
| Transformer.FlagsCountStatuses | dags/etl_script.py:60-62 | the flag column totals the "Yes" rows and counts the "Yes" and "No" rows |
| Transformer.FlagsAreBits | dags/etl_script.py:60 | every present flag of an enriched table is 0 or 1 |
| Transformer.RateWithin | dags/etl_script.py:62 | a percentage of the mean of 0/1 flags lies in [0, 100] |
| Transformer.Summarize | dags/etl_script.py:61-68 | the record count is the row count; each mean is present exactly when some row has a value in its column; with 0/1 flags the rate lies in [0, 100] |
| Transformer.AverageStayIsTotalOverCount | dags/etl_script.py:61 | the average stay is the surviving rows' total day difference over their number, absent when none survive |
| Transformer.RateOfYesAndNo | dags/etl_script.py:60-62 | the percentage of the flag mean equals 100 times "Yes" over "Yes" plus "No", in [0, 100] |
| Transformer.ReadmissionRateIsYesShare | dags/etl_script.py:60-66 | the readmission rate equals 100 times "Yes" over "Yes" plus "No" among surviving rows, lies in [0, 100], and is absent when no surviving row says "Yes" or "No" |
| Transformer.CompleteTableMetrics | dags/etl_script.py:64-68 | on a table with no missing cells, the KPIs are the average day difference, the Yes share and the row count |
| Transformer.ValidatedRowsHaveGroupsBelowMax | dags/etl_script.py:27-57 | after validation, every surviving age is in [0,120] and lacks a group exactly when it is 120 |
| Scenarios.ThirdOfFiveDropped | dags/etl_script.py:49-67 | five rows with the third incomplete leave four rows, in order, and a record count of 4 |
| Scenarios.KpiExample | dags/etl_script.py:61-67 | stays 2, 4, 6 and statuses Yes, No, Yes give average 4, rate 200/3 percent and count 3 |

## Left out

- `extract_data` (dags/etl_script.py:7-17) reads a CSV file. The model takes the table, or `None` for a missing file, as the stage input.
- `load_to_s3` (dags/etl_script.py:75-106) does object-storage I/O, CSV and JSON serialisation, and builds keys from the wall clock. None of that is modelled.
- dags/healthcare_etl_dag.py only does scheduling and task wiring. It also calls `validate_data` without importing it, which is an orchestration defect outside this model.
- Date parsing with `pd.to_datetime` (dags/etl_script.py:47-48) is not modelled. Dates are day numbers, so `.dt.days` of a time-of-day difference is not modelled either.
- Transformer.Transform: the KPIs are exact reals. `round(x, 2)` (dags/etl_script.py:65-66) is not applied, because floating-point rounding is outside the model. So the rate is 200/3, not 66.67.
- Transformer.Transform: the source raises `AttributeError` from `.str.capitalize()` when, after the drop, the gender or medical-condition column holds no string at all. That happens when every such cell was missing, because the column is then read as floats. The model keeps cells typed as strings and returns an empty result with absent means instead. Column types are outside the model.
- Transformer.AverageStayIsTotalOverCount: a NaN mean over zero rows is stated as `None`, not as a float NaN.
- Text.Capitalize: only ASCII letters change case. Full Unicode case mapping and title case are not modelled.
- Logging calls and the in-place mutation of the dataframe are not modelled. Every stage is a pure function of its input.
- Ages are integers. A fractional age, or a non-string cell in the gender or condition column, is not modelled.
- The age group is a datatype with a `Label` function, not a pandas categorical column.
