# clinflow data core in Dafny

This project models the data core of clinflow, a heart-disease data pipeline.
The core has three parts:

- **`clean_data`** drops incomplete rows under the `"drop"` strategy. It then
  coerces each configured numerical column to numbers, logging how many cells
  became missing. Last, it adds a binary `target` column: 1 where the severity
  column is greater than 0, and 0 elsewhere.
- **`validate_data`** is a read-only gate of seven checks, run in a fixed order.
  It fails at the first violated check. The checks are: no missing cell,
  numeric numerical columns, numeric categorical columns, a `target` column
  present, `target` binary, configured ranges, and a row-count floor.
- **`build_where_clause`** turns a preset filter specification into a
  parameterised SQL `WHERE` clause and its parameter list. The preset table
  `QUERY_SPECS` and the dispatch of `query_patients` choose which query runs.

How the pieces map to Dafny:

- A pandas DataFrame is a `Frames.Table` value. It has ordered, distinct column
  names, a map from name to column, and a shared row count.
- A cell is `Missing`, `Num(x)` or `Text(s)`.
- `clean_data` rebinds and updates a frame in place. It is therefore modelled
  by methods over the class `Frames.Frame`. Each method is proved against a
  pure specification function: `Cleaning.Clean`, `Cleaning.Transform` or
  `Cleaning.Coerce`.
- `validate_data` is the pure function `Validation.Validate`. It is related by
  lemmas to seven independent predicates, `Validation.Check(1..7)`.
- `build_where_clause` is the loop method `Query.BuildWhereClause`. It is
  proved against `Query.WhereClause` and `Query.WhereParams`.

Python exceptions are modelled as error values:

- A `KeyError` on an absent column is `ColumnNotFound`.
- A `TypeError` from comparing a text cell with a number is `NotComparable` in
  cleaning and `Uncomparable` in validation.
- Each `ValueError` of `validate_data` is a `ValidationError` kind.

Where the code and its own documentation disagree, the model follows the code:

- `clean_data`'s docstring (`src/clinflow/data/clean.py:30-34`) lists logging
  as its only side effect, so the caller's frame should not change. The code
  copies only on the `"drop"` path (see Findings).
- `validate_data`'s docstring (`src/clinflow/data/clean.py:98-105`) promises a
  `ValueError` for values outside a range. Comparing a text cell with a range
  bound raises `TypeError` instead. The model gives it its own error kind,
  `Uncomparable`.
- No categorical encoding happens in `clean_data`; the docstring of
  `validate_data` (`src/clinflow/data/clean.py:122-124`) expects categorical
  columns to arrive already numeric. The model has no encoding step either.

## Model

| member | source | states |
|---|---|---|
| Frames.WithColumn | src/clinflow/data/clean.py:64 | `df[name] = values` keeps the frame well formed and its row count; the column set gains `name` |
| Frames.CountMissingZero | src/clinflow/data/clean.py:130 | a column's null count is 0 exactly when none of its cells is missing |
| Frames.DropMissing | src/clinflow/data/clean.py:59 | dropna keeps the column names, their order and the column set |
| Frames.DropMissingSpec | src/clinflow/data/clean.py:59 | dropna keeps exactly the rows with no missing cell, in their original order, with their cells unchanged; no kept cell is missing; the row count never grows |
| Frames.DropMissingIdempotent | src/clinflow/data/clean.py:59 | dropping a second time changes nothing |
| Frames.Frame.Assign | src/clinflow/data/clean.py:64 | column assignment updates the frame in place to the overwritten-or-appended table |
| Frames.Frame.Copy | src/clinflow/data/clean.py:59 | `.copy()` is a fresh frame with equal contents |
| Frames.Frame.DropNa | src/clinflow/data/clean.py:59 | `dropna().copy()` is a fresh frame holding the complete rows |
| Cleaning.DropStep | src/clinflow/data/clean.py:58-59 | the missing-value step keeps the columns; only "drop" changes anything |
| Cleaning.ToNumericColumnSpec | src/clinflow/data/clean.py:64 | coercion yields only numbers and missing cells; it keeps numbers and missing cells; rejected text becomes missing; the null count never decreases; coercing twice equals coercing once |
| Cleaning.ToNumeric | src/clinflow/data/clean.py:64 | one cell of `pd.to_numeric(errors="coerce")`: never text; numbers kept; missing exactly when missing before or text the parse rejects |
| Cleaning.ToNumericColumn | src/clinflow/data/clean.py:64 | the coerced column, one cell per input cell; `ToNumericColumnSpec` proves its properties |
| Cleaning.WarningFor | src/clinflow/data/clean.py:65-69 | at most one warning, present exactly when `after_nulls > before_nulls`, naming the column with `after_nulls - before_nulls` |
| Cleaning.Coerce | src/clinflow/data/clean.py:62-69 | the coercion loop leaves a well-formed frame |
| Cleaning.CoerceShape | src/clinflow/data/clean.py:62-69 | coercion keeps the column names, their order and the row count |
| Cleaning.CoerceCompletes | src/clinflow/data/clean.py:62-64 | the loop completes exactly when every configured name is a column |
| Cleaning.CoerceFailure | src/clinflow/data/clean.py:62-64 | a failed loop reports the first configured name that is not a column |
| Cleaning.CoerceColumns | src/clinflow/data/clean.py:62-64 | after the loop, each configured column holds its coerced cells and every other column is untouched |
| Cleaning.CoerceLogSound | src/clinflow/data/clean.py:63-69 | each warning names a configured column and carries its positive `after_nulls - before_nulls` |
| Cleaning.CoerceLogComplete | src/clinflow/data/clean.py:63-69 | every configured column that gained missing cells gets a warning |
| Cleaning.Binarize | src/clinflow/data/clean.py:77 | the 0/1 column has one cell per row, or the comparison fails on text |
| Cleaning.Transform | src/clinflow/data/clean.py:61-77 | coercion plus target assignment leave a well-formed frame |
| Cleaning.Clean | src/clinflow/data/clean.py:57-79 | the three steps leave a well-formed frame |
| Cleaning.CleanRowCount | src/clinflow/data/clean.py:58-64 | only the drop step removes rows; other strategies keep every row |
| Cleaning.CleanSucceedsIff | src/clinflow/data/clean.py:62-77 | cleaning succeeds exactly when every configured column and the severity column exist and the coerced severity holds no text; each error names the offending column |
| Cleaning.CleanColumns | src/clinflow/data/clean.py:62-77 | the input columns stay in place, numerical ones coerced and the rest (severity included) unchanged; `target` is added last unless present |
| Cleaning.CleanTarget | src/clinflow/data/clean.py:75-77 | `target` is 1 exactly where the coerced severity is greater than 0, else 0, so 0 where the severity is missing |
| Cleaning.CoerceInPlace | src/clinflow/data/clean.py:62-69 | the in-place loop leaves the frame and log that `Coerce` specifies |
| Cleaning.TransformInPlace | src/clinflow/data/clean.py:61-77 | coercion and target assignment in place give the state that `Transform` specifies |
| Cleaning.CleanData | src/clinflow/data/clean.py:8-79 | clean_data as written: the result is `Clean` of the input; "drop" returns a fresh frame and leaves the caller's alone; any other strategy returns the caller's own frame, updated |
| Cleaning.CallerFrameMutated | src/clinflow/data/clean.py:58-77 | under strategy "keep", the caller's frame itself gains a `target` column |
| Cleaning.CleanDataCopy | src/clinflow/data/clean.py:58-59 | corrected clean_data: always a fresh frame holding `Clean` of the input, whose frame is left unchanged |
| Validation.TotalMissing | src/clinflow/data/clean.py:130 | `df.isnull().sum().sum()`: 0 exactly when no listed column holds a missing cell; `TotalMissingZero` states it over the whole table |
| Validation.FirstNonNumeric | src/clinflow/data/clean.py:135-148 | the type loop: a reported column is configured, present and holds text; `FirstNonNumericSpec` proves it is the first one and that none means all are numeric |
| Validation.FirstRangeError | src/clinflow/data/clean.py:163-169 | the range loop: a reported error names a present column, as a TypeError exactly when that column holds text; `FirstRangeErrorSpec` proves it is the first offender |
| Validation.Validate | src/clinflow/data/clean.py:129-178 | validate_data: a missing-values error carries a positive count, a row error has rows below the floor, a pass has no missing cell, a `target` column and enough rows; `ValidatePassIff`, `ValidateFailsAtFirstViolation` and `ValidateReportsFirstViolation` relate it to the seven checks |
| Validation.SumMissingZero | src/clinflow/data/clean.py:130 | summed null counts are 0 exactly when the listed columns have no missing cell |
| Validation.TotalMissingZero | src/clinflow/data/clean.py:130-131 | `df.isnull().sum().sum()` is 0 exactly when no cell is missing |
| Validation.FirstNonNumericSpec | src/clinflow/data/clean.py:135-148 | the type loop finds nothing exactly when every present listed column is numeric; otherwise it reports the first present column holding text |
| Validation.FirstRangeErrorSpec | src/clinflow/data/clean.py:163-169 | the range loop finds nothing exactly when every present configured column lies in its bounds; otherwise it reports the first offender, as TypeError on text or as out of range |
| Validation.ValidatePassIff | src/clinflow/data/clean.py:129-178 | validation passes exactly when all seven conditions hold |
| Validation.ValidateFailsAtFirstViolation | src/clinflow/data/clean.py:129-178 | a failure names a violated check, and every earlier check holds |
| Validation.ValidateReportsFirstViolation | src/clinflow/data/clean.py:129-178 | the first violated check is the one reported |
| Validation.ValidateErrorDetails | src/clinflow/data/clean.py:129-177 | each error carries the missing count, the first offending configured column, or the row count against the floor |
| Validation.MissingValuesReportedFirst | src/clinflow/data/clean.py:129-131 | a table with a missing cell fails with the missing count, whatever else is wrong |
| Validation.TooFewRowsFailsLast | src/clinflow/data/clean.py:172-177 | a table that passes checks 1-6 with too few rows fails at the row floor |
| Validation.FirstNonNumericPresent | src/clinflow/data/clean.py:135-148 | the type loops skip configured names the table lacks |
| Validation.FirstRangeErrorPresent | src/clinflow/data/clean.py:163-169 | the range loop skips configured columns the table lacks |
| Validation.AbsentColumnsIgnored | src/clinflow/data/clean.py:135-169 | removing every configured column the table lacks leaves the verdict unchanged |
| Validation.CleanedTablePassesTargetChecks | src/clinflow/data/clean.py:152-158 | a successfully cleaned table always passes the `target` presence and binary checks |
| Validation.WithColumnCompleteness | src/clinflow/data/clean.py:77 | assigning a column with no missing cell to a complete frame keeps it complete; a missing cell elsewhere survives |
| Validation.DroppedTableComplete | src/clinflow/data/clean.py:59 | after dropna no cell is missing |
| Validation.CoerceCompleteUnlessWarned | src/clinflow/data/clean.py:62-69 | coercing a complete frame leaves it complete when nothing is logged; each warned column then holds a missing cell |
| Validation.DroppedTableCompleteUnlessCoerced | src/clinflow/data/clean.py:58-69 | under "drop", the cleaned table passes the missing-value check when no coercion warning was logged, and fails it when a warning names a column other than `target` |
| Query.Conditions | src/clinflow/data/query.py:55-64 | the conditions the loop emits, column by column, at most three per column; `ConditionsAppend` and `ConditionsMembership` prove their order and contents |
| Query.WhereClause | src/clinflow/data/query.py:65 | the joined clause text; `PlaceholderCount` and `ClauseIgnoresValues` prove its properties |
| Query.WhereParams | src/clinflow/data/query.py:53-65 | the parameter list, at most three per column; `PlaceholderCount` matches it to the placeholders |
| Query.BuildWhereClause | src/clinflow/data/query.py:51-65 | the loop returns the `" AND "`-joined rendered conditions and their parameters, in visiting order |
| Query.ConditionsAppend | src/clinflow/data/query.py:55-64 | conditions are emitted column by column in spec order: a concatenated spec gives the concatenated conditions |
| Query.RuleConditionsMembership | src/clinflow/data/query.py:56-64 | a column emits a condition exactly for each rule it holds |
| Query.ConditionsMembership | src/clinflow/data/query.py:55-64 | a condition is in the clause exactly when some column of the spec holds that rule with that parameter |
| Query.NoRulesNoConditions | src/clinflow/data/query.py:51-65 | a spec without min, max or equals rules (the empty spec included) yields an empty clause and no parameters |
| Query.RenderOnePlaceholder | src/clinflow/data/query.py:57-63 | a rendered condition on a `?`-free column holds exactly one placeholder |
| Query.JoinPlaceholders | src/clinflow/data/query.py:65 | joining with `" AND "` adds no placeholder |
| Query.PlaceholderCount | src/clinflow/data/query.py:51-65 | with `?`-free column names, the clause has exactly one placeholder per parameter |
| Query.RuleRendering | src/clinflow/data/query.py:56-64 | a column's rendered text depends only on which rules it holds, not on their values |
| Query.SameShapeRendering | src/clinflow/data/query.py:55-64 | specs with the same columns and rule kinds render the same condition texts |
| Query.ClauseIgnoresValues | src/clinflow/data/query.py:51-65 | parameter values never reach the clause text: specs differing only in values give the same clause |
| Query.ConditionHasNoSeparator | src/clinflow/data/query.py:57-63 | a condition on an identifier column never contains the `" AND "` separator |
| Query.QuerySpecs | src/clinflow/data/query.py:9-21 | the three presets and their rules; `HighRiskSeniorsClause`, `YoungWithHighCholClause`, `ExerciseInducedAnginaQuery` and `PresetColumnsPlain` state what they build |
| Query.PresetQuery | src/clinflow/data/query.py:32-44 | a known preset runs the base query with its clause and parameters; any other name runs the base query alone; a warning is logged exactly for unknown names other than "all" |
| Query.HighRiskSeniorsClause | src/clinflow/data/query.py:10-13 | `high_risk_seniors` builds `age >= ? AND target = ?` with `[60, 1]` |
| Query.HighRiskSeniorsQuery | src/clinflow/data/query.py:32-35 | the `high_risk_seniors` query is the base query filtered by that clause, without warning |
| Query.YoungWithHighCholClause | src/clinflow/data/query.py:14-17 | `young_with_high_chol` builds `age <= ? AND chol >= ?` with `[40, 200]` |
| Query.YoungWithHighCholQuery | src/clinflow/data/query.py:32-35 | the `young_with_high_chol` query is the base query filtered by that clause, without warning |
| Query.ExerciseInducedAnginaQuery | src/clinflow/data/query.py:18-20 | `exercise_induced_angina` runs `... WHERE exang = ?` with `[1]`, without warning |
| Query.PresetColumnsPlain | src/clinflow/data/query.py:9-21 | every preset filters on identifier columns only |
| Query.PresetPlaceholders | src/clinflow/data/query.py:32-44 | every query, preset or fallback, binds exactly one parameter per placeholder |
| Query.FilteredQueryPlaceholders | src/clinflow/data/query.py:35 | a filtered query over identifier columns binds exactly one parameter per placeholder |

## Left out

- Logging: every `logger` call is left out. The coercion warnings are modelled as a returned log, without their text.
- pandas' text-to-number grammar: `pd.to_numeric` parses text with rules that are not part of this model. The parse is a parameter `Parser`; only its shape (number or rejected) matters to the proofs.
- pandas dtype inference: `is_numeric_dtype` is modelled as "no cell holds text". Boolean columns, all-missing object columns and other dtype subtleties are not modelled.
- Integer and float distinction: `target` values 0 and 1 are `Num(0.0)` and `Num(1.0)`, and `isin([0, 1])` compares by value.
- Error message text: the `ValueError`, `KeyError` and `TypeError` messages are not modelled; errors carry only their kind and the column or counts.
- Configuration keys that are absent raise `KeyError` in the code. The configuration is a record with every key present, so this path is not modelled.
- `reasonable_ranges` is a dict, so it cannot repeat a column. The model's sequence of ranges allows repeats, which only makes the lemmas more general.
- `Frames.Value`: a number cell `Num(x)` holds an exact real, not a float64. Infinities (which `pd.to_numeric` produces from text such as "inf" or "1e400"), NaN as a number, and float rounding are not modelled; the `Parser` can only map such text to a real or to missing.
- `Query.FilterSpec` is a sequence of (column, rules) pairs, so it can repeat a column, which a Python dict cannot. Repeats only make the query lemmas more general.
- Duplicate column names in a DataFrame are not modelled: names are distinct.
- Query parameters are integers, as in every preset. Values of other types are not modelled.
- `query_patients`'s sqlite connection, `pd.read_sql_query` and the returned rows are left out (I/O). The model stops at the SQL text, the parameters and the warning flag.
- The `main` functions of `clean.py` and `query.py` (CSV writing, config loading, list-presets printing) are I/O and are left out.
- The rest of the repository (loading, download, sqlite export, training, model I/O, pipeline, EDA CLI) is not part of this model.

## Findings

| source | as written | input that shows it | evidently intended | confidence | as-written member | corrected member |
|---|---|---|---|---|---|---|
| src/clinflow/data/clean.py:58-77 | only the `"drop"` branch rebinds `df` to a copy; under any other strategy `df[name] = ...` and `df["target"] = ...` update the caller's own DataFrame | strategy `"keep"`, a one-row frame with column `num` = 2.0, target column `num`: the caller's frame gains `target` | cleaning returns an independent table and never mutates its input | not executed | Cleaning.CallerFrameMutated | Cleaning.CleanDataCopy |
