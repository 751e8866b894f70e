/** `validate_data`: a read-only, fail-fast gate of seven checks in a fixed
    order over a cleaned table. */
module Validation {
  import opened Wrappers
  import opened Frames
  import opened Configuration
  import opened Cleaning

  datatype ValidationError =
    | MissingValues(count: nat)
    | NonNumericColumn(column: string)
    | NonNumericCategorical(column: string)
    | TargetMissing
    | TargetNotBinary
    | OutOfRange(column: string)
      /** comparing a text cell with a bound raises TypeError, not ValueError */
    | Uncomparable(column: string)
    | InsufficientRows(rows: nat, minimum: int)

  datatype Outcome = Pass | Fail(error: ValidationError)

  /** The position, 1 to 7, of the check that raises each error. */
  function Rank(e: ValidationError): nat {
    match e
    case MissingValues(_) => 1
    case NonNumericColumn(_) => 2
    case NonNumericCategorical(_) => 3
    case TargetMissing => 4
    case TargetNotBinary => 5
    case OutOfRange(_) => 6
    case Uncomparable(_) => 6
    case InsufficientRows(_, _) => 7
  }

  // ---------------------------------------------------------------------------
  // The checks as the code performs them

  function SumMissing(t: Table, names: seq<string>): nat {
    if names == [] then 0
    else (if names[0] in t.cols then CountMissing(t.cols[names[0]]) else 0) + SumMissing(t, names[1..])
  }

  /** `df.isnull().sum().sum()` */
  function TotalMissing(t: Table): (r: nat)
    ensures r == 0 <==> forall k, i :: 0 <= k < |t.names| && t.names[k] in t.cols && 0 <= i < |t.cols[t.names[k]]| ==>
      t.cols[t.names[k]][i] != Missing
  {
    SumMissingZero(t, t.names);
    SumMissing(t, t.names)
  }

  /** `pd.api.types.is_numeric_dtype(col)`: no cell holds text. */
  predicate IsNumericColumn(col: seq<Value>) {
    !HasText(col)
  }

  /** The first configured name that is a column without numeric type. */
  function FirstNonNumeric(t: Table, names: seq<string>): (r: Option<string>)
    ensures r.Some? ==> r.value in names && r.value in t.cols && HasText(t.cols[r.value])
  {
    if names == [] then None
    else if names[0] in t.cols && !IsNumericColumn(t.cols[names[0]]) then Some(names[0])
    else FirstNonNumeric(t, names[1..])
  }

  /** `col.isin([0, 1]).all()` */
  predicate TargetIsBinary(col: seq<Value>) {
    forall i :: 0 <= i < |col| ==> col[i] == Num(0.0) || col[i] == Num(1.0)
  }

  /** Neither `(col < min).any()` nor `(col > max).any()`; a missing cell
      compares as false. */
  predicate Within(col: seq<Value>, r: Range) {
    forall i :: 0 <= i < |col| && col[i].Num? ==> r.min <= col[i].x && col[i].x <= r.max
  }

  /** The range loop: the first present column with a text cell or a value
      outside its bounds. */
  function FirstRangeError(t: Table, ranges: seq<Range>): (r: Option<ValidationError>)
    ensures r.Some? ==> (r.value.OutOfRange? || r.value.Uncomparable?) && r.value.column in t.cols
    ensures r.Some? ==> r.value.Uncomparable? == HasText(t.cols[r.value.column])
  {
    if ranges == [] then None
    else
      var range := ranges[0];
      if range.column in t.cols && HasText(t.cols[range.column]) then Some(Uncomparable(range.column))
      else if range.column in t.cols && !Within(t.cols[range.column], range) then Some(OutOfRange(range.column))
      else FirstRangeError(t, ranges[1..])
  }

  /** validate_data: the seven checks in order, stopping at the first failure. */
  function Validate(t: Table, cfg: Config): (r: Outcome)
    ensures r.Fail? && r.error.MissingValues? ==> r.error.count > 0
    ensures r.Fail? && r.error.InsufficientRows? ==> r.error.rows < r.error.minimum
    ensures r.Fail? && r.error.TargetNotBinary? ==> "target" in t.cols
    ensures r.Pass? ==> TotalMissing(t) == 0 && "target" in t.cols && t.height >= cfg.minimumRows
  {
    var missing := TotalMissing(t);
    if missing != 0 then Fail(MissingValues(missing))
    else if FirstNonNumeric(t, cfg.numericalColumnNames).Some? then
      Fail(NonNumericColumn(FirstNonNumeric(t, cfg.numericalColumnNames).value))
    else if FirstNonNumeric(t, cfg.categoricalColumnNames).Some? then
      Fail(NonNumericCategorical(FirstNonNumeric(t, cfg.categoricalColumnNames).value))
    else if "target" !in t.cols then Fail(TargetMissing)
    else if !TargetIsBinary(t.cols["target"]) then Fail(TargetNotBinary)
    else if FirstRangeError(t, cfg.reasonableRanges).Some? then Fail(FirstRangeError(t, cfg.reasonableRanges).value)
    else if t.height < cfg.minimumRows then Fail(InsufficientRows(t.height, cfg.minimumRows))
    else Pass
  }

  // ---------------------------------------------------------------------------
  // The seven conditions, stated independently of the code

  ghost predicate NoMissing(t: Table) {
    forall n, i :: n in t.cols && 0 <= i < |t.cols[n]| ==> t.cols[n][i] != Missing
  }

  ghost predicate ColumnsNumeric(t: Table, names: seq<string>) {
    forall k, i :: 0 <= k < |names| && names[k] in t.cols && 0 <= i < |t.cols[names[k]]| ==>
      !t.cols[names[k]][i].Text?
  }

  ghost predicate InRange(col: seq<Value>, r: Range) {
    forall i :: 0 <= i < |col| ==> col[i].Num? && r.min <= col[i].x <= r.max
  }

  ghost predicate RangesHold(t: Table, ranges: seq<Range>) {
    forall k :: 0 <= k < |ranges| && ranges[k].column in t.cols ==> InRange(t.cols[ranges[k].column], ranges[k])
  }

  /** Check number `k` of the seven, in the order the code runs them. */
  ghost predicate Check(k: nat, t: Table, cfg: Config) {
    if k == 1 then NoMissing(t)
    else if k == 2 then ColumnsNumeric(t, cfg.numericalColumnNames)
    else if k == 3 then ColumnsNumeric(t, cfg.categoricalColumnNames)
    else if k == 4 then "target" in t.cols
    else if k == 5 then "target" in t.cols ==> TargetIsBinary(t.cols["target"])
    else if k == 6 then RangesHold(t, cfg.reasonableRanges)
    else if k == 7 then t.height >= cfg.minimumRows
    else true
  }

  ghost predicate AllChecks(t: Table, cfg: Config) {
    forall k :: 1 <= k <= 7 ==> Check(k, t, cfg)
  }

  // ---------------------------------------------------------------------------
  // Each check agrees with its condition

  lemma {:induction false} SumMissingZero(t: Table, names: seq<string>)
    ensures SumMissing(t, names) == 0 <==>
      forall k, i :: 0 <= k < |names| && names[k] in t.cols && 0 <= i < |t.cols[names[k]]| ==>
        t.cols[names[k]][i] != Missing
  {
    if names != [] {
      SumMissingZero(t, names[1..]);
      if names[0] in t.cols {
        CountMissingZero(t.cols[names[0]]);
      }
      assert forall k :: 1 <= k < |names| ==> names[k] == names[1..][k - 1];
    }
  }

  /** The missing-value count is zero exactly when no cell is missing. */
  lemma TotalMissingZero(t: Table)
    requires WellFormed(t)
    ensures TotalMissing(t) == 0 <==> NoMissing(t)
  {
    SumMissingZero(t, t.names);
    if TotalMissing(t) == 0 {
      forall n, i | n in t.cols && 0 <= i < |t.cols[n]|
        ensures t.cols[n][i] != Missing
      {
        var k :| 0 <= k < |t.names| && t.names[k] == n;
      }
    }
  }

  lemma {:induction false} FirstNonNumericSpec(t: Table, names: seq<string>)
    ensures FirstNonNumeric(t, names).None? <==> ColumnsNumeric(t, names)
    ensures FirstNonNumeric(t, names).Some? ==>
      exists k :: 0 <= k < |names| && names[k] == FirstNonNumeric(t, names).value
        && names[k] in t.cols && HasText(t.cols[names[k]]) && ColumnsNumeric(t, names[..k])
  {
    if names != [] {
      FirstNonNumericSpec(t, names[1..]);
      assert forall k :: 1 <= k < |names| ==> names[k] == names[1..][k - 1];
      var c := FirstNonNumeric(t, names);
      if names[0] in t.cols && !IsNumericColumn(t.cols[names[0]]) {
        assert names[..0] == [];
      } else if c.Some? {
        var k' :| 0 <= k' < |names[1..]| && names[1..][k'] == c.value
          && names[1..][k'] in t.cols && HasText(t.cols[names[1..][k']]) && ColumnsNumeric(t, names[1..][..k']);
        assert names[..k' + 1] == [names[0]] + names[1..][..k'];
        assert names[k' + 1] == c.value;
      }
    }
  }

  lemma {:induction false} FirstRangeErrorSpec(t: Table, ranges: seq<Range>)
    requires NoMissing(t)
    ensures FirstRangeError(t, ranges).None? <==> RangesHold(t, ranges)
    ensures FirstRangeError(t, ranges).Some? ==>
      exists k :: 0 <= k < |ranges| && ranges[k].column in t.cols && RangesHold(t, ranges[..k])
        && var col := t.cols[ranges[k].column];
        || (FirstRangeError(t, ranges).value == Uncomparable(ranges[k].column) && HasText(col))
        || (FirstRangeError(t, ranges).value == OutOfRange(ranges[k].column) && !HasText(col) && !Within(col, ranges[k]))
  {
    if ranges != [] {
      FirstRangeErrorSpec(t, ranges[1..]);
      assert forall k :: 1 <= k < |ranges| ==> ranges[k] == ranges[1..][k - 1];
      var r := ranges[0];
      var e := FirstRangeError(t, ranges);
      if r.column in t.cols && (HasText(t.cols[r.column]) || !Within(t.cols[r.column], r)) {
        assert ranges[..0] == [];
        assert !InRange(t.cols[r.column], r);
      } else {
        if r.column in t.cols {
          assert InRange(t.cols[r.column], r);
        }
        if e.Some? {
          var k' :| 0 <= k' < |ranges[1..]| && ranges[1..][k'].column in t.cols && RangesHold(t, ranges[1..][..k'])
            && var col := t.cols[ranges[1..][k'].column];
            || (e.value == Uncomparable(ranges[1..][k'].column) && HasText(col))
            || (e.value == OutOfRange(ranges[1..][k'].column) && !HasText(col) && !Within(col, ranges[1..][k']));
          assert ranges[..k' + 1] == [r] + ranges[1..][..k'];
          assert ranges[k' + 1] == ranges[1..][k'];
        }
      }
    }
  }

  // ---------------------------------------------------------------------------
  // The verdict

  /** The gate passes exactly when all seven conditions hold. */
  lemma ValidatePassIff(t: Table, cfg: Config)
    requires WellFormed(t)
    ensures Validate(t, cfg) == Pass <==> AllChecks(t, cfg)
  {
    TotalMissingZero(t);
    FirstNonNumericSpec(t, cfg.numericalColumnNames);
    FirstNonNumericSpec(t, cfg.categoricalColumnNames);
    if NoMissing(t) {
      FirstRangeErrorSpec(t, cfg.reasonableRanges);
    }
    if Validate(t, cfg) == Pass {
      forall k | 1 <= k <= 7 ensures Check(k, t, cfg) { }
    } else {
      assert !Check(1, t, cfg) || !Check(2, t, cfg) || !Check(3, t, cfg) || !Check(4, t, cfg)
        || !Check(5, t, cfg) || !Check(6, t, cfg) || !Check(7, t, cfg);
    }
  }

  /** Fail-fast: the reported error belongs to a violated check, and every check
      before it holds. */
  lemma ValidateFailsAtFirstViolation(t: Table, cfg: Config)
    requires WellFormed(t) && Validate(t, cfg).Fail?
    ensures var k := Rank(Validate(t, cfg).error);
      1 <= k <= 7 && !Check(k, t, cfg) && forall j :: 1 <= j < k ==> Check(j, t, cfg)
  {
    TotalMissingZero(t);
    FirstNonNumericSpec(t, cfg.numericalColumnNames);
    FirstNonNumericSpec(t, cfg.categoricalColumnNames);
    if NoMissing(t) {
      FirstRangeErrorSpec(t, cfg.reasonableRanges);
    }
  }

  /** Conversely, the first violated check is the one reported. */
  lemma ValidateReportsFirstViolation(t: Table, cfg: Config, k: nat)
    requires WellFormed(t) && 1 <= k <= 7 && !Check(k, t, cfg)
    requires forall j :: 1 <= j < k ==> Check(j, t, cfg)
    ensures Validate(t, cfg).Fail? && Rank(Validate(t, cfg).error) == k
  {
    ValidatePassIff(t, cfg);
    ValidateFailsAtFirstViolation(t, cfg);
  }

  /** The details of each error: the count of missing cells, the first offending
      configured column of its loop, and the row count against the floor. */
  lemma ValidateErrorDetails(t: Table, cfg: Config)
    requires WellFormed(t) && Validate(t, cfg).Fail?
    ensures var e := Validate(t, cfg).error;
      && (e.MissingValues? ==> e.count == TotalMissing(t) > 0)
      && (e.NonNumericColumn? ==>
            exists k :: 0 <= k < |cfg.numericalColumnNames| && cfg.numericalColumnNames[k] == e.column
              && e.column in t.cols && HasText(t.cols[e.column])
              && ColumnsNumeric(t, cfg.numericalColumnNames[..k]))
      && (e.NonNumericCategorical? ==>
            exists k :: 0 <= k < |cfg.categoricalColumnNames| && cfg.categoricalColumnNames[k] == e.column
              && e.column in t.cols && HasText(t.cols[e.column])
              && ColumnsNumeric(t, cfg.categoricalColumnNames[..k]))
      && ((e.OutOfRange? || e.Uncomparable?) ==>
            exists k :: 0 <= k < |cfg.reasonableRanges| && cfg.reasonableRanges[k].column == e.column
              && e.column in t.cols && RangesHold(t, cfg.reasonableRanges[..k])
              && (e.Uncomparable? <==> HasText(t.cols[e.column]))
              && (e.OutOfRange? ==> !Within(t.cols[e.column], cfg.reasonableRanges[k])))
      && (e.InsufficientRows? ==> e.rows == t.height && e.minimum == cfg.minimumRows && t.height < cfg.minimumRows)
  {
    TotalMissingZero(t);
    FirstNonNumericSpec(t, cfg.numericalColumnNames);
    FirstNonNumericSpec(t, cfg.categoricalColumnNames);
    if NoMissing(t) {
      FirstRangeErrorSpec(t, cfg.reasonableRanges);
    }
  }

  /** A table with a missing cell reports missing values, whatever else is wrong
      with it (no `target` column, for one). */
  lemma MissingValuesReportedFirst(t: Table, cfg: Config)
    requires WellFormed(t) && !NoMissing(t)
    ensures Validate(t, cfg) == Fail(MissingValues(TotalMissing(t)))
  {
    TotalMissingZero(t);
  }

  /** A table whose contents pass every other check but that has fewer rows than
      `minimum_rows` fails at the row-count check. */
  lemma TooFewRowsFailsLast(t: Table, cfg: Config)
    requires WellFormed(t) && t.height < cfg.minimumRows
    requires forall j :: 1 <= j <= 6 ==> Check(j, t, cfg)
    ensures Validate(t, cfg) == Fail(InsufficientRows(t.height, cfg.minimumRows))
  {
    ValidateReportsFirstViolation(t, cfg, 7);
    ValidateErrorDetails(t, cfg);
  }

  // ---------------------------------------------------------------------------
  // Checks 2, 3 and 6 skip absent columns

  function PresentNames(t: Table, names: seq<string>): (r: seq<string>)
    ensures forall k :: 0 <= k < |r| ==> r[k] in t.cols
  {
    if names == [] then []
    else (if names[0] in t.cols then [names[0]] else []) + PresentNames(t, names[1..])
  }

  function PresentRanges(t: Table, ranges: seq<Range>): (r: seq<Range>)
    ensures forall k :: 0 <= k < |r| ==> r[k].column in t.cols
  {
    if ranges == [] then []
    else (if ranges[0].column in t.cols then [ranges[0]] else []) + PresentRanges(t, ranges[1..])
  }

  /** The configuration with every entry that names an absent column removed. */
  function PresentOnly(t: Table, cfg: Config): Config {
    cfg.(numericalColumnNames := PresentNames(t, cfg.numericalColumnNames),
         categoricalColumnNames := PresentNames(t, cfg.categoricalColumnNames),
         reasonableRanges := PresentRanges(t, cfg.reasonableRanges))
  }

  lemma {:induction false} FirstNonNumericPresent(t: Table, names: seq<string>)
    ensures FirstNonNumeric(t, PresentNames(t, names)) == FirstNonNumeric(t, names)
  {
    if names != [] {
      FirstNonNumericPresent(t, names[1..]);
      if names[0] in t.cols {
        assert PresentNames(t, names)[0] == names[0];
        assert PresentNames(t, names)[1..] == PresentNames(t, names[1..]);
      } else {
        assert PresentNames(t, names) == PresentNames(t, names[1..]);
      }
    }
  }

  lemma {:induction false} FirstRangeErrorPresent(t: Table, ranges: seq<Range>)
    ensures FirstRangeError(t, PresentRanges(t, ranges)) == FirstRangeError(t, ranges)
  {
    if ranges != [] {
      FirstRangeErrorPresent(t, ranges[1..]);
      if ranges[0].column in t.cols {
        assert PresentRanges(t, ranges)[0] == ranges[0];
        assert PresentRanges(t, ranges)[1..] == PresentRanges(t, ranges[1..]);
      } else {
        assert PresentRanges(t, ranges) == PresentRanges(t, ranges[1..]);
      }
    }
  }

  /** Configured columns that the table lacks change nothing in the verdict. */
  lemma AbsentColumnsIgnored(t: Table, cfg: Config)
    ensures Validate(t, PresentOnly(t, cfg)) == Validate(t, cfg)
  {
    FirstNonNumericPresent(t, cfg.numericalColumnNames);
    FirstNonNumericPresent(t, cfg.categoricalColumnNames);
    FirstRangeErrorPresent(t, cfg.reasonableRanges);
  }

  // ---------------------------------------------------------------------------
  // What cleaning guarantees the gate

  /** A successfully cleaned table always passes the two target checks. */
  lemma CleanedTablePassesTargetChecks(t: Table, cfg: Config, parse: Parser)
    requires WellFormed(t) && Clean(t, cfg, parse).error.None?
    ensures Check(4, Clean(t, cfg, parse).table, cfg) && Check(5, Clean(t, cfg, parse).table, cfg)
  {
    CleanTarget(t, cfg, parse);
  }

  /** Assigning a column with no missing cell to a complete table keeps it
      complete; a missing cell in any other column survives the assignment. */
  lemma WithColumnCompleteness(t: Table, name: string, values: seq<Value>)
    requires WellFormed(t) && |values| == t.height
    ensures NoMissing(t) && (forall i :: 0 <= i < |values| ==> values[i] != Missing) ==> NoMissing(WithColumn(t, name, values))
    ensures forall n :: n in t.cols && n != name && Missing in t.cols[n] ==> !NoMissing(WithColumn(t, name, values))
  {
    forall n | n in t.cols && n != name && Missing in t.cols[n]
      ensures !NoMissing(WithColumn(t, name, values))
    {
      var i :| 0 <= i < |t.cols[n]| && t.cols[n][i] == Missing;
      assert WithColumn(t, name, values).cols[n][i] == Missing;
    }
  }

  /** dropna() leaves no missing cell. */
  lemma DroppedTableComplete(t: Table)
    requires WellFormed(t)
    ensures NoMissing(DropMissing(t))
  {
    DropMissingSpec(t);
  }

  /** Coercing a table with no missing cell leaves none when no warning is
      logged, and leaves one in every column a warning names. */
  lemma CoerceCompleteUnlessWarned(d: Table, names: seq<string>, parse: Parser)
    requires WellFormed(d) && NoMissing(d) && Coerce(d, names, parse).missingColumn.None?
    ensures var c := Coerce(d, names, parse);
      && (c.log == [] ==> NoMissing(c.table))
      && (forall w :: w in c.log ==> w.column in c.table.cols && Missing in c.table.cols[w.column])
  {
    var c := Coerce(d, names, parse);
    CoerceColumns(d, names, parse);
    CoerceShape(d, names, parse);
    CoerceLogSound(d, names, parse);
    CoerceLogComplete(d, names, parse);
    if c.log == [] {
      forall n, i | n in c.table.cols && 0 <= i < |c.table.cols[n]|
        ensures c.table.cols[n][i] != Missing
      {
        if n in names {
          var col := d.cols[n];
          CountMissingZero(col);
          CountMissingZero(ToNumericColumn(col, parse));
          assert NewlyMissing(col, parse) <= 0;
        }
      }
    }
    forall w | w in c.log
      ensures w.column in c.table.cols && Missing in c.table.cols[w.column]
    {
      var col := d.cols[w.column];
      CountMissingZero(col);
      CountMissingZero(ToNumericColumn(col, parse));
      assert c.table.cols[w.column] == ToNumericColumn(col, parse);
      var i :| 0 <= i < |col| && ToNumericColumn(col, parse)[i] == Missing;
      assert c.table.cols[w.column][i] == Missing;
    }
  }

  /** Under "drop", cleaning can still leave missing cells, since coercion runs
      after the drop: the cleaned table passes the completeness check when no
      coercion warning was logged, and fails it whenever a warning names a
      column other than `target`. */
  lemma DroppedTableCompleteUnlessCoerced(t: Table, cfg: Config, parse: Parser)
    requires WellFormed(t) && cfg.missingValueStrategy == "drop" && Clean(t, cfg, parse).error.None?
    ensures var r := Clean(t, cfg, parse);
      && (r.log == [] ==> Check(1, r.table, cfg))
      && (forall w :: w in r.log && w.column != "target" ==> !Check(1, r.table, cfg))
  {
    var d := DropStep(t, cfg);
    DroppedTableComplete(t);
    var c := Coerce(d, cfg.numericalColumnNames, parse);
    CoerceCompleteUnlessWarned(d, cfg.numericalColumnNames, parse);
    CleanSuccessUnfold(t, cfg, parse);
    var b := Binarize(c.table.cols[cfg.targetColumnName]).value;
    WithColumnCompleteness(c.table, "target", b);
  }
}
