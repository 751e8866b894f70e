/** `clean_data`: drop incomplete rows, coerce the numerical columns to numbers,
    and add the binary `target` column derived from the severity column. */
module Cleaning {
  import opened Wrappers
  import opened Frames
  import opened Configuration

  /** The coercion warning logged for a column: how many cells became missing. */
  datatype CoercionWarning = CoercionWarning(column: string, newlyMissing: nat)

  /** `df[name]` on an absent column raises KeyError; `> 0` on a text cell raises TypeError. */
  datatype CleanError = ColumnNotFound(column: string) | NotComparable(column: string)

  datatype CoerceOutcome = CoerceOutcome(table: Table, log: seq<CoercionWarning>, missingColumn: Option<string>)

  /** The frame as the cleaning left it (also when it stopped on an error),
      the warnings logged, and the error raised, if any. */
  datatype CleanOutcome = CleanOutcome(table: Table, log: seq<CoercionWarning>, error: Option<CleanError>)

  /** The text-to-number parse of `pd.to_numeric`; `None` for text it rejects. */
  type Parser = string -> Option<real>

  // ---------------------------------------------------------------------------
  // Step 1: missing-value policy

  function DropStep(t: Table, cfg: Config): (r: Table)
    requires WellFormed(t)
    ensures WellFormed(r) && r.names == t.names && r.cols.Keys == t.cols.Keys
  {
    if cfg.missingValueStrategy == "drop" then DropMissing(t) else t
  }

  // ---------------------------------------------------------------------------
  // Step 2: numeric coercion, `pd.to_numeric(col, errors="coerce")`

  /** One cell of `pd.to_numeric(..., errors="coerce")`. */
  function ToNumeric(v: Value, parse: Parser): (r: Value)
    ensures !r.Text?
    ensures v.Num? ==> r == v
    ensures r.Missing? <==> v.Missing? || (v.Text? && parse(v.s).None?)
  {
    match v
    case Missing => Missing
    case Num(x) => Num(x)
    case Text(s) => if parse(s).Some? then Num(parse(s).value) else Missing
  }

  function ToNumericColumn(col: seq<Value>, parse: Parser): (r: seq<Value>)
    ensures |r| == |col|
  {
    seq(|col|, i requires 0 <= i < |col| => ToNumeric(col[i], parse))
  }

  /** `after_nulls - before_nulls` for one column. */
  function NewlyMissing(col: seq<Value>, parse: Parser): int {
    CountMissing(ToNumericColumn(col, parse)) - CountMissing(col)
  }

  /** Coercion yields only numbers and missing cells, keeps numbers and missing
      cells as they are, turns rejected text into missing cells, never turns a
      missing cell into a present one, and is idempotent. */
  lemma {:induction false} ToNumericColumnSpec(col: seq<Value>, parse: Parser)
    ensures var r := ToNumericColumn(col, parse);
      && (forall i :: 0 <= i < |col| ==> r[i].Num? || r[i].Missing?)
      && (forall i :: 0 <= i < |col| && col[i].Missing? ==> r[i].Missing?)
      && (forall i :: 0 <= i < |col| && col[i].Num? ==> r[i] == col[i])
      && (forall i :: 0 <= i < |col| && col[i].Text? && parse(col[i].s).None? ==> r[i].Missing?)
      && CountMissing(r) >= CountMissing(col)
      && ToNumericColumn(r, parse) == r
  {
    var r := ToNumericColumn(col, parse);
    if col != [] {
      ToNumericColumnSpec(col[1..], parse);
      assert ToNumericColumn(col[1..], parse) == r[1..];
    }
  }

  function Prepend(log: seq<CoercionWarning>, o: CoerceOutcome): CoerceOutcome {
    o.(log := log + o.log)
  }

  /** The warning logged when coercing `col` of column `name` created missing cells. */
  function WarningFor(name: string, col: seq<Value>, parse: Parser): (r: seq<CoercionWarning>)
    ensures |r| <= 1
    ensures r == [] <==> NewlyMissing(col, parse) <= 0
    ensures r != [] ==> r[0].column == name && r[0].newlyMissing == NewlyMissing(col, parse)
  {
    var coerced := ToNumericColumn(col, parse);
    if CountMissing(coerced) > CountMissing(col) then [CoercionWarning(name, CountMissing(coerced) - CountMissing(col))] else []
  }

  /** The coercion loop over `names`, in order; it stops at the first name that
      is not a column. */
  function Coerce(t: Table, names: seq<string>, parse: Parser): (r: CoerceOutcome)
    requires WellFormed(t)
    ensures WellFormed(r.table)
    decreases |names|
  {
    if names == [] then CoerceOutcome(t, [], None)
    else if names[0] !in t.cols then CoerceOutcome(t, [], Some(names[0]))
    else
      var col := t.cols[names[0]];
      Prepend(WarningFor(names[0], col, parse), Coerce(WithColumn(t, names[0], ToNumericColumn(col, parse)), names[1..], parse))
  }

  lemma CoerceUnfold(t: Table, names: seq<string>, parse: Parser)
    requires WellFormed(t) && names != [] && names[0] in t.cols
    ensures var col := t.cols[names[0]];
      Coerce(t, names, parse) ==
        Prepend(WarningFor(names[0], col, parse), Coerce(WithColumn(t, names[0], ToNumericColumn(col, parse)), names[1..], parse))
  {
  }

  lemma PrependTwice(a: seq<CoercionWarning>, b: seq<CoercionWarning>, o: CoerceOutcome)
    ensures Prepend(a, Prepend(b, o)) == Prepend(a + b, o)
  {
    assert a + (b + o.log) == (a + b) + o.log;
  }

  /** Coercion keeps the columns, their order and the row count. */
  lemma {:induction false} CoerceShape(t: Table, names: seq<string>, parse: Parser)
    requires WellFormed(t)
    ensures var r := Coerce(t, names, parse);
      r.table.names == t.names && r.table.height == t.height && r.table.cols.Keys == t.cols.Keys
    decreases |names|
  {
    if names != [] && names[0] in t.cols {
      CoerceShape(WithColumn(t, names[0], ToNumericColumn(t.cols[names[0]], parse)), names[1..], parse);
    }
  }

  /** Coercion completes exactly when every configured name is a column. */
  lemma {:induction false} CoerceCompletes(t: Table, names: seq<string>, parse: Parser)
    requires WellFormed(t)
    ensures Coerce(t, names, parse).missingColumn.None? <==> forall k :: 0 <= k < |names| ==> names[k] in t.cols
    decreases |names|
  {
    if names != [] && names[0] in t.cols {
      var t' := WithColumn(t, names[0], ToNumericColumn(t.cols[names[0]], parse));
      CoerceCompletes(t', names[1..], parse);
      assert t'.cols.Keys == t.cols.Keys;
      assert Coerce(t, names, parse).missingColumn == Coerce(t', names[1..], parse).missingColumn;
      assert forall k :: 1 <= k < |names| ==> names[k] == names[1..][k - 1];
    }
  }

  /** A failed coercion reports the first configured name that is not a column. */
  lemma {:induction false} CoerceFailure(t: Table, names: seq<string>, parse: Parser)
    requires WellFormed(t)
    ensures var r := Coerce(t, names, parse);
      r.missingColumn.Some? ==>
        exists k :: 0 <= k < |names| && names[k] == r.missingColumn.value && names[k] !in t.cols
                    && forall j :: 0 <= j < k ==> names[j] in t.cols
    decreases |names|
  {
    if names != [] && names[0] in t.cols {
      var t' := WithColumn(t, names[0], ToNumericColumn(t.cols[names[0]], parse));
      CoerceFailure(t', names[1..], parse);
      assert t'.cols.Keys == t.cols.Keys;
      var r := Coerce(t, names, parse);
      assert r.missingColumn == Coerce(t', names[1..], parse).missingColumn;
      if r.missingColumn.Some? {
        var k' :| 0 <= k' < |names[1..]| && names[1..][k'] == r.missingColumn.value && names[1..][k'] !in t'.cols
                   && forall j :: 0 <= j < k' ==> names[1..][j] in t'.cols;
        assert names[k' + 1] == r.missingColumn.value;
        assert forall j :: 0 <= j < k' + 1 ==> names[j] in t.cols by {
          forall j | 0 <= j < k' + 1 ensures names[j] in t.cols {
            if j > 0 { assert names[j] == names[1..][j - 1]; }
          }
        }
      }
    }
  }

  /** When coercion completes, each configured column holds its coerced cells
      and every other column is untouched. */
  lemma {:induction false} CoerceColumns(t: Table, names: seq<string>, parse: Parser)
    requires WellFormed(t)
    ensures var r := Coerce(t, names, parse);
      r.missingColumn.None? ==>
        forall n :: n in t.cols ==>
          n in r.table.cols
          && r.table.cols[n] == if n in names then ToNumericColumn(t.cols[n], parse) else t.cols[n]
    decreases |names|
  {
    var r := Coerce(t, names, parse);
    if names != [] && names[0] in t.cols && r.missingColumn.None? {
      var n0 := names[0];
      var coerced := ToNumericColumn(t.cols[n0], parse);
      var t' := WithColumn(t, n0, coerced);
      var rest := Coerce(t', names[1..], parse);
      assert r.table == rest.table && r.missingColumn == rest.missingColumn;
      CoerceColumns(t', names[1..], parse);
      ToNumericColumnSpec(t.cols[n0], parse);
      forall n | n in t.cols
        ensures n in r.table.cols
        ensures r.table.cols[n] == if n in names then ToNumericColumn(t.cols[n], parse) else t.cols[n]
      {
        assert n in t'.cols;
        if n == n0 {
          assert t'.cols[n] == coerced;
        } else {
          assert t'.cols[n] == t.cols[n];
          assert n in names <==> n in names[1..];
        }
      }
    }
  }

  /** Each logged warning names a configured column and carries its positive
      `after_nulls - before_nulls`. */
  lemma {:induction false} CoerceLogSound(t: Table, names: seq<string>, parse: Parser)
    requires WellFormed(t)
    ensures forall w :: w in Coerce(t, names, parse).log ==>
      && w.column in names && w.column in t.cols
      && w.newlyMissing > 0 && w.newlyMissing == NewlyMissing(t.cols[w.column], parse)
    decreases |names|
  {
    if names != [] && names[0] in t.cols {
      var n0 := names[0];
      var coerced := ToNumericColumn(t.cols[n0], parse);
      var t' := WithColumn(t, n0, coerced);
      CoerceLogSound(t', names[1..], parse);
      ToNumericColumnSpec(t.cols[n0], parse);
      assert NewlyMissing(coerced, parse) == 0;
    }
  }

  /** When the loop completes, every configured column that gained missing
      cells has a warning. */
  lemma {:induction false} CoerceLogComplete(t: Table, names: seq<string>, parse: Parser)
    requires WellFormed(t)
    ensures var r := Coerce(t, names, parse);
      r.missingColumn.None? ==>
        forall n :: n in names && n in t.cols && NewlyMissing(t.cols[n], parse) > 0 ==>
          exists w :: w in r.log && w.column == n
    decreases |names|
  {
    if names != [] && names[0] in t.cols {
      var n0 := names[0];
      var coerced := ToNumericColumn(t.cols[n0], parse);
      var t' := WithColumn(t, n0, coerced);
      CoerceLogComplete(t', names[1..], parse);
      assert forall n :: n in names && n != n0 ==> n in names[1..];
    }
  }

  // ---------------------------------------------------------------------------
  // Step 3: target binarization, `(df[target_column] > 0).astype(int)`

  /** pandas' `> 0` on a non-text cell: a missing cell compares as false. */
  predicate IsPositive(v: Value) {
    v.Num? && v.x > 0.0
  }

  function Binarize(col: seq<Value>): (r: Option<seq<Value>>)
    ensures r.Some? ==> |r.value| == |col|
  {
    if HasText(col) then None
    else Some(seq(|col|, i requires 0 <= i < |col| => if IsPositive(col[i]) then Num(1.0) else Num(0.0)))
  }

  // ---------------------------------------------------------------------------
  // The whole of clean_data

  /** Steps 2 and 3, applied to the frame that step 1 produced. */
  function Transform(t: Table, cfg: Config, parse: Parser): (r: CleanOutcome)
    requires WellFormed(t)
    ensures WellFormed(r.table)
  {
    var c := Coerce(t, cfg.numericalColumnNames, parse);
    var src := cfg.targetColumnName;
    if c.missingColumn.Some? then CleanOutcome(c.table, c.log, Some(ColumnNotFound(c.missingColumn.value)))
    else if src !in c.table.cols then CleanOutcome(c.table, c.log, Some(ColumnNotFound(src)))
    else match Binarize(c.table.cols[src])
      case None => CleanOutcome(c.table, c.log, Some(NotComparable(src)))
      case Some(b) => CleanOutcome(WithColumn(c.table, "target", b), c.log, None)
  }

  function Clean(t: Table, cfg: Config, parse: Parser): (r: CleanOutcome)
    requires WellFormed(t)
    ensures WellFormed(r.table)
  {
    Transform(DropStep(t, cfg), cfg, parse)
  }

  /** A successful clean is the coerced table with the binarized column assigned. */
  lemma CleanSuccessUnfold(t: Table, cfg: Config, parse: Parser)
    requires WellFormed(t) && Clean(t, cfg, parse).error.None?
    ensures var c := Coerce(DropStep(t, cfg), cfg.numericalColumnNames, parse);
      && c.missingColumn.None? && cfg.targetColumnName in c.table.cols
      && Binarize(c.table.cols[cfg.targetColumnName]).Some?
      && |Binarize(c.table.cols[cfg.targetColumnName]).value| == c.table.height
      && Clean(t, cfg, parse) == CleanOutcome(WithColumn(c.table, "target", Binarize(c.table.cols[cfg.targetColumnName]).value), c.log, None)
  {
  }

  /** Column `n` of the dropped table as the coercion step leaves it. */
  function Coerced(d: Table, cfg: Config, n: string, parse: Parser): seq<Value>
    requires n in d.cols
  {
    if n in cfg.numericalColumnNames then ToNumericColumn(d.cols[n], parse) else d.cols[n]
  }

  /** Only the drop step removes rows: the cleaned table has as many rows as the
      dropped one, never more than the input, and exactly as many as the input
      under any strategy other than "drop". */
  lemma CleanRowCount(t: Table, cfg: Config, parse: Parser)
    requires WellFormed(t)
    ensures Clean(t, cfg, parse).table.height == DropStep(t, cfg).height <= t.height
    ensures cfg.missingValueStrategy != "drop" ==> DropStep(t, cfg) == t
  {
    DropMissingSpec(t);
    CoerceShape(DropStep(t, cfg), cfg.numericalColumnNames, parse);
  }

  /** Cleaning succeeds exactly when every configured numerical column and the
      severity column exist and the coerced severity column holds no text; a
      reported error names the offending column. */
  lemma CleanSucceedsIff(t: Table, cfg: Config, parse: Parser)
    requires WellFormed(t)
    ensures var d := DropStep(t, cfg); var r := Clean(t, cfg, parse); var src := cfg.targetColumnName;
      && (r.error.None? <==>
            && (forall k :: 0 <= k < |cfg.numericalColumnNames| ==> cfg.numericalColumnNames[k] in t.cols)
            && src in t.cols
            && !HasText(Coerced(d, cfg, src, parse)))
      && (r.error.Some? && r.error.value.ColumnNotFound? ==>
            r.error.value.column !in t.cols
            && (r.error.value.column in cfg.numericalColumnNames || r.error.value.column == src))
      && (r.error.Some? && r.error.value.NotComparable? ==>
            r.error.value.column == src && src in d.cols && HasText(Coerced(d, cfg, src, parse)))
  {
    var d := DropStep(t, cfg);
    CoerceCompletes(d, cfg.numericalColumnNames, parse);
    CoerceFailure(d, cfg.numericalColumnNames, parse);
    CoerceColumns(d, cfg.numericalColumnNames, parse);
    CoerceShape(d, cfg.numericalColumnNames, parse);
  }

  /** A successful clean keeps every input column in place, numerical ones
      coerced and the rest (the severity column included) untouched, and adds
      `target` last unless it was already a column. */
  lemma CleanColumns(t: Table, cfg: Config, parse: Parser)
    requires WellFormed(t) && Clean(t, cfg, parse).error.None?
    ensures var d := DropStep(t, cfg); var r := Clean(t, cfg, parse).table;
      && r.names == (if "target" in t.cols then t.names else t.names + ["target"])
      && r.height == d.height
      && (forall n :: n in t.cols && n != "target" ==> n in d.cols && n in r.cols && r.cols[n] == Coerced(d, cfg, n, parse))
  {
    var d := DropStep(t, cfg);
    var c := Coerce(d, cfg.numericalColumnNames, parse);
    CoerceColumns(d, cfg.numericalColumnNames, parse);
    CoerceShape(d, cfg.numericalColumnNames, parse);
    var b := Binarize(c.table.cols[cfg.targetColumnName]).value;
    assert Clean(t, cfg, parse).table == WithColumn(c.table, "target", b);
  }

  /** After a successful clean, `target` is 1 exactly where the coerced severity
      is greater than 0 and 0 elsewhere, so 0 where the severity is missing. */
  lemma CleanTarget(t: Table, cfg: Config, parse: Parser)
    requires WellFormed(t) && Clean(t, cfg, parse).error.None?
    ensures var d := DropStep(t, cfg); var r := Clean(t, cfg, parse).table; var src := cfg.targetColumnName;
      && "target" in r.cols && src in d.cols && |Coerced(d, cfg, src, parse)| == r.height == |d.cols[src]|
      && (forall i :: 0 <= i < r.height ==>
            r.cols["target"][i] == if IsPositive(Coerced(d, cfg, src, parse)[i]) then Num(1.0) else Num(0.0))
      && (forall i :: 0 <= i < r.height && d.cols[src][i].Missing? ==> r.cols["target"][i] == Num(0.0))
  {
    var d := DropStep(t, cfg);
    var src := cfg.targetColumnName;
    var c := Coerce(d, cfg.numericalColumnNames, parse);
    CoerceColumns(d, cfg.numericalColumnNames, parse);
    CoerceShape(d, cfg.numericalColumnNames, parse);
    var b := Binarize(c.table.cols[src]).value;
    var r := Clean(t, cfg, parse).table;
    assert r == WithColumn(c.table, "target", b);
    assert c.table.cols[src] == Coerced(d, cfg, src, parse);
    forall i | 0 <= i < r.height && d.cols[src][i].Missing?
      ensures r.cols["target"][i] == Num(0.0)
    {
      assert !IsPositive(Coerced(d, cfg, src, parse)[i]);
    }
  }

  // ---------------------------------------------------------------------------
  // The imperative clean_data over a frame object

  /** The coercion loop of step 2, in place on `frame`. */
  method CoerceInPlace(frame: Frame, names: seq<string>, parse: Parser)
    returns (log: seq<CoercionWarning>, missingColumn: Option<string>)
    requires frame.Valid()
    modifies frame
    ensures frame.Valid()
    ensures CoerceOutcome(frame.View(), log, missingColumn) == Coerce(old(frame.View()), names, parse)
  {
    ghost var start := frame.View();
    log := [];
    var i := 0;
    while i < |names|
      invariant 0 <= i <= |names|
      invariant frame.Valid()
      invariant Coerce(start, names, parse) == Prepend(log, Coerce(frame.View(), names[i..], parse))
    {
      var name := names[i];
      ghost var cur := frame.View();
      assert names[i..][0] == name && names[i..][1..] == names[i + 1..];
      if name !in frame.cols {
        return log, Some(name);
      }
      var before := CountMissing(frame.cols[name]);
      var coerced := ToNumericColumn(frame.cols[name], parse);
      var after := CountMissing(coerced);
      var warning := if after > before then [CoercionWarning(name, after - before)] else [];
      assert warning == WarningFor(name, frame.cols[name], parse);
      frame.Assign(name, coerced);
      ghost var rest := Coerce(frame.View(), names[i + 1..], parse);
      CoerceUnfold(cur, names[i..], parse);
      PrependTwice(log, warning, rest);
      log := log + warning;
      i := i + 1;
    }
    missingColumn := None;
  }

  /** Steps 2 and 3 in place on `frame`: the coercion loop with its warnings,
      then the assignment of `target`. */
  method TransformInPlace(frame: Frame, cfg: Config, parse: Parser)
    returns (log: seq<CoercionWarning>, error: Option<CleanError>)
    requires frame.Valid()
    modifies frame
    ensures frame.Valid()
    ensures CleanOutcome(frame.View(), log, error) == Transform(old(frame.View()), cfg, parse)
  {
    var missingColumn;
    log, missingColumn := CoerceInPlace(frame, cfg.numericalColumnNames, parse);
    if missingColumn.Some? {
      return log, Some(ColumnNotFound(missingColumn.value));
    }
    var target := cfg.targetColumnName;
    if target !in frame.cols {
      return log, Some(ColumnNotFound(target));
    }
    var binary := Binarize(frame.cols[target]);
    if binary.None? {
      return log, Some(NotComparable(target));
    }
    frame.Assign("target", binary.value);
    error := None;
  }

  /** clean_data as written: only the "drop" branch makes a new frame; under any
      other strategy the caller's own frame is updated and returned. */
  method CleanData(df: Frame, cfg: Config, parse: Parser)
    returns (out: Frame, log: seq<CoercionWarning>, error: Option<CleanError>)
    requires df.Valid()
    modifies df
    ensures out.Valid()
    ensures cfg.missingValueStrategy == "drop" ==> fresh(out) && unchanged(df)
    ensures cfg.missingValueStrategy != "drop" ==> out == df
    ensures CleanOutcome(out.View(), log, error) == Clean(old(df.View()), cfg, parse)
  {
    if cfg.missingValueStrategy == "drop" {
      out := df.DropNa();
    } else {
      out := df;
    }
    log, error := TransformInPlace(out, cfg, parse);
  }

  /** With strategy "keep", cleaning a one-row frame adds `target` to the
      caller's frame itself. */
  method CallerFrameMutated() returns (before: Table, after: Table)
    ensures "target" !in before.cols && "target" in after.cols
  {
    var df := new Frame(Table(["num"], map["num" := [Num(2.0)]], 1));
    var cfg := Config("keep", [], [], "num", [], 0);
    before := df.View();
    var parse: Parser := s => None;
    assert Coerce(before, [], parse).missingColumn.None?;
    assert !HasText(before.cols["num"]);
    var out, log, error := CleanData(df, cfg, parse);
    after := df.View();
  }

  /** clean_data as its docstring describes it, with logging as the only side
      effect: the caller's frame is never changed. */
  method CleanDataCopy(df: Frame, cfg: Config, parse: Parser)
    returns (out: Frame, log: seq<CoercionWarning>, error: Option<CleanError>)
    requires df.Valid()
    ensures fresh(out) && out.Valid()
    ensures CleanOutcome(out.View(), log, error) == Clean(df.View(), cfg, parse)
  {
    if cfg.missingValueStrategy == "drop" {
      out := df.DropNa();
    } else {
      out := df.Copy();
    }
    log, error := TransformInPlace(out, cfg, parse);
  }
}
