/** Preset patient queries: a filter specification becomes a parameterised
    WHERE clause, and a preset name selects the query to run. */
module Query {
  import opened Wrappers

  /** The rule set of one column; rule keys other than these three are ignored. */
  datatype Rules = Rules(min: Option<int>, max: Option<int>, equals: Option<int>)

  /** An ordered mapping from column name to its rules. */
  type FilterSpec = seq<(string, Rules)>

  datatype Op = AtLeast | AtMost | EqualTo

  /** One comparison of the clause together with the parameter it binds. */
  datatype Condition = Condition(column: string, op: Op, param: int)

  /** A column's conditions: `min`, then `max`, then `equals`. */
  function RuleConditions(column: string, rules: Rules): seq<Condition> {
    (if rules.min.Some? then [Condition(column, AtLeast, rules.min.value)] else [])
    + (if rules.max.Some? then [Condition(column, AtMost, rules.max.value)] else [])
    + (if rules.equals.Some? then [Condition(column, EqualTo, rules.equals.value)] else [])
  }

  /** The conditions of every column of `spec`, in spec order. */
  function Conditions(spec: FilterSpec): (r: seq<Condition>)
    ensures |r| <= 3 * |spec|
    decreases |spec|
  {
    if spec == [] then []
    else Conditions(spec[..|spec| - 1]) + RuleConditions(spec[|spec| - 1].0, spec[|spec| - 1].1)
  }

  function OpText(op: Op): string {
    match op
    case AtLeast => " >= ?"
    case AtMost => " <= ?"
    case EqualTo => " = ?"
  }

  /** The text of a condition: the column name, the operator and a placeholder. */
  function Render(c: Condition): string {
    c.column + OpText(c.op)
  }

  function RenderAll(cs: seq<Condition>): (r: seq<string>)
    ensures |r| == |cs|
  {
    seq(|cs|, k requires 0 <= k < |cs| => Render(cs[k]))
  }

  function ParamsOf(cs: seq<Condition>): (r: seq<int>)
    ensures |r| == |cs|
  {
    seq(|cs|, k requires 0 <= k < |cs| => cs[k].param)
  }

  /** `" AND ".join(parts)` */
  function Join(parts: seq<string>): string {
    if parts == [] then ""
    else if |parts| == 1 then parts[0]
    else parts[0] + " AND " + Join(parts[1..])
  }

  function WhereClause(spec: FilterSpec): string {
    Join(RenderAll(Conditions(spec)))
  }

  function WhereParams(spec: FilterSpec): (r: seq<int>)
    ensures |r| <= 3 * |spec|
  {
    ParamsOf(Conditions(spec))
  }

  lemma AppendCondition(cs: seq<Condition>, c: Condition)
    ensures RenderAll(cs + [c]) == RenderAll(cs) + [Render(c)]
    ensures ParamsOf(cs + [c]) == ParamsOf(cs) + [c.param]
  {
    assert RenderAll(cs + [c])[|cs|] == Render(c);
  }

  /** build_where_clause: the loop over the spec that appends conditions and
      parameters, then the join. */
  method BuildWhereClause(spec: FilterSpec) returns (clause: string, params: seq<int>)
    ensures clause == WhereClause(spec) && params == WhereParams(spec)
  {
    var conditions: seq<string> := [];
    params := [];
    ghost var built: seq<Condition> := [];
    var i := 0;
    while i < |spec|
      invariant 0 <= i <= |spec|
      invariant built == Conditions(spec[..i])
      invariant conditions == RenderAll(built) && params == ParamsOf(built)
    {
      var (column, rules) := spec[i];
      ghost var before := built;
      if rules.min.Some? {
        AppendCondition(built, Condition(column, AtLeast, rules.min.value));
        conditions := conditions + [column + " >= ?"];
        params := params + [rules.min.value];
        built := built + [Condition(column, AtLeast, rules.min.value)];
      }
      if rules.max.Some? {
        AppendCondition(built, Condition(column, AtMost, rules.max.value));
        conditions := conditions + [column + " <= ?"];
        params := params + [rules.max.value];
        built := built + [Condition(column, AtMost, rules.max.value)];
      }
      if rules.equals.Some? {
        AppendCondition(built, Condition(column, EqualTo, rules.equals.value));
        conditions := conditions + [column + " = ?"];
        params := params + [rules.equals.value];
        built := built + [Condition(column, EqualTo, rules.equals.value)];
      }
      assert built == before + RuleConditions(column, rules);
      assert spec[..i + 1][..i] == spec[..i];
      i := i + 1;
    }
    assert spec[..|spec|] == spec;
    clause := Join(conditions);
  }

  // ---------------------------------------------------------------------------
  // Ordering and membership

  /** The conditions of a concatenated spec are those of each part, in order:
      the clause is built column by column. */
  lemma {:induction false} ConditionsAppend(a: FilterSpec, b: FilterSpec)
    ensures Conditions(a + b) == Conditions(a) + Conditions(b)
    decreases |b|
  {
    if b == [] {
      assert a + b == a;
    } else {
      var b' := b[..|b| - 1];
      var last := b[|b| - 1];
      assert (a + b)[..|a + b| - 1] == a + b';
      assert (a + b)[|a + b| - 1] == last;
      ConditionsAppend(a, b');
      calc {
        Conditions(a + b);
        Conditions(a + b') + RuleConditions(last.0, last.1);
        (Conditions(a) + Conditions(b')) + RuleConditions(last.0, last.1);
        Conditions(a) + (Conditions(b') + RuleConditions(last.0, last.1));
        Conditions(a) + Conditions(b);
      }
    }
  }

  /** Whether `rules` holds rule `op` with parameter `v`. */
  predicate HasRule(rules: Rules, op: Op, v: int) {
    match op
    case AtLeast => rules.min == Some(v)
    case AtMost => rules.max == Some(v)
    case EqualTo => rules.equals == Some(v)
  }

  /** A condition is in the clause exactly when some column of the spec holds
      that rule with that parameter. */
  lemma RuleConditionsMembership(column: string, rules: Rules, c: Condition)
    ensures c in RuleConditions(column, rules) <==> column == c.column && HasRule(rules, c.op, c.param)
  {
  }

  lemma {:induction false} ConditionsMembership(spec: FilterSpec, c: Condition)
    ensures c in Conditions(spec) <==> exists j :: 0 <= j < |spec| && spec[j].0 == c.column && HasRule(spec[j].1, c.op, c.param)
    decreases |spec|
  {
    if spec != [] {
      var init := spec[..|spec| - 1];
      var last := spec[|spec| - 1];
      ConditionsMembership(init, c);
      RuleConditionsMembership(last.0, last.1, c);
      assert Conditions(spec) == Conditions(init) + RuleConditions(last.0, last.1);
      if c in Conditions(spec) {
        if c in Conditions(init) {
          var j :| 0 <= j < |init| && init[j].0 == c.column && HasRule(init[j].1, c.op, c.param);
          assert spec[j] == init[j];
        } else {
          assert spec[|spec| - 1] == last;
        }
      }
      if exists j :: 0 <= j < |spec| && spec[j].0 == c.column && HasRule(spec[j].1, c.op, c.param) {
        var j :| 0 <= j < |spec| && spec[j].0 == c.column && HasRule(spec[j].1, c.op, c.param);
        if j < |init| {
          assert init[j] == spec[j];
        }
      }
    }
  }

  /** Rule sets with none of min, max or equals contribute nothing; in
      particular the empty spec yields `("", [])`. */
  lemma {:induction false} NoRulesNoConditions(spec: FilterSpec)
    requires forall j :: 0 <= j < |spec| ==> spec[j].1 == Rules(None, None, None)
    ensures WhereClause(spec) == "" && WhereParams(spec) == []
    decreases |spec|
  {
    if spec != [] {
      NoRulesNoConditions(spec[..|spec| - 1]);
    }
  }

  // ---------------------------------------------------------------------------
  // Placeholders

  /** The number of `?` placeholders in `s`. */
  function CountPlaceholders(s: string): nat {
    if s == [] then 0 else (if s[0] == '?' then 1 else 0) + CountPlaceholders(s[1..])
  }

  lemma {:induction false} CountPlaceholdersAppend(a: string, b: string)
    ensures CountPlaceholders(a + b) == CountPlaceholders(a) + CountPlaceholders(b)
  {
    if a == [] {
      assert a + b == b;
    } else {
      assert (a + b)[0] == a[0];
      assert (a + b)[1..] == a[1..] + b;
      CountPlaceholdersAppend(a[1..], b);
    }
  }

  lemma {:induction false} NoPlaceholder(s: string)
    requires '?' !in s
    ensures CountPlaceholders(s) == 0
  {
    if s != [] {
      NoPlaceholder(s[1..]);
    }
  }

  /** One rendered condition holds exactly one placeholder. */
  lemma RenderOnePlaceholder(c: Condition)
    requires '?' !in c.column
    ensures CountPlaceholders(Render(c)) == 1
  {
    var symbol := match c.op case AtLeast => " >= " case AtMost => " <= " case EqualTo => " = ";
    assert Render(c) == (c.column + symbol) + "?";
    NoPlaceholder(c.column + symbol);
    CountPlaceholdersAppend(c.column + symbol, "?");
    assert CountPlaceholders("?") == 1 + CountPlaceholders([]);
  }

  lemma {:induction false} JoinPlaceholders(parts: seq<string>)
    requires forall k :: 0 <= k < |parts| ==> CountPlaceholders(parts[k]) == 1
    ensures CountPlaceholders(Join(parts)) == |parts|
  {
    if |parts| > 1 {
      JoinPlaceholders(parts[1..]);
      NoPlaceholder(" AND ");
      CountPlaceholdersAppend(parts[0], " AND ");
      CountPlaceholdersAppend(parts[0] + " AND ", Join(parts[1..]));
    }
  }

  /** With column names free of `?`, the clause holds exactly one placeholder
      per parameter. */
  lemma PlaceholderCount(spec: FilterSpec)
    requires forall j :: 0 <= j < |spec| ==> '?' !in spec[j].0
    ensures CountPlaceholders(WhereClause(spec)) == |WhereParams(spec)|
  {
    var cs := Conditions(spec);
    forall k | 0 <= k < |cs|
      ensures CountPlaceholders(RenderAll(cs)[k]) == 1
    {
      assert cs[k] in cs;
      ConditionsMembership(spec, cs[k]);
      RenderOnePlaceholder(cs[k]);
    }
    JoinPlaceholders(RenderAll(cs));
  }

  // ---------------------------------------------------------------------------
  // Parameter values never reach the clause text

  /** Same columns, in the same order, with the same rules present. */
  predicate SameShape(a: FilterSpec, b: FilterSpec) {
    |a| == |b| &&
    forall j :: 0 <= j < |a| ==>
      a[j].0 == b[j].0 && a[j].1.min.Some? == b[j].1.min.Some?
      && a[j].1.max.Some? == b[j].1.max.Some? && a[j].1.equals.Some? == b[j].1.equals.Some?
  }

  lemma RenderAllAppend(x: seq<Condition>, y: seq<Condition>)
    ensures RenderAll(x + y) == RenderAll(x) + RenderAll(y)
  {
  }

  lemma RuleRendering(column: string, r1: Rules, r2: Rules)
    requires r1.min.Some? == r2.min.Some? && r1.max.Some? == r2.max.Some? && r1.equals.Some? == r2.equals.Some?
    ensures RenderAll(RuleConditions(column, r1)) == RenderAll(RuleConditions(column, r2))
  {
    var lo1 := if r1.min.Some? then [Condition(column, AtLeast, r1.min.value)] else [];
    var hi1 := if r1.max.Some? then [Condition(column, AtMost, r1.max.value)] else [];
    var eq1 := if r1.equals.Some? then [Condition(column, EqualTo, r1.equals.value)] else [];
    var lo2 := if r2.min.Some? then [Condition(column, AtLeast, r2.min.value)] else [];
    var hi2 := if r2.max.Some? then [Condition(column, AtMost, r2.max.value)] else [];
    var eq2 := if r2.equals.Some? then [Condition(column, EqualTo, r2.equals.value)] else [];
    RenderAllAppend(lo1 + hi1, eq1);
    RenderAllAppend(lo1, hi1);
    RenderAllAppend(lo2 + hi2, eq2);
    RenderAllAppend(lo2, hi2);
    assert RenderAll(lo1) == RenderAll(lo2);
    assert RenderAll(hi1) == RenderAll(hi2);
    assert RenderAll(eq1) == RenderAll(eq2);
  }

  lemma {:induction false} SameShapeRendering(a: FilterSpec, b: FilterSpec)
    requires SameShape(a, b)
    ensures RenderAll(Conditions(a)) == RenderAll(Conditions(b))
    decreases |a|
  {
    if a != [] {
      var a', b' := a[..|a| - 1], b[..|b| - 1];
      assert SameShape(a', b');
      SameShapeRendering(a', b');
      var la, lb := a[|a| - 1], b[|b| - 1];
      RuleRendering(la.0, la.1, lb.1);
      assert la.0 == lb.0;
      RenderAllAppend(Conditions(a'), RuleConditions(la.0, la.1));
      RenderAllAppend(Conditions(b'), RuleConditions(lb.0, lb.1));
    }
  }

  /** Specs that differ only in their parameter values yield the same clause:
      only column names, operators, placeholders and separators are text. */
  lemma ClauseIgnoresValues(a: FilterSpec, b: FilterSpec)
    requires SameShape(a, b)
    ensures WhereClause(a) == WhereClause(b)
  {
    SameShapeRendering(a, b);
  }

  /** An identifier: letters, digits and underscores only. */
  predicate IsIdentifier(s: string) {
    forall i :: 0 <= i < |s| ==> ('a' <= s[i] <= 'z') || ('A' <= s[i] <= 'Z') || ('0' <= s[i] <= '9') || s[i] == '_'
  }

  /** `" AND "` occurs somewhere in `s`. */
  predicate ContainsSeparator(s: string) {
    exists p :: 0 <= p && p + 5 <= |s| && s[p] == ' ' && s[p + 1] == 'A' && s[p + 2] == 'N' && s[p + 3] == 'D' && s[p + 4] == ' '
  }

  /** A single condition over an identifier column contains no `" AND "`. */
  lemma ConditionHasNoSeparator(c: Condition)
    requires IsIdentifier(c.column)
    ensures !ContainsSeparator(Render(c))
  {
    var s := Render(c);
    forall p | 0 <= p && p + 5 <= |s| && s[p] == ' '
      ensures s[p + 1] != 'A'
    {
      assert p >= |c.column|;
      assert s[p + 1] == OpText(c.op)[p + 1 - |c.column|];
    }
  }

  // ---------------------------------------------------------------------------
  // Preset dispatch of query_patients

  const BaseQuery: string := "SELECT * FROM patients"

  const QuerySpecs: map<string, FilterSpec> := map[
    "high_risk_seniors" := [("age", Rules(Some(60), None, None)), ("target", Rules(None, None, Some(1)))],
    "young_with_high_chol" := [("age", Rules(None, Some(40), None)), ("chol", Rules(Some(200), None, None))],
    "exercise_induced_angina" := [("exang", Rules(None, None, Some(1)))]
  ]

  /** The query text, its parameters, and whether a warning is logged. */
  datatype QueryPlan = QueryPlan(sql: string, params: seq<int>, warn: bool)

  /** A known preset filters with its clause; any other name falls back to all
      rows, with a warning unless the name is "all". */
  function PresetQuery(preset: string): (p: QueryPlan)
    ensures p.warn <==> preset !in QuerySpecs && preset != "all"
    ensures preset in QuerySpecs ==>
      p.sql == BaseQuery + " WHERE " + WhereClause(QuerySpecs[preset]) && p.params == WhereParams(QuerySpecs[preset])
    ensures preset !in QuerySpecs ==> p.sql == BaseQuery && p.params == []
  {
    if preset in QuerySpecs then
      var spec := QuerySpecs[preset];
      QueryPlan(BaseQuery + " WHERE " + WhereClause(spec), WhereParams(spec), false)
    else
      QueryPlan(BaseQuery, [], preset != "all")
  }

  lemma HighRiskSeniorsClause()
    ensures WhereClause(QuerySpecs["high_risk_seniors"]) == "age >= ? AND target = ?"
    ensures WhereParams(QuerySpecs["high_risk_seniors"]) == [60, 1]
  {
    var spec := QuerySpecs["high_risk_seniors"];
    assert spec[..1] == [("age", Rules(Some(60), None, None))];
    assert Conditions(spec[..1]) == [Condition("age", AtLeast, 60)];
    var cs := [Condition("age", AtLeast, 60), Condition("target", EqualTo, 1)];
    assert Conditions(spec) == cs;
    assert Render(cs[0]) == "age >= ?";
    assert Render(cs[1]) == "target = ?";
    assert RenderAll(cs) == ["age >= ?", "target = ?"];
  }

  /** The `high_risk_seniors` preset: `age >= ? AND target = ?` with `[60, 1]`. */
  lemma HighRiskSeniorsQuery()
    ensures PresetQuery("high_risk_seniors")
      == QueryPlan(BaseQuery + " WHERE " + "age >= ? AND target = ?", [60, 1], false)
  {
    HighRiskSeniorsClause();
  }

  lemma YoungWithHighCholClause()
    ensures WhereClause(QuerySpecs["young_with_high_chol"]) == "age <= ? AND chol >= ?"
    ensures WhereParams(QuerySpecs["young_with_high_chol"]) == [40, 200]
  {
    var spec := QuerySpecs["young_with_high_chol"];
    assert spec[..1] == [("age", Rules(None, Some(40), None))];
    assert Conditions(spec[..1]) == [Condition("age", AtMost, 40)];
    var cs := [Condition("age", AtMost, 40), Condition("chol", AtLeast, 200)];
    assert Conditions(spec) == cs;
    assert Render(cs[0]) == "age <= ?";
    assert Render(cs[1]) == "chol >= ?";
    assert RenderAll(cs) == ["age <= ?", "chol >= ?"];
  }

  /** The `young_with_high_chol` preset: `age <= ? AND chol >= ?` with `[40, 200]`. */
  lemma YoungWithHighCholQuery()
    ensures PresetQuery("young_with_high_chol")
      == QueryPlan(BaseQuery + " WHERE " + "age <= ? AND chol >= ?", [40, 200], false)
  {
    YoungWithHighCholClause();
  }

  /** The `exercise_induced_angina` preset: `exang = ?` with `[1]`. */
  lemma ExerciseInducedAnginaQuery()
    ensures PresetQuery("exercise_induced_angina")
      == QueryPlan(BaseQuery + " WHERE " + "exang = ?", [1], false)
  {
    var spec := QuerySpecs["exercise_induced_angina"];
    var cs := [Condition("exang", EqualTo, 1)];
    assert Conditions(spec) == cs;
    assert Render(cs[0]) == "exang = ?";
    assert RenderAll(cs) == ["exang = ?"];
  }

  /** The preset specs filter on `age`, `target`, `chol` and `exang` only. */
  lemma PresetColumnsPlain(preset: string)
    requires preset in QuerySpecs
    ensures forall j :: 0 <= j < |QuerySpecs[preset]| ==> IsIdentifier(QuerySpecs[preset][j].0)
  {
    if preset == "high_risk_seniors" {
      assert IsIdentifier("age") && IsIdentifier("target");
    } else if preset == "young_with_high_chol" {
      assert IsIdentifier("age") && IsIdentifier("chol");
    } else {
      assert preset == "exercise_induced_angina";
      assert IsIdentifier("exang");
    }
  }

  lemma IdentifierPlain(s: string)
    requires IsIdentifier(s)
    ensures '?' !in s
  {
  }

  /** Every query, preset or fallback, binds exactly one parameter per
      placeholder. */
  lemma PresetPlaceholders(preset: string)
    ensures CountPlaceholders(PresetQuery(preset).sql) == |PresetQuery(preset).params|
  {
    if preset in QuerySpecs {
      PresetColumnsPlain(preset);
      FilteredQueryPlaceholders(QuerySpecs[preset]);
    } else {
      NoPlaceholder(BaseQuery);
    }
  }

  /** A filtered query over identifier columns binds one parameter per placeholder. */
  lemma FilteredQueryPlaceholders(spec: FilterSpec)
    requires forall j :: 0 <= j < |spec| ==> IsIdentifier(spec[j].0)
    ensures CountPlaceholders(BaseQuery + " WHERE " + WhereClause(spec)) == |WhereParams(spec)|
  {
    forall j | 0 <= j < |spec|
      ensures '?' !in spec[j].0
    {
      IdentifierPlain(spec[j].0);
    }
    PlaceholderCount(spec);
    NoPlaceholder(BaseQuery + " WHERE ");
    CountPlaceholdersAppend(BaseQuery + " WHERE ", WhereClause(spec));
  }
}
