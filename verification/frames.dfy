/** The in-memory record table (a pandas DataFrame as the cleaning code uses it):
    ordered, distinct column names, one column of cells per name, and a shared
    row count. */
module Frames {

  /** A cell: absent (NaN/None), a number, or unparsed text. */
  datatype Value = Missing | Num(x: real) | Text(s: string)

  datatype Table = Table(names: seq<string>, cols: map<string, seq<Value>>, height: nat)

  predicate Distinct(s: seq<string>) {
    forall i, j :: 0 <= i < j < |s| ==> s[i] != s[j]
  }

  /** Every listed name has a column, every column is listed once, and all
      columns have `height` cells. */
  ghost predicate WellFormed(t: Table) {
    && Distinct(t.names)
    && (forall n :: n in t.cols ==> n in t.names)
    && (forall k :: 0 <= k < |t.names| ==> t.names[k] in t.cols)
    && (forall n :: n in t.cols ==> |t.cols[n]| == t.height)
  }

  /** `df[name] = values`: overwrite the column in place, or append it last. */
  function WithColumn(t: Table, name: string, values: seq<Value>): (r: Table)
    requires WellFormed(t) && |values| == t.height
    ensures WellFormed(r)
    ensures r.height == t.height && r.cols.Keys == t.cols.Keys + {name}
  {
    Table(if name in t.cols then t.names else t.names + [name], t.cols[name := values], t.height)
  }

  /** `col.isnull().sum()` */
  function CountMissing(col: seq<Value>): nat {
    if col == [] then 0 else (if col[0].Missing? then 1 else 0) + CountMissing(col[1..])
  }

  /** Some cell holds unparsed text (a pandas object-dtype column). */
  predicate HasText(col: seq<Value>) {
    exists i :: 0 <= i < |col| && col[i].Text?
  }

  lemma {:induction false} CountMissingZero(col: seq<Value>)
    ensures CountMissing(col) == 0 <==> forall i :: 0 <= i < |col| ==> col[i] != Missing
  {
    if col != [] {
      CountMissingZero(col[1..]);
      assert forall i :: 1 <= i < |col| ==> col[i] == col[1..][i - 1];
    }
  }

  // ---------------------------------------------------------------------------
  // dropna(): remove every row that holds a missing cell in any column

  predicate RowComplete(t: Table, i: nat)
    requires WellFormed(t) && i < t.height
  {
    forall n :: n in t.cols ==> t.cols[n][i] != Missing
  }

  /** Indices, from `k` on, of the rows that have no missing cell, in order. */
  function KeptFrom(t: Table, k: nat): seq<nat>
    requires WellFormed(t) && k <= t.height
    decreases t.height - k
  {
    if k == t.height then [] else (if RowComplete(t, k) then [k] else []) + KeptFrom(t, k + 1)
  }

  function KeptRows(t: Table): seq<nat>
    requires WellFormed(t)
  {
    KeptFrom(t, 0)
  }

  predicate StrictlyIncreasing(s: seq<nat>) {
    forall i, j :: 0 <= i < j < |s| ==> s[i] < s[j]
  }

  lemma {:induction false} KeptFromSpec(t: Table, k: nat)
    requires WellFormed(t) && k <= t.height
    ensures forall j :: 0 <= j < |KeptFrom(t, k)| ==> k <= KeptFrom(t, k)[j] < t.height
    ensures StrictlyIncreasing(KeptFrom(t, k))
    ensures forall i :: k <= i < t.height ==> (i in KeptFrom(t, k) <==> RowComplete(t, i))
    decreases t.height - k
  {
    if k < t.height {
      KeptFromSpec(t, k + 1);
    }
  }

  /** The cells of `col` at positions `idx`, in that order. */
  function Select(col: seq<Value>, idx: seq<nat>): (r: seq<Value>)
    requires forall j :: 0 <= j < |idx| ==> idx[j] < |col|
    ensures |r| == |idx|
  {
    seq(|idx|, j requires 0 <= j < |idx| => col[idx[j]])
  }

  function DropMissing(t: Table): (r: Table)
    requires WellFormed(t)
    ensures WellFormed(r) && r.names == t.names && r.cols.Keys == t.cols.Keys
  {
    var kept := KeptRows(t);
    KeptFromSpec(t, 0);
    Table(t.names, map n | n in t.cols :: Select(t.cols[n], kept), |kept|)
  }

  /** The rows that survive dropna() are exactly the complete rows, in their
      original relative order, and none of them holds a missing cell. */
  lemma DropMissingSpec(t: Table)
    requires WellFormed(t)
    ensures var r := DropMissing(t);
      && r.height <= t.height
      && |KeptRows(t)| == r.height
      && StrictlyIncreasing(KeptRows(t))
      && (forall i :: 0 <= i < t.height ==> (i in KeptRows(t) <==> RowComplete(t, i)))
      && (forall n, j :: n in r.cols && 0 <= j < r.height ==>
            KeptRows(t)[j] < t.height && r.cols[n][j] == t.cols[n][KeptRows(t)[j]])
      && (forall n, j :: n in r.cols && 0 <= j < r.height ==> r.cols[n][j] != Missing)
  {
    var r := DropMissing(t);
    var kept := KeptRows(t);
    KeptFromSpec(t, 0);
    forall n, j | n in r.cols && 0 <= j < r.height
      ensures r.cols[n][j] != Missing
    {
      assert kept[j] in kept;
      assert RowComplete(t, kept[j]);
    }
    NoDuplicatesBounded(kept, t.height);
  }

  /** A strictly increasing sequence of indices below `n` has at most `n` entries. */
  lemma {:induction false} NoDuplicatesBounded(s: seq<nat>, n: nat)
    requires StrictlyIncreasing(s)
    requires forall j :: 0 <= j < |s| ==> s[j] < n
    ensures |s| <= n
  {
    if s != [] {
      var last := s[|s| - 1];
      var init := s[..|s| - 1];
      assert forall j :: 0 <= j < |init| ==> init[j] < last;
      NoDuplicatesBounded(init, last);
    }
  }

  /** With every row complete, the kept indices from `k` are k, k+1, ... */
  lemma {:induction false} KeptFromAllComplete(t: Table, k: nat)
    requires WellFormed(t) && k <= t.height
    requires forall i :: 0 <= i < t.height ==> RowComplete(t, i)
    ensures |KeptFrom(t, k)| == t.height - k
    ensures forall j :: 0 <= j < t.height - k ==> KeptFrom(t, k)[j] == k + j
    decreases t.height - k
  {
    if k < t.height {
      KeptFromAllComplete(t, k + 1);
    }
  }

  /** Dropping a second time changes nothing. */
  lemma DropMissingIdempotent(t: Table)
    requires WellFormed(t)
    ensures DropMissing(DropMissing(t)) == DropMissing(t)
  {
    var d := DropMissing(t);
    DropMissingSpec(t);
    assert forall i :: 0 <= i < d.height ==> RowComplete(d, i);
    KeptFromAllComplete(d, 0);
    var dd := DropMissing(d);
    forall n | n in d.cols
      ensures dd.cols[n] == d.cols[n]
    {
      assert Select(d.cols[n], KeptRows(d)) == d.cols[n];
    }
  }

  // ---------------------------------------------------------------------------
  // The DataFrame object the cleaning code rebinds and updates in place

  class Frame {
    var names: seq<string>
    var cols: map<string, seq<Value>>
    var height: nat

    function View(): Table
      reads this
    {
      Table(names, cols, height)
    }

    ghost predicate Valid()
      reads this
    {
      WellFormed(View())
    }

    constructor (t: Table)
      requires WellFormed(t)
      ensures Valid() && View() == t
    {
      names, cols, height := t.names, t.cols, t.height;
    }

    /** `df[name] = values` */
    method Assign(name: string, values: seq<Value>)
      requires Valid() && |values| == height
      modifies this
      ensures Valid() && View() == WithColumn(old(View()), name, values)
    {
      if name !in cols {
        names := names + [name];
      }
      cols := cols[name := values];
    }

    /** `df.copy()` */
    method Copy() returns (f: Frame)
      requires Valid()
      ensures fresh(f) && f.Valid() && f.View() == View()
    {
      f := new Frame(View());
    }

    /** `df.dropna().copy()` */
    method DropNa() returns (f: Frame)
      requires Valid()
      ensures fresh(f) && f.Valid() && f.View() == DropMissing(View())
    {
      f := new Frame(DropMissing(View()));
    }
  }
}
