/** Cleaning of the consolidated Scopus export (`limpar_dataframe_scopus`):
    sparse columns are dropped, the remaining missing cells are filled with a
    per-dtype sentinel, and exact duplicate rows are removed. */
module ScopusCleaning {
  import opened Seqs
  import opened Frames

  /** Percentage of missing cells above which a column is dropped. */
  const Threshold: nat := 60

  /** What a missing text cell becomes. */
  const TextSentinel := "nao_informado"

  /** `df[col].isnull().sum()` for the column at position `j`. */
  function NullCount(rows: seq<seq<Cell>>, j: nat): (n: nat)
    requires forall i :: 0 <= i < |rows| ==> j < |rows[i]|
    ensures n <= |rows|
    ensures n == 0 <==> forall i :: 0 <= i < |rows| ==> rows[i][j] != Null
  {
    if rows == [] then 0 else (if rows[0][j] == Null then 1 else 0) + NullCount(rows[1..], j)
  }

  /** The column at `j` has more than 60 % missing cells. The percentage
      `nulls / rows * 100 > 60` is stated without division; with no rows the
      percentage is `NaN` and nothing is sparse. */
  predicate Sparse(t: Table, j: nat)
    requires WellFormed(t) && j < |t.columns|
  {
    NullCount(t.rows, j) * 100 > Threshold * |t.rows|
  }

  /** Labels of the sparse columns among the first `n`, in column order. */
  function SparseLabels(t: Table, n: nat): (r: seq<string>)
    requires WellFormed(t) && n <= |t.columns|
    ensures forall l :: l in r <==> exists j :: 0 <= j < n && t.columns[j] == l && Sparse(t, j)
  {
    if n == 0 then []
    else SparseLabels(t, n - 1) + (if Sparse(t, n - 1) then [t.columns[n - 1]] else [])
  }

  /** `fillna('nao_informado')` for text columns, `fillna(0)` for the others. */
  function FillValue(d: Dtype): Cell
  {
    if d == Object then Str(TextSentinel) else Num(0)
  }

  /** The rows once the first `n` columns have had their missing cells filled. */
  function FilledUpTo(t: Table, n: nat): (r: seq<seq<Cell>>)
    requires WellFormed(t)
    ensures |r| == |t.rows| && forall i :: 0 <= i < |r| ==> |r[i]| == |t.columns|
  {
    seq(|t.rows|, i requires 0 <= i < |t.rows| =>
      seq(|t.columns|, k requires 0 <= k < |t.columns| =>
        if k < n && t.rows[i][k] == Null then FillValue(t.dtypes[k]) else t.rows[i][k]))
  }

  /** Every missing cell replaced by its column's fill value. */
  function Filled(t: Table): (r: Table)
    requires WellFormed(t)
    ensures WellFormed(r) && r.columns == t.columns && r.dtypes == t.dtypes && |r.rows| == |t.rows|
  {
    Table(t.columns, t.dtypes, FilledUpTo(t, |t.columns|))
  }

  /** Filling column `n` moves the fill pass one column on; a column with no
      missing cell is left as it is. */
  lemma FillStep(t: Table, n: nat)
    requires WellFormed(t) && n < |t.columns|
    ensures NullCount(FilledUpTo(t, n), n) > 0 ==>
      FillColumn(FilledUpTo(t, n), n, FillValue(t.dtypes[n])) == FilledUpTo(t, n + 1)
    ensures NullCount(FilledUpTo(t, n), n) == 0 ==> FilledUpTo(t, n) == FilledUpTo(t, n + 1)
  {
    var a, b := FilledUpTo(t, n), FilledUpTo(t, n + 1);
    var f := FillColumn(a, n, FillValue(t.dtypes[n]));
    forall i | 0 <= i < |a| ensures f[i] == b[i] {
      assert forall k :: 0 <= k < |t.columns| ==> f[i][k] == b[i][k];
    }
    if NullCount(a, n) == 0 {
      forall i | 0 <= i < |a| ensures a[i] == b[i] {
        assert a[i][n] != Null;
        assert forall k :: 0 <= k < |t.columns| ==> a[i][k] == b[i][k];
      }
    }
  }

  /** What `limpar_dataframe_scopus` returns (numeric coercion aside): the
      columns that are not sparse, in order, with their dtypes. */
  function Cleaned(t: Table): (r: Table)
    requires WellFormed(t)
    ensures WellFormed(r) && |r.rows| <= |t.rows|
    ensures r.columns == DropColumns(t, SparseLabels(t, |t.columns|)).columns
    ensures r.dtypes == DropColumns(t, SparseLabels(t, |t.columns|)).dtypes
  {
    DropDuplicateRows(Filled(DropColumns(t, SparseLabels(t, |t.columns|))))
  }

  /** The threshold pass: the labels of the sparse columns, in column order
      (`percentual_ausente[percentual_ausente > limiar].index`). */
  method SparseColumnLabels(t: Table) returns (drop: seq<string>)
    requires WellFormed(t)
    ensures drop == SparseLabels(t, |t.columns|)
  {
    drop := [];
    var j := 0;
    while j < |t.columns|
      invariant 0 <= j <= |t.columns|
      invariant drop == SparseLabels(t, j)
    {
      if NullCount(t.rows, j) * 100 > Threshold * |t.rows| {
        drop := drop + [t.columns[j]];
      }
      j := j + 1;
    }
  }

  /** The fill pass: every column that has a missing cell gets its fill value. */
  method FillMissing(d: Table) returns (rows: seq<seq<Cell>>)
    requires WellFormed(d)
    ensures rows == Filled(d).rows
  {
    rows := d.rows;
    FilledNone(d);
    var j := 0;
    while j < |d.columns|
      invariant 0 <= j <= |d.columns|
      invariant rows == FilledUpTo(d, j)
    {
      rows := FillNext(d, j, rows);
      j := j + 1;
    }
  }

  /** One column of the fill pass: `fillna` when the column has a missing cell. */
  method FillNext(d: Table, j: nat, rows: seq<seq<Cell>>) returns (r: seq<seq<Cell>>)
    requires WellFormed(d) && j < |d.columns| && rows == FilledUpTo(d, j)
    ensures r == FilledUpTo(d, j + 1)
  {
    FillStep(d, j);
    if NullCount(rows, j) > 0 {
      r := FillColumn(rows, j, FillValue(d.dtypes[j]));
    } else {
      r := rows;
    }
  }

  /** Before the first column, nothing is filled. */
  lemma FilledNone(t: Table)
    requires WellFormed(t)
    ensures FilledUpTo(t, 0) == t.rows
  {
    forall i | 0 <= i < |t.rows| ensures t.rows[i] == FilledUpTo(t, 0)[i] {
      assert forall k :: 0 <= k < |t.columns| ==> t.rows[i][k] == FilledUpTo(t, 0)[i][k];
    }
  }

  /** `limpar_dataframe_scopus`: drop the sparse columns, fill the missing
      cells, and remove duplicate rows when there are any. */
  method CleanScopus(t: Table) returns (r: Table)
    requires WellFormed(t)
    ensures r == Cleaned(t)
  {
    var drop := SparseColumnLabels(t);
    var d := DropColumns(t, drop);
    var rows := FillMissing(d);
    if |rows| - |Distinct(rows)| > 0 {
      rows := Distinct(rows);
    } else {
      DistinctSameLength(rows);
    }
    r := Table(d.columns, d.dtypes, rows);
  }

  /** With distinct labels, a column survives exactly when at most 60 % of its
      cells are missing. */
  lemma ColumnSurvives(t: Table, j: nat)
    requires WellFormed(t) && NoDups(t.columns) && j < |t.columns|
    ensures t.columns[j] in Cleaned(t).columns <==> NullCount(t.rows, j) * 100 <= Threshold * |t.rows|
  {
    var names := SparseLabels(t, |t.columns|);
    var d := DropColumns(t, names);
    assert Cleaned(t).columns == d.columns;
    if Sparse(t, j) {
      assert t.columns[j] in names;
      assert t.columns[j] !in d.columns;
    } else {
      assert t.columns[j] !in names;
    }
  }

  /** No missing cell is left, and a cell that was missing holds its column's
      fill value: `'nao_informado'` in text columns, `0` elsewhere. */
  lemma FilledCells(t: Table, i: nat, k: nat)
    requires WellFormed(t) && i < |t.rows| && k < |t.columns|
    ensures Filled(t).rows[i][k] != Null
    ensures t.rows[i][k] == Null && t.dtypes[k] == Object ==> Filled(t).rows[i][k] == Str(TextSentinel)
    ensures t.rows[i][k] == Null && t.dtypes[k] != Object ==> Filled(t).rows[i][k] == Num(0)
    ensures t.rows[i][k] != Null ==> Filled(t).rows[i][k] == t.rows[i][k]
  {
  }

  /** The cleaned table has no missing cell and no repeated row; every filled
      row is kept, and the kept rows appear in the order of their first
      occurrence. */
  lemma CleanedRows(t: Table)
    requires WellFormed(t)
    ensures var c := Cleaned(t); var f := Filled(DropColumns(t, SparseLabels(t, |t.columns|)));
      && NoDups(c.rows)
      && (forall i, k :: 0 <= i < |c.rows| && 0 <= k < |c.rows[i]| ==> c.rows[i][k] != Null)
      && (forall i :: 0 <= i < |f.rows| ==> f.rows[i] in c.rows)
      && (forall i, j :: 0 <= i < j < |c.rows| ==> IndexOf(f.rows, c.rows[i]).value < IndexOf(f.rows, c.rows[j]).value)
  {
    var d := DropColumns(t, SparseLabels(t, |t.columns|));
    var f := Filled(d);
    var rs := Distinct(f.rows);
    assert Cleaned(t).rows == rs;
    forall i, k | 0 <= i < |rs| && 0 <= k < |rs[i]| ensures rs[i][k] != Null {
      assert rs[i] in f.rows;
      var p := IndexOf(f.rows, rs[i]).value;
      assert |f.rows[p]| == |d.columns|;
      FilledCells(d, p, k);
    }
    forall i, j | 0 <= i < j < |rs|
      ensures IndexOf(f.rows, rs[i]).value < IndexOf(f.rows, rs[j]).value
    {
      DistinctFirstSeen(f.rows, i, j);
    }
  }

  /** An empty table keeps every column. */
  lemma EmptyKeepsColumns(t: Table)
    requires WellFormed(t) && |t.rows| == 0
    ensures Cleaned(t).columns == t.columns
  {
    DropNothing(t, SparseLabels(t, |t.columns|));
  }
}
