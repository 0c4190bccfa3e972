/** The part of a pandas DataFrame the pipeline relies on: labelled columns
    with a dtype each, rows of cells, label-based projection and dropping, the
    left merge and whole-row de-duplication. A cell is missing (`NaN`/`None`),
    a string, or an integer. Missing cells compare equal to each other, as
    pandas does when it matches merge keys and finds duplicate rows. */
module Frames {
  import opened Seqs

  datatype Cell = Null | Str(s: string) | Num(n: int)

  /** `object` (text) columns versus numeric ones. */
  datatype Dtype = Object | Numeric

  datatype Table = Table(columns: seq<string>, dtypes: seq<Dtype>, rows: seq<seq<Cell>>)

  /** One dtype per column and one cell per column in every row. */
  predicate WellFormed(t: Table)
  {
    |t.dtypes| == |t.columns| && forall i :: 0 <= i < |t.rows| ==> |t.rows[i]| == |t.columns|
  }

  /** `df[name]` as a sequence of cells, looked up by its first label. */
  function Column(t: Table, name: string): (r: Option<seq<Cell>>)
    requires WellFormed(t)
    ensures r.None? <==> name !in t.columns
    ensures r.Some? ==> (|r.value| == |t.rows| &&
      forall i :: 0 <= i < |t.rows| ==> r.value[i] == t.rows[i][IndexOf(t.columns, name).value])
  {
    match IndexOf(t.columns, name)
    case None => None
    case Some(j) => Some(seq(|t.rows|, i requires 0 <= i < |t.rows| => t.rows[i][j]))
  }

  /** The labels of `wanted` that `cols` has, in the order of `wanted`
      (`[c for c in wanted if c in df.columns]`). */
  function Existing(wanted: seq<string>, cols: seq<string>): (r: seq<string>)
    ensures forall i :: 0 <= i < |r| ==> r[i] in wanted && r[i] in cols
    ensures forall i :: 0 <= i < |wanted| && wanted[i] in cols ==> wanted[i] in r
    ensures |r| <= |wanted|
  {
    if wanted == [] then []
    else (if wanted[0] in cols then [wanted[0]] else []) + Existing(wanted[1..], cols)
  }

  /** Positions of the columns kept when `names` are dropped. */
  function KeptIndices(cols: seq<string>, names: seq<string>, from: nat): (r: seq<nat>)
    requires from <= |cols|
    ensures forall i :: 0 <= i < |r| ==> from <= r[i] < |cols| && cols[r[i]] !in names
    ensures forall j :: from <= j < |cols| && cols[j] !in names ==> j in r
    ensures forall i, k :: 0 <= i < k < |r| ==> r[i] < r[k]
    decreases |cols| - from
  {
    if from == |cols| then []
    else if cols[from] in names then KeptIndices(cols, names, from + 1)
    else [from] + KeptIndices(cols, names, from + 1)
  }

  /** The columns at positions `idx`, in that order. */
  function Pick(t: Table, idx: seq<nat>): (r: Table)
    requires WellFormed(t)
    requires forall i :: 0 <= i < |idx| ==> idx[i] < |t.columns|
    ensures WellFormed(r) && |r.columns| == |idx| && |r.rows| == |t.rows|
    ensures forall k :: 0 <= k < |idx| ==> r.columns[k] == t.columns[idx[k]] && r.dtypes[k] == t.dtypes[idx[k]]
    ensures forall i, k :: 0 <= i < |t.rows| && 0 <= k < |idx| ==> r.rows[i][k] == t.rows[i][idx[k]]
  {
    Table(seq(|idx|, k requires 0 <= k < |idx| => t.columns[idx[k]]),
          seq(|idx|, k requires 0 <= k < |idx| => t.dtypes[idx[k]]),
          seq(|t.rows|, i requires 0 <= i < |t.rows| =>
            seq(|idx|, k requires 0 <= k < |idx| => t.rows[i][idx[k]])))
  }

  /** `df.drop(columns=names)` for labels that are present: every column whose
      label is in `names` goes, the others keep their order, cells and dtype. */
  function DropColumns(t: Table, names: seq<string>): (r: Table)
    requires WellFormed(t)
    ensures WellFormed(r) && |r.rows| == |t.rows|
    ensures forall k :: 0 <= k < |r.columns| ==> r.columns[k] in t.columns && r.columns[k] !in names
    ensures forall j :: 0 <= j < |t.columns| && t.columns[j] !in names ==> t.columns[j] in r.columns
  {
    var idx := KeptIndices(t.columns, names, 0);
    Pick(t, idx)
  }

  /** With no label to drop, every position is kept. */
  lemma {:induction false} KeptIndicesAll(cols: seq<string>, names: seq<string>, from: nat)
    requires from <= |cols|
    requires forall j :: 0 <= j < |cols| ==> cols[j] !in names
    ensures |KeptIndices(cols, names, from)| == |cols| - from
    ensures forall i :: 0 <= i < |cols| - from ==> KeptIndices(cols, names, from)[i] == from + i
    decreases |cols| - from
  {
    if from < |cols| {
      var rest := KeptIndices(cols, names, from + 1);
      KeptIndicesAll(cols, names, from + 1);
      assert KeptIndices(cols, names, from) == [from] + rest by {
        assert cols[from] !in names;
      }
      ShiftedRange(rest, from);
    }
  }

  /** Putting `from` in front of `from + 1 ..` gives `from ..`. */
  lemma ShiftedRange(rest: seq<nat>, from: nat)
    requires forall i :: 0 <= i < |rest| ==> rest[i] == from + 1 + i
    ensures forall i :: 0 <= i < |rest| + 1 ==> ([from] + rest)[i] == from + i
  {
    forall i | 0 <= i < |rest| + 1 ensures ([from] + rest)[i] == from + i {
      if i > 0 {
        assert ([from] + rest)[i] == rest[i - 1];
      }
    }
  }

  /** Dropping labels the table does not carry changes nothing. */
  lemma DropNothing(t: Table, names: seq<string>)
    requires WellFormed(t)
    requires forall j :: 0 <= j < |t.columns| ==> t.columns[j] !in names
    ensures DropColumns(t, names) == t
  {
    KeptIndicesAll(t.columns, names, 0);
    PickAll(t, KeptIndices(t.columns, names, 0));
  }

  /** Picking every column in order gives the table back. */
  lemma PickAll(t: Table, idx: seq<nat>)
    requires WellFormed(t)
    requires |idx| == |t.columns| && forall k :: 0 <= k < |idx| ==> idx[k] == k
    ensures Pick(t, idx) == t
  {
    var r := Pick(t, idx);
    assert r.columns == t.columns;
    assert r.dtypes == t.dtypes;
    forall i | 0 <= i < |t.rows| ensures r.rows[i] == t.rows[i] {
      assert forall k :: 0 <= k < |idx| ==> r.rows[i][k] == t.rows[i][k];
    }
    assert r.rows == t.rows;
  }

  /** `df[[c for c in wanted if c in df.columns]]`: the requested columns that
      exist, in requested order, each looked up by its first label. */
  function SelectExisting(t: Table, wanted: seq<string>): (r: Table)
    requires WellFormed(t)
    ensures WellFormed(r) && |r.rows| == |t.rows|
    ensures r.columns == Existing(wanted, t.columns)
  {
    var names := Existing(wanted, t.columns);
    var idx := seq(|names|, k requires 0 <= k < |names| => IndexOf(t.columns, names[k]).value);
    Pick(t, idx)
  }

  /** `df.drop_duplicates()`: the first occurrence of every row, in order. */
  function DropDuplicateRows(t: Table): (r: Table)
    requires WellFormed(t)
    ensures WellFormed(r)
  {
    Table(t.columns, t.dtypes, Distinct(t.rows))
  }

  /** The missing cells of column `j` replaced by `v` (`df[col] = df[col].fillna(v)`). */
  function FillColumn(rows: seq<seq<Cell>>, j: nat, v: Cell): (r: seq<seq<Cell>>)
    requires forall i :: 0 <= i < |rows| ==> j < |rows[i]|
    ensures |r| == |rows|
    ensures forall i :: 0 <= i < |rows| ==> |r[i]| == |rows[i]|
    ensures forall i, k :: 0 <= i < |rows| && 0 <= k < |rows[i]| ==>
      r[i][k] == if k == j && rows[i][k] == Null then v else rows[i][k]
  {
    seq(|rows|, i requires 0 <= i < |rows| => rows[i][j := if rows[i][j] == Null then v else rows[i][j]])
  }

  /** Labels of a left merge. The right key column is left out when both
      sides share the key label (`on=`). A label found on both sides gets the
      suffix `_x` on the left and `_y` on the right. */
  function MergedColumns(lcols: seq<string>, rcols: seq<string>): seq<string>
  {
    seq(|lcols|, i requires 0 <= i < |lcols| => if lcols[i] in rcols then lcols[i] + "_x" else lcols[i])
    + seq(|rcols|, i requires 0 <= i < |rcols| => if rcols[i] in lcols then rcols[i] + "_y" else rcols[i])
  }

  /** The right columns that a merge appends: all of them, except the key when it is shared. */
  function RightPart(row: seq<Cell>, rk: nat, shared: bool): (r: seq<Cell>)
    requires rk < |row|
    ensures |r| == if shared then |row| - 1 else |row|
  {
    if shared then row[..rk] + row[rk + 1..] else row
  }

  /** The right rows whose key cell equals `key`, in right order. */
  function Matches(right: seq<seq<Cell>>, rk: nat, key: Cell): (r: seq<seq<Cell>>)
    requires forall i :: 0 <= i < |right| ==> rk < |right[i]|
    ensures forall i :: 0 <= i < |r| ==> r[i] in right && r[i][rk] == key
    ensures |r| <= |right|
  {
    if right == [] then []
    else (if right[0][rk] == key then [right[0]] else []) + Matches(right[1..], rk, key)
  }

  /** One left row joined with its matches, or with missing cells when none match. */
  function JoinRow(l: seq<Cell>, ms: seq<seq<Cell>>, rk: nat, shared: bool, width: nat): (r: seq<seq<Cell>>)
    requires rk < width
    requires forall i :: 0 <= i < |ms| ==> |ms[i]| == width
    ensures |r| == if ms == [] then 1 else |ms|
    ensures forall i :: 0 <= i < |r| ==> l <= r[i]
    ensures forall i :: 0 <= i < |r| ==> |r[i]| == |l| + (if shared then width - 1 else width)
  {
    if ms == [] then
      var pad := if shared then width - 1 else width;
      [l + seq(pad, _ => Null)]
    else
      seq(|ms|, i requires 0 <= i < |ms| => l + RightPart(ms[i], rk, shared))
  }

  /** The rows of `pd.merge(left, right, how='left')` on key positions `lk`
      and `rk`: left order, and for each left row its matches in right order. */
  function MergeRows(left: seq<seq<Cell>>, right: seq<seq<Cell>>, lk: nat, rk: nat, shared: bool, width: nat): (r: seq<seq<Cell>>)
    requires forall i :: 0 <= i < |left| ==> lk < |left[i]|
    requires rk < width && forall i :: 0 <= i < |right| ==> |right[i]| == width
    ensures |r| >= |left|
  {
    if left == [] then []
    else
      JoinRow(left[0], Matches(right, rk, left[0][lk]), rk, shared, width)
      + MergeRows(left[1..], right, lk, rk, shared, width)
  }

  /** Every merged row is as wide as a left row plus the right columns kept. */
  lemma {:induction false} MergeRowsWidth(left: seq<seq<Cell>>, right: seq<seq<Cell>>, lk: nat, rk: nat, shared: bool, width: nat, lw: nat)
    requires forall i :: 0 <= i < |left| ==> lk < |left[i]| && |left[i]| == lw
    requires rk < width && forall i :: 0 <= i < |right| ==> |right[i]| == width
    ensures forall i :: 0 <= i < |MergeRows(left, right, lk, rk, shared, width)| ==>
      |MergeRows(left, right, lk, rk, shared, width)[i]| == lw + (if shared then width - 1 else width)
  {
    if left != [] {
      MergeRowsWidth(left[1..], right, lk, rk, shared, width, lw);
    }
  }

  /** `pd.merge(left, right, left_on=lkey, right_on=rkey, how='left')`, or
      `on=lkey` when both keys carry the same label. `None` where pandas
      raises because a key label is missing. */
  function LeftMerge(left: Table, right: Table, lkey: string, rkey: string): (r: Option<Table>)
    requires WellFormed(left) && WellFormed(right)
    ensures r.None? <==> lkey !in left.columns || rkey !in right.columns
    ensures r.Some? ==> WellFormed(r.value) && |r.value.rows| >= |left.rows|
  {
    match (IndexOf(left.columns, lkey), IndexOf(right.columns, rkey))
    case (Some(lk), Some(rk)) =>
      var shared := lkey == rkey;
      var rcols := if shared then right.columns[..rk] + right.columns[rk + 1..] else right.columns;
      var rtypes := if shared then right.dtypes[..rk] + right.dtypes[rk + 1..] else right.dtypes;
      MergeRowsWidth(left.rows, right.rows, lk, rk, shared, |right.columns|, |left.columns|);
      Some(Table(MergedColumns(left.columns, rcols), left.dtypes + rtypes,
                 MergeRows(left.rows, right.rows, lk, rk, shared, |right.columns|)))
    case _ => None
  }

  /** A left label the right side does not carry keeps its name. */
  lemma LeftMergeKeepsLabel(left: Table, right: Table, lkey: string, rkey: string, c: string)
    requires WellFormed(left) && WellFormed(right)
    requires lkey in left.columns && rkey in right.columns
    requires c in left.columns && c !in right.columns
    ensures c in LeftMerge(left, right, lkey, rkey).value.columns
  {
    var lk, rk := IndexOf(left.columns, lkey).value, IndexOf(right.columns, rkey).value;
    var rcols := if lkey == rkey then right.columns[..rk] + right.columns[rk + 1..] else right.columns;
    assert c !in rcols;
    var i :| 0 <= i < |left.columns| && left.columns[i] == c;
    assert MergedColumns(left.columns, rcols)[i] == c;
  }

  /** Merging on a shared key held only by the right side's first column
      keeps the key's label. */
  lemma LeftMergeKeepsKey(left: Table, right: Table, key: string)
    requires WellFormed(left) && WellFormed(right)
    requires key in left.columns && |right.columns| > 0 && right.columns[0] == key
    requires key !in right.columns[1..]
    ensures key in LeftMerge(left, right, key, key).value.columns
  {
    assert IndexOf(right.columns, key) == Some(0);
    var rcols := right.columns[..0] + right.columns[1..];
    assert rcols == right.columns[1..];
    var i :| 0 <= i < |left.columns| && left.columns[i] == key;
    assert MergedColumns(left.columns, rcols)[i] == key;
  }

  /** When the right key column has no duplicates, the merge keeps every left
      row exactly once and in order, each extended by the right columns. */
  lemma LeftMergeUniqueKeys(left: Table, right: Table, lkey: string, rkey: string)
    requires WellFormed(left) && WellFormed(right)
    requires lkey in left.columns
    requires Column(right, rkey).Some? && NoDups(Column(right, rkey).value)
    ensures LeftMerge(left, right, lkey, rkey).Some?
    ensures |LeftMerge(left, right, lkey, rkey).value.rows| == |left.rows|
    ensures forall i :: 0 <= i < |left.rows| ==> left.rows[i] <= LeftMerge(left, right, lkey, rkey).value.rows[i]
  {
    var lk, rk := IndexOf(left.columns, lkey).value, IndexOf(right.columns, rkey).value;
    var col := Column(right, rkey).value;
    assert forall i :: 0 <= i < |right.rows| ==> right.rows[i][rk] == col[i];
    MergeRowsUniqueKeys(left.rows, right.rows, lk, rk, lkey == rkey, |right.columns|);
  }

  /** Against a right side whose key column has no duplicates, the merge keeps
      every left row exactly once, in order, extended by the right columns. */
  lemma {:induction false} MergeRowsUniqueKeys(left: seq<seq<Cell>>, right: seq<seq<Cell>>, lk: nat, rk: nat, shared: bool, width: nat)
    requires forall i :: 0 <= i < |left| ==> lk < |left[i]|
    requires rk < width && forall i :: 0 <= i < |right| ==> |right[i]| == width
    requires forall i, j :: 0 <= i < j < |right| ==> right[i][rk] != right[j][rk]
    ensures |MergeRows(left, right, lk, rk, shared, width)| == |left|
    ensures forall i :: 0 <= i < |left| ==> left[i] <= MergeRows(left, right, lk, rk, shared, width)[i]
  {
    if left != [] {
      var ms := Matches(right, rk, left[0][lk]);
      MatchesUnique(right, rk, left[0][lk]);
      MergeRowsUniqueKeys(left[1..], right, lk, rk, shared, width);
      var head := JoinRow(left[0], ms, rk, shared, width);
      var tail := MergeRows(left[1..], right, lk, rk, shared, width);
      assert |head| == 1;
      assert MergeRows(left, right, lk, rk, shared, width) == head + tail;
      forall i | 0 <= i < |left|
        ensures left[i] <= MergeRows(left, right, lk, rk, shared, width)[i]
      {
        if i > 0 {
          assert (head + tail)[i] == tail[i - 1];
          assert left[i] == left[1..][i - 1];
        }
      }
    }
  }

  /** With unique keys on the right, at most one right row matches. */
  lemma {:induction false} MatchesUnique(right: seq<seq<Cell>>, rk: nat, key: Cell)
    requires forall i :: 0 <= i < |right| ==> rk < |right[i]|
    requires forall i, j :: 0 <= i < j < |right| ==> right[i][rk] != right[j][rk]
    ensures |Matches(right, rk, key)| <= 1
  {
    if right != [] {
      MatchesUnique(right[1..], rk, key);
      if right[0][rk] == key {
        MatchesNone(right[1..], rk, key);
      }
    }
  }

  /** No row matches a key that no row carries. */
  lemma {:induction false} MatchesNone(right: seq<seq<Cell>>, rk: nat, key: Cell)
    requires forall i :: 0 <= i < |right| ==> rk < |right[i]| && right[i][rk] != key
    ensures Matches(right, rk, key) == []
  {
    if right != [] {
      MatchesNone(right[1..], rk, key);
    }
  }

  /** Some row of `rows` starts with `l`. */
  ghost predicate Extended(l: seq<Cell>, rows: seq<seq<Cell>>)
  {
    exists j :: 0 <= j < |rows| && l <= rows[j]
  }

  /** A row extended in `b` is extended in `a + b`. */
  lemma ExtendedAppend(l: seq<Cell>, a: seq<seq<Cell>>, b: seq<seq<Cell>>)
    requires Extended(l, b)
    ensures Extended(l, a + b)
  {
    var j :| 0 <= j < |b| && l <= b[j];
    assert (a + b)[|a| + j] == b[j];
  }

  /** A left merge never loses a left row: the first rows of its result
      start with the left rows in a pandas-ordered expansion. */
  lemma {:induction false} MergeRowsKeepsLeft(left: seq<seq<Cell>>, right: seq<seq<Cell>>, lk: nat, rk: nat, shared: bool, width: nat, i: nat)
    requires forall j :: 0 <= j < |left| ==> lk < |left[j]|
    requires rk < width && forall j :: 0 <= j < |right| ==> |right[j]| == width
    requires i < |left|
    ensures Extended(left[i], MergeRows(left, right, lk, rk, shared, width))
  {
    var head := JoinRow(left[0], Matches(right, rk, left[0][lk]), rk, shared, width);
    var tail := MergeRows(left[1..], right, lk, rk, shared, width);
    assert MergeRows(left, right, lk, rk, shared, width) == head + tail;
    if i == 0 {
      assert (head + tail)[0] == head[0];
    } else {
      MergeRowsKeepsLeft(left[1..], right, lk, rk, shared, width, i - 1);
      assert left[1..][i - 1] == left[i];
      ExtendedAppend(left[i], head, tail);
    }
  }

  /** A mutable frame: the pipeline's steps that overwrite the caller's
      `df.columns` act on one of these. */
  class DataFrame {
    var columns: seq<string>
    var dtypes: seq<Dtype>
    var rows: seq<seq<Cell>>

    constructor (t: Table)
      ensures Value() == t
    {
      columns, dtypes, rows := t.columns, t.dtypes, t.rows;
    }

    /** The frame's current contents. */
    function Value(): Table
      reads this
    {
      Table(columns, dtypes, rows)
    }
  }
}
