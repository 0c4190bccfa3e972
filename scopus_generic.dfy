/** `criar_modelo_generico`: a multi-valued Scopus column (keywords, index
    terms, ...) becomes a dimension of distinct upper-cased values, each under
    a fresh id, and a bridge of distinct (article, id) pairs. */
module ScopusGeneric {
  import opened Seqs
  import opened Text
  import opened Frames
  import opened Dimension

  /** The cleaning sentinel: records holding it contribute nothing. */
  const Sentinel := "nao_informado"

  /** `str.split(r'\s*;\s*')` then `str.upper().str.strip()` on every piece;
      empty pieces stay. */
  function Pieces(s: string): (r: seq<string>)
    ensures |r| == |SemicolonSplit(s)|
    ensures forall k :: 0 <= k < |r| ==> r[k] == Strip(Upper(SemicolonSplit(s)[k]))
  {
    seq(|SemicolonSplit(s)|, k requires 0 <= k < |SemicolonSplit(s)| => Strip(Upper(SemicolonSplit(s)[k])))
  }

  /** The exploded (eid, value) rows of the column `column`. */
  function Exploded(t: Table, column: string): seq<(Cell, string)>
    requires WellFormed(t) && column in t.columns && "eid" in t.columns
  {
    Explode(Column(t, "eid").value, Column(t, column).value, Sentinel, Pieces)
  }

  /** The dimension: (id, value) for every distinct value, in first-seen order. */
  function DimensionRows(rows: seq<(Cell, string)>, ids: nat -> string): (d: seq<(string, string)>)
    ensures |d| == |Values(rows)|
    ensures forall k :: 0 <= k < |d| ==> d[k] == (ids(k), Values(rows)[k])
  {
    seq(|Values(rows)|, k requires 0 <= k < |Values(rows)| => (ids(k), Values(rows)[k]))
  }

  /** `criar_modelo_generico(df, column, entity)`: `None` when `column` or
      `eid` is missing, otherwise the dimension and the bridge. The ids are
      drawn from `ids` (one `uuid4()` per dimension row). */
  function GenericModel(t: Table, column: string, ids: nat -> string): (r: Option<(seq<(string, string)>, seq<(Cell, string)>)>)
    requires WellFormed(t)
    ensures r.None? <==> column !in t.columns || "eid" !in t.columns
  {
    if column !in t.columns || "eid" !in t.columns then None
    else
      var rows := Exploded(t, column);
      Some((DimensionRows(rows, ids), KeyedBridge(rows, ids)))
  }

  /** A record's field yields `v` when `v` is one of its normalised pieces
      and the field is a string other than the sentinel. */
  ghost predicate Yields(t: Table, column: string, i: nat, e: Cell, v: string)
    requires WellFormed(t) && column in t.columns && "eid" in t.columns
  {
    && i < |t.rows|
    && Column(t, "eid").value[i] == e
    && Column(t, column).value[i].Str?
    && Column(t, column).value[i].s != Sentinel
    && v in Pieces(Column(t, column).value[i].s)
  }

  /** An exploded row is a normalised piece of a kept record, with its eid. */
  lemma ExplodedYields(t: Table, column: string, e: Cell, v: string)
    requires WellFormed(t) && column in t.columns && "eid" in t.columns
    ensures (e, v) in Exploded(t, column) <==> exists i :: Yields(t, column, i, e, v)
  {
    var eids, field := Column(t, "eid").value, Column(t, column).value;
    ExplodeExact(eids, field, Sentinel, Pieces, e, v);
    if (e, v) in Exploded(t, column) {
      var i :| 0 <= i < |field| && eids[i] == e && field[i].Str? && field[i].s != Sentinel && v in Pieces(field[i].s);
      assert Yields(t, column, i, e, v);
    }
  }

  /** The dimension's values are distinct, and so are its ids when the id
      supply never repeats. */
  lemma GenericDimensionUnique(t: Table, column: string, ids: nat -> string)
    requires WellFormed(t) && column in t.columns && "eid" in t.columns
    ensures var d := GenericModel(t, column, ids).value.0;
      && (forall i, j :: 0 <= i < j < |d| ==> d[i].1 != d[j].1)
      && (Injective(ids) ==> forall i, j :: 0 <= i < j < |d| ==> d[i].0 != d[j].0)
  {
    var rows := Exploded(t, column);
    var d := GenericModel(t, column, ids).value.0;
    assert d == DimensionRows(rows, ids);
    assert NoDups(Values(rows));
  }

  /** A value is in the dimension exactly when it is a normalised piece of
      some kept record. */
  lemma GenericDimensionExact(t: Table, column: string, ids: nat -> string, v: string)
    requires WellFormed(t) && column in t.columns && "eid" in t.columns
    ensures var d := GenericModel(t, column, ids).value.0;
      (exists k :: 0 <= k < |d| && d[k].1 == v) <==> exists i, e :: Yields(t, column, i, e, v)
  {
    var rows := Exploded(t, column);
    var d := GenericModel(t, column, ids).value.0;
    assert d == DimensionRows(rows, ids);
    assert (exists k :: 0 <= k < |d| && d[k].1 == v) <==> v in Values(rows) by {
      if v in Values(rows) {
        var k :| 0 <= k < |Values(rows)| && Values(rows)[k] == v;
        assert d[k].1 == v;
      }
    }
    ValuesPairs(rows, v);
    if v in Values(rows) {
      var e :| (e, v) in rows;
      ExplodedYields(t, column, e, v);
      var i :| Yields(t, column, i, e, v);
    }
    if exists i, e :: Yields(t, column, i, e, v) {
      var i, e :| Yields(t, column, i, e, v);
      ExplodedYields(t, column, e, v);
    }
  }

  /** Dimension values appear in the order of their first exploded occurrence. */
  lemma GenericFirstSeen(t: Table, column: string, ids: nat -> string, i: nat, j: nat)
    requires WellFormed(t) && column in t.columns && "eid" in t.columns
    requires i < j < |GenericModel(t, column, ids).value.0|
    ensures var d := GenericModel(t, column, ids).value.0; var col := ValueColumn(Exploded(t, column));
      d[i].1 in col && d[j].1 in col && IndexOf(col, d[i].1).value < IndexOf(col, d[j].1).value
  {
    DistinctFirstSeen(ValueColumn(Exploded(t, column)), i, j);
  }

  /** The bridge: its pairs are distinct; every id in it is a dimension id; and
      a record is linked to the id of a value exactly when one of its
      normalised pieces is that value. */
  lemma GenericBridge(t: Table, column: string, ids: nat -> string, e: Cell, k: nat)
    requires WellFormed(t) && column in t.columns && "eid" in t.columns
    requires Injective(ids)
    ensures var m := GenericModel(t, column, ids).value; var d := m.0; var b := m.1;
      && NoDups(b)
      && (forall p :: 0 <= p < |b| ==> exists q :: 0 <= q < |d| && b[p].1 == d[q].0)
      && ((e, ids(k)) in b <==> k < |d| && exists i :: Yields(t, column, i, e, d[k].1))
  {
    var rows := Exploded(t, column);
    var m := GenericModel(t, column, ids).value;
    var d, b := m.0, m.1;
    forall p | 0 <= p < |b| ensures exists q :: 0 <= q < |d| && b[p].1 == d[q].0 {
      KeyedBridgeClosed(rows, ids, p);
      var q :| 0 <= q < |Values(rows)| && b[p].1 == ids(q);
      assert d[q].0 == ids(q);
    }
    KeyedBridgeExact(rows, ids, e, k);
    if k < |d| {
      ExplodedYields(t, column, e, d[k].1);
    }
  }

  /** A trailing `;` leaves an empty piece, which becomes the value `""`. */
  lemma EmptyPieceKept(a: string)
    requires forall k :: 0 <= k < |a| ==> a[k] != ';'
    requires a != [] && !IsSpace(a[|a| - 1])
    ensures Pieces(a + ";") == [Strip(Upper(a)), ""]
  {
    var s := a + ";";
    SemicolonSplitTrailing(a);
    var p := Pieces(s);
    assert |p| == 2 && p[0] == Strip(Upper(a)) && p[1] == Strip(Upper([]));
    assert Upper([]) == [];
    StripFixed([]);
    assert p == [p[0], p[1]];
  }

}
