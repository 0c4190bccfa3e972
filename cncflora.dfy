/** The CNCFlora red list (`processar_cncflora.py`): base cleaning, the
    multi-valued fields as dimensions with bridges, the simple dimensions,
    the fact table and its denormalised ("gorda") form. The column labels
    are standardised by `ColumnLabels.StandardizeCncfloraLabels`. */
module Cncflora {
  import opened Seqs
  import opened Text
  import opened Frames
  import opened Dimension

  /** The fill value for missing text, and the value the builders skip. */
  const Sentinel := "NAO INFORMADO"

  /* ---------------------------------------------------------------------- */
  /* Base cleaning                                                          */
  /* ---------------------------------------------------------------------- */

  /** `reset_index()` renamed to `avaliacao_id`: the row position as a new
      first, numeric column. */
  function WithEvaluationIds(t: Table): (r: Table)
    requires WellFormed(t)
    ensures WellFormed(r) && |r.rows| == |t.rows|
  {
    Table(["avaliacao_id"] + t.columns, [Numeric] + t.dtypes,
          seq(|t.rows|, i requires 0 <= i < |t.rows| => [Num(i)] + t.rows[i]))
  }

  /** `nome_popular` dropped when the table has it. */
  function WithoutPopularName(t: Table): (r: Table)
    requires WellFormed(t)
    ensures WellFormed(r) && |r.rows| == |t.rows|
  {
    if "nome_popular" in t.columns then DropColumns(t, ["nome_popular"]) else t
  }

  /** The rows once the first `n` columns have been visited by the fill:
      a missing cell of a text column holds the sentinel. */
  function TextFilledUpTo(t: Table, n: nat): (r: seq<seq<Cell>>)
    requires WellFormed(t)
    ensures |r| == |t.rows| && forall i :: 0 <= i < |r| ==> |r[i]| == |t.columns|
  {
    seq(|t.rows|, i requires 0 <= i < |t.rows| =>
      seq(|t.columns|, k requires 0 <= k < |t.columns| =>
        if k < n && t.dtypes[k] == Object && t.rows[i][k] == Null then Str(Sentinel) else t.rows[i][k]))
  }

  /** What `limpar_dados_base_cncflora` returns (numeric coercion of
      `data_avaliacao` aside). */
  function BaseCleaned(t: Table): (r: Table)
    requires WellFormed(t)
    ensures WellFormed(r)
  {
    var d := WithoutPopularName(WithEvaluationIds(t));
    Table(d.columns, d.dtypes, TextFilledUpTo(d, |d.columns|))
  }

  /** Visiting column `n` moves the fill one column on. */
  lemma TextFillStep(t: Table, n: nat)
    requires WellFormed(t) && n < |t.columns|
    ensures t.dtypes[n] == Object ==> FillColumn(TextFilledUpTo(t, n), n, Str(Sentinel)) == TextFilledUpTo(t, n + 1)
    ensures t.dtypes[n] != Object ==> TextFilledUpTo(t, n) == TextFilledUpTo(t, n + 1)
  {
    var a, b := TextFilledUpTo(t, n), TextFilledUpTo(t, n + 1);
    if t.dtypes[n] == Object {
      var f := FillColumn(a, n, Str(Sentinel));
      forall i | 0 <= i < |a| ensures f[i] == b[i] {
        assert forall k :: 0 <= k < |t.columns| ==> f[i][k] == b[i][k];
      }
    } else {
      forall i | 0 <= i < |a| ensures a[i] == b[i] {
        assert forall k :: 0 <= k < |t.columns| ==> a[i][k] == b[i][k];
      }
    }
  }

  /** Before the fill visits any column, the rows are as they were. */
  lemma TextFilledNone(t: Table)
    requires WellFormed(t)
    ensures TextFilledUpTo(t, 0) == t.rows
  {
    var a := TextFilledUpTo(t, 0);
    forall i | 0 <= i < |a| ensures a[i] == t.rows[i] {
      assert forall k :: 0 <= k < |t.columns| ==> a[i][k] == t.rows[i][k];
    }
  }

  /** The fill loop: `fillna('NAO INFORMADO')` on every text column, in
      column order. */
  method FillTextColumns(d: Table) returns (rows: seq<seq<Cell>>)
    requires WellFormed(d)
    ensures rows == TextFilledUpTo(d, |d.columns|)
  {
    rows := d.rows;
    TextFilledNone(d);
    var j := 0;
    while j < |d.columns|
      invariant 0 <= j <= |d.columns|
      invariant rows == TextFilledUpTo(d, j)
    {
      TextFillStep(d, j);
      if d.dtypes[j] == Object {
        rows := FillColumn(rows, j, Str(Sentinel));
      }
      j := j + 1;
    }
  }

  /** `limpar_dados_base_cncflora`: number the rows, drop `nome_popular`,
      and fill the missing cells of every text column. */
  method CleanBase(t: Table) returns (r: Table)
    requires WellFormed(t)
    ensures r == BaseCleaned(t)
  {
    var d := WithEvaluationIds(t);
    if "nome_popular" in d.columns {
      d := DropColumns(d, ["nome_popular"]);
    }
    var rows := FillTextColumns(d);
    r := Table(d.columns, d.dtypes, rows);
  }

  /** The first kept position is the first position, when that one is kept. */
  lemma KeptIndicesFirst(cols: seq<string>, names: seq<string>)
    requires |cols| > 0 && cols[0] !in names
    ensures |KeptIndices(cols, names, 0)| > 0 && KeptIndices(cols, names, 0)[0] == 0
  {
    assert KeptIndices(cols, names, 0) == [0] + KeptIndices(cols, names, 1);
  }

  /** `avaliacao_id` is the first column of the cleaned table, numeric, and
      numbers the rows 0..n-1. */
  lemma EvaluationIds(t: Table)
    requires WellFormed(t)
    ensures var r := BaseCleaned(t);
      |r.rows| == |t.rows| && |r.columns| > 0 && r.columns[0] == "avaliacao_id" && r.dtypes[0] == Numeric &&
      forall i :: 0 <= i < |r.rows| ==> r.rows[i][0] == Num(i)
  {
    var e := WithEvaluationIds(t);
    var d := WithoutPopularName(e);
    if "nome_popular" in e.columns {
      KeptIndicesFirst(e.columns, ["nome_popular"]);
      var idx := KeptIndices(e.columns, ["nome_popular"], 0);
      assert d.columns[0] == e.columns[idx[0]];
      forall i | 0 <= i < |d.rows| ensures d.rows[i][0] == Num(i) {
        assert d.rows[i][0] == e.rows[i][idx[0]];
      }
    }
    var r := BaseCleaned(t);
    forall i | 0 <= i < |r.rows| ensures r.rows[i][0] == Num(i) {
      assert r.rows[i][0] == TextFilledUpTo(d, |d.columns|)[i][0];
    }
  }

  /** `nome_popular` is gone from the cleaned table and every other label is
      kept. */
  lemma BaseCleanedLabels(t: Table)
    requires WellFormed(t)
    ensures "nome_popular" !in BaseCleaned(t).columns
    ensures forall c :: c in t.columns && c != "nome_popular" ==> c in BaseCleaned(t).columns
  {
    var e := WithEvaluationIds(t);
    var d := WithoutPopularName(e);
    assert BaseCleaned(t).columns == d.columns;
    forall c | c in t.columns && c != "nome_popular" ensures c in d.columns {
      assert c in e.columns;
    }
  }

  /** No text cell of the cleaned table is missing; a missing text cell has
      become the sentinel and every other cell is unchanged. */
  lemma BaseCleanedCells(t: Table, i: nat, k: nat)
    requires WellFormed(t)
    requires i < |BaseCleaned(t).rows| && k < |BaseCleaned(t).columns|
    ensures var d := WithoutPopularName(WithEvaluationIds(t)); var r := BaseCleaned(t);
      (d.dtypes[k] == Object ==> r.rows[i][k] != Null) &&
      (d.rows[i][k] == Null && d.dtypes[k] == Object ==> r.rows[i][k] == Str(Sentinel)) &&
      (d.rows[i][k] != Null || d.dtypes[k] != Object ==> r.rows[i][k] == d.rows[i][k])
  {
  }

  /* ---------------------------------------------------------------------- */
  /* Multi-valued fields: `criar_dim_e_ponte`                               */
  /* ---------------------------------------------------------------------- */

  /** The exploded `(id, value)` rows: every text field other than the
      sentinel, split on the literal delimiter, stripped, empty pieces
      removed. */
  function PieceRows(t: Table, idColumn: string, field: string, delim: string): seq<(Cell, string)>
    requires WellFormed(t) && idColumn in t.columns && field in t.columns && delim != ""
  {
    Explode(Column(t, idColumn).value, Column(t, field).value, Sentinel, (s: string) => SplitStrip(s, delim))
  }

  /** The `.str` accessor of the field refuses it: the column is not of
      object dtype, or, once the sentinel rows are filtered out, it holds a
      number and no text (pandas then infers a numeric type, which `.str`
      does not accept). */
  predicate SplitFails(t: Table, field: string)
    requires WellFormed(t) && field in t.columns
  {
    var j := IndexOf(t.columns, field).value;
    t.dtypes[j] != Object ||
    ((exists i :: 0 <= i < |t.rows| && t.rows[i][j].Num?) &&
     forall i :: 0 <= i < |t.rows| && t.rows[i][j].Str? ==> t.rows[i][j].s == Sentinel)
  }

  /** A field `criar_dim_e_ponte` can split. */
  predicate Splittable(t: Table, field: string)
    requires WellFormed(t)
  {
    field in t.columns && !SplitFails(t, field)
  }

  /** `criar_dim_e_ponte`: `None` where pandas raises, for a missing column
      or for a field `.str.split` refuses; otherwise the dimension (distinct
      values in first-seen order, ids their positions) and the bridge (one
      row per piece, in order, not de-duplicated). */
  function DimAndBridge(t: Table, idColumn: string, field: string, delim: string): (r: Option<(seq<(nat, string)>, seq<(Cell, nat)>)>)
    requires WellFormed(t) && delim != ""
    ensures r.None? <==> idColumn !in t.columns || field !in t.columns || SplitFails(t, field)
  {
    if idColumn !in t.columns || field !in t.columns || SplitFails(t, field) then None
    else
      var rows := PieceRows(t, idColumn, field, delim);
      Some((Numbered(Values(rows)), SelfLink(rows)))
  }

  /** Record `i` holds the value `v` in `field`: the field is text other than
      the sentinel and `v` is one of its non-empty stripped pieces. */
  ghost predicate Holds(t: Table, field: string, delim: string, i: nat, v: string)
    requires WellFormed(t) && field in t.columns && delim != ""
  {
    var f := Column(t, field).value;
    i < |t.rows| && f[i].Str? && f[i].s != Sentinel && v != "" &&
    exists p :: p in SplitOn(f[i].s, delim) && Strip(p) == v
  }

  /** An exploded row is exactly a value a record holds, under its id. */
  lemma PieceRowsExact(t: Table, idColumn: string, field: string, delim: string, e: Cell, v: string)
    requires WellFormed(t) && idColumn in t.columns && field in t.columns && delim != ""
    ensures (e, v) in PieceRows(t, idColumn, field, delim) <==>
      exists i: nat :: Holds(t, field, delim, i, v) && Column(t, idColumn).value[i] == e
  {
    var ids, f := Column(t, idColumn).value, Column(t, field).value;
    var split := (s: string) => SplitStrip(s, delim);
    ExplodeExact(ids, f, Sentinel, split, e, v);
    if (e, v) in PieceRows(t, idColumn, field, delim) {
      var i :| 0 <= i < |f| && ids[i] == e && f[i].Str? && f[i].s != Sentinel && v in split(f[i].s);
      SplitStripExact(f[i].s, delim, v);
      assert Holds(t, field, delim, i, v);
    }
    if exists i: nat :: Holds(t, field, delim, i, v) && ids[i] == e {
      var i: nat :| Holds(t, field, delim, i, v) && ids[i] == e;
      SplitStripExact(f[i].s, delim, v);
    }
  }

  /** The dimension numbers distinct values by position. */
  lemma DimDistinct(t: Table, idColumn: string, field: string, delim: string)
    requires WellFormed(t) && idColumn in t.columns && Splittable(t, field) && delim != ""
    ensures var d := DimAndBridge(t, idColumn, field, delim).value.0;
      (forall k :: 0 <= k < |d| ==> d[k].0 == k) &&
      (forall k, m :: 0 <= k < m < |d| ==> d[k].1 != d[m].1)
  {
    assert NoDups(Values(PieceRows(t, idColumn, field, delim)));
  }

  /** A value is in the dimension exactly when some record holds it. */
  lemma DimExact(t: Table, idColumn: string, field: string, delim: string, v: string)
    requires WellFormed(t) && idColumn in t.columns && Splittable(t, field) && delim != ""
    ensures var d := DimAndBridge(t, idColumn, field, delim).value.0;
      (exists k :: 0 <= k < |d| && d[k].1 == v) <==> exists i: nat :: Holds(t, field, delim, i, v)
  {
    var rows := PieceRows(t, idColumn, field, delim);
    NumberedValuesExact(rows, DimAndBridge(t, idColumn, field, delim).value.0, v);
    PieceRowsHeld(t, idColumn, field, delim, v);
  }

  /** A value has an exploded row exactly when some record holds it. */
  lemma PieceRowsHeld(t: Table, idColumn: string, field: string, delim: string, v: string)
    requires WellFormed(t) && idColumn in t.columns && field in t.columns && delim != ""
    ensures (exists e :: (e, v) in PieceRows(t, idColumn, field, delim)) <==> exists i: nat :: Holds(t, field, delim, i, v)
  {
    if exists i: nat :: Holds(t, field, delim, i, v) {
      var i: nat :| Holds(t, field, delim, i, v);
      PieceRowsExact(t, idColumn, field, delim, Column(t, idColumn).value[i], v);
    }
    if exists e :: (e, v) in PieceRows(t, idColumn, field, delim) {
      var e :| (e, v) in PieceRows(t, idColumn, field, delim);
      PieceRowsExact(t, idColumn, field, delim, e, v);
    }
  }

  /** The bridge has one row per exploded piece, in order: the record's id
      and the id of the dimension row holding the piece. */
  lemma BridgeRows(t: Table, idColumn: string, field: string, delim: string)
    requires WellFormed(t) && idColumn in t.columns && Splittable(t, field) && delim != ""
    ensures var rows := PieceRows(t, idColumn, field, delim);
      var d := DimAndBridge(t, idColumn, field, delim).value.0;
      var b := DimAndBridge(t, idColumn, field, delim).value.1;
      |b| == |rows| &&
      forall i :: 0 <= i < |b| ==> b[i].0 == rows[i].0 && b[i].1 < |d| && d[b[i].1].1 == rows[i].1
  {
  }

  /** The bridge is not de-duplicated: a value repeated in one record's field
      gives the same bridge row twice. */
  lemma BridgeKeepsRepeats(t: Table, idColumn: string, field: string, delim: string, i: nat, j: nat)
    requires WellFormed(t) && idColumn in t.columns && Splittable(t, field) && delim != ""
    requires i < j < |PieceRows(t, idColumn, field, delim)|
    requires PieceRows(t, idColumn, field, delim)[i] == PieceRows(t, idColumn, field, delim)[j]
    ensures var b := DimAndBridge(t, idColumn, field, delim).value.1;
      |b| > j && b[i] == b[j]
  {
    var rows := PieceRows(t, idColumn, field, delim);
    var vals := Values(rows);
    var b := SelfLink(rows);
    assert vals[b[i].1] == vals[b[j].1];
    assert NoDups(vals);
  }

  /** The bridge links the id `e` to the dimension row `k` exactly when a
      record with that id holds the value of row `k`. */
  lemma BridgeExact(t: Table, idColumn: string, field: string, delim: string, e: Cell, k: nat)
    requires WellFormed(t) && idColumn in t.columns && Splittable(t, field) && delim != ""
    ensures var d := DimAndBridge(t, idColumn, field, delim).value.0;
      (e, k) in DimAndBridge(t, idColumn, field, delim).value.1 <==>
      k < |d| && exists i: nat :: Holds(t, field, delim, i, d[k].1) && Column(t, idColumn).value[i] == e
  {
    var rows := PieceRows(t, idColumn, field, delim);
    SelfLinkExact(rows, e, k);
    if k < |Values(rows)| {
      PieceRowsExact(t, idColumn, field, delim, e, Values(rows)[k]);
    }
  }

  /** Text with no delimiter and no surrounding whitespace. */
  predicate Plain(s: string, delim: char)
  {
    s != "" && !IsSpace(s[0]) && !IsSpace(s[|s| - 1]) && forall k :: 0 <= k < |s| ==> s[k] != delim
  }

  /** `"a| b |".split('|')` gives three pieces, the last one empty. */
  lemma TrailingDelimiterPieces(a: string, b: string)
    requires Plain(a, '|') && Plain(b, '|')
    ensures SplitOn(a + "| " + b + " |", "|") == [a, " " + b + " ", ""]
  {
    var m := " " + b + " ";
    assert forall k :: 0 <= k < |m| ==> m[k] != '|' by {
      forall k | 0 <= k < |m| ensures m[k] != '|' {
        if 0 < k < |m| - 1 {
          assert m[k] == b[k - 1];
        }
      }
    }
    assert a + "| " + b + " |" == a + ['|'] + (m + ['|'] + "");
    SplitOnChar(a, '|', m + ['|'] + "");
    SplitOnChar(m, '|', "");
    SplitOnAbsent("", '|');
  }

  /** Stripping the three pieces of `"a| b |"` leaves `a`, `b` and `""`. */
  lemma TrailingDelimiterStripped(a: string, b: string)
    requires Plain(a, '|') && Plain(b, '|')
    ensures StripAll([a, " " + b + " ", ""]) == [a, b, ""]
  {
    StripFixed(a);
    StripPadded(b);
    StripFixed("");
  }

  /** Keeping the non-empty pieces of `[a, b, ""]` drops the last one. */
  lemma EmptyLastDropped(a: string, b: string)
    requires a != "" && b != ""
    ensures Filter([a, b, ""], NonEmpty) == [a, b]
  {
    var st := [a, b, ""];
    assert Filter(st[2..], NonEmpty) == [] by {
      assert st[2..][1..] == [];
    }
    assert Filter(st[1..], NonEmpty) == [b] by {
      assert st[1..][1..] == st[2..];
    }
    assert st[1..] == [b, ""];
  }

  /** A field such as `"Rosa| Tabebuia |"` holds exactly its two names: the
      pieces are stripped and the empty piece after the last `|` is
      dropped. */
  lemma TrailingDelimiterDropped(a: string, b: string)
    requires Plain(a, '|') && Plain(b, '|')
    ensures SplitStrip(a + "| " + b + " |", "|") == [a, b]
  {
    TrailingDelimiterPieces(a, b);
    TrailingDelimiterStripped(a, b);
    EmptyLastDropped(a, b);
  }

  /* ---------------------------------------------------------------------- */
  /* Simple dimensions                                                      */
  /* ---------------------------------------------------------------------- */

  /** `pd.DataFrame(df[column].unique(), columns=[label])` with
      `reset_index()` renamed to `idLabel`: `dim_grupo` and
      `dim_categoria_risco`. `None` where pandas raises for a missing
      column. */
  function ValueDim(t: Table, column: string, valueLabel: string, idLabel: string): (r: Option<Table>)
    requires WellFormed(t)
    ensures r.None? <==> column !in t.columns
    ensures r.Some? ==> WellFormed(r.value) && r.value.columns == [idLabel, valueLabel]
  {
    if column !in t.columns then None
    else
      var vals := Distinct(Column(t, column).value);
      Some(Table([idLabel, valueLabel], [Numeric, t.dtypes[IndexOf(t.columns, column).value]],
                 seq(|vals|, k requires 0 <= k < |vals| => [Num(k), vals[k]])))
  }

  /** A simple dimension lists every distinct cell of its column once, in
      first-seen order, under the id `k` at row `k`. */
  lemma ValueDimExact(t: Table, column: string, valueLabel: string, idLabel: string, c: Cell)
    requires WellFormed(t) && column in t.columns && valueLabel != idLabel
    ensures var d := ValueDim(t, column, valueLabel, idLabel).value;
      var col := Column(t, column).value; var vals := Column(d, valueLabel).value;
      (forall k :: 0 <= k < |d.rows| ==> d.rows[k][0] == Num(k)) &&
      NoDups(vals) && (c in vals <==> c in col) &&
      (forall k, m :: 0 <= k < m < |vals| ==> IndexOf(col, vals[k]).value < IndexOf(col, vals[m]).value)
  {
    var d := ValueDim(t, column, valueLabel, idLabel).value;
    var col := Column(t, column).value;
    var dv := Distinct(col);
    assert IndexOf(d.columns, valueLabel) == Some(1);
    var vals := Column(d, valueLabel).value;
    assert vals == dv;
    forall k, m | 0 <= k < m < |vals| ensures IndexOf(col, vals[k]).value < IndexOf(col, vals[m]).value {
      DistinctFirstSeen(col, k, m);
    }
  }

  /** `dim_especies_temp`: the terms list as read, with `especie_id` the row
      position; nothing is de-duplicated. */
  function SpeciesDim(terms: seq<(Cell, Cell)>): (r: Table)
    ensures WellFormed(r) && r.columns == ["especie_id", "nome_cientifico", "grupo_taxonomico"]
    ensures |r.rows| == |terms|
  {
    Table(["especie_id", "nome_cientifico", "grupo_taxonomico"], [Numeric, Object, Object],
          seq(|terms|, k requires 0 <= k < |terms| => [Num(k), terms[k].0, terms[k].1]))
  }

  /** Every term keeps its row, and the ids number the rows. */
  lemma SpeciesDimExact(terms: seq<(Cell, Cell)>)
    ensures var d := SpeciesDim(terms);
      NoDups(Column(d, "especie_id").value) &&
      forall k :: 0 <= k < |terms| ==>
        Column(d, "especie_id").value[k] == Num(k) && Column(d, "nome_cientifico").value[k] == terms[k].0
  {
    var d := SpeciesDim(terms);
    assert IndexOf(d.columns, "especie_id") == Some(0);
    assert IndexOf(d.columns, "nome_cientifico") == Some(1);
  }

  /* ---------------------------------------------------------------------- */
  /* Fact table                                                             */
  /* ---------------------------------------------------------------------- */

  /** The fact columns, in the order requested. */
  const FactColumns := ["avaliacao_id", "especie_id", "grupo_id", "categoria_risco_id",
                        "data_avaliacao", "reavaliacao", "historico_de_avaliacoes"]

  /** The three left merges of the cleaned table: species on the evaluated
      name, group on `grupo`, risk category on the category. */
  function MergedFacts(base: Table, groups: Table, risks: Table, species: Table): (r: Option<Table>)
    requires WellFormed(base) && WellFormed(groups) && WellFormed(risks) && WellFormed(species)
    ensures r.Some? ==> WellFormed(r.value)
  {
    match LeftMerge(base, species, "nome_avaliado_entrada_sistema_cncflora", "nome_cientifico")
    case None => None
    case Some(m1) =>
      match LeftMerge(m1, groups, "grupo", "grupo_nome")
      case None => None
      case Some(m2) => LeftMerge(m2, risks, "categoria_de_risco_de_extincao", "categoria_risco")
  }

  /** `criar_tabela_fato_cncflora`: the merges, then the fact columns that
      exist, in requested order. `None` where pandas raises for a missing
      key. */
  function EvaluationFacts(base: Table, groups: Table, risks: Table, species: Table): (r: Option<Table>)
    requires WellFormed(base) && WellFormed(groups) && WellFormed(risks) && WellFormed(species)
    ensures r.None? <==> MergedFacts(base, groups, risks, species).None?
    ensures r.Some? ==> (WellFormed(r.value) &&
      r.value.columns == Existing(FactColumns, MergedFacts(base, groups, risks, species).value.columns))
  {
    match MergedFacts(base, groups, risks, species)
    case None => None
    case Some(m) => Some(SelectExisting(m, FactColumns))
  }

  /** With unique names on the right of each merge, the merges keep every
      evaluation exactly once and in order, extended by the dimension
      columns; so the fact table has one row per evaluation. */
  lemma EvaluationFactsKeepRows(base: Table, groups: Table, risks: Table, species: Table)
    requires WellFormed(base) && WellFormed(groups) && WellFormed(risks) && WellFormed(species)
    requires "nome_avaliado_entrada_sistema_cncflora" in base.columns
    requires "grupo" in base.columns && "grupo" !in species.columns
    requires "categoria_de_risco_de_extincao" in base.columns
    requires "categoria_de_risco_de_extincao" !in species.columns && "categoria_de_risco_de_extincao" !in groups.columns
    requires Column(species, "nome_cientifico").Some? && NoDups(Column(species, "nome_cientifico").value)
    requires Column(groups, "grupo_nome").Some? && NoDups(Column(groups, "grupo_nome").value)
    requires Column(risks, "categoria_risco").Some? && NoDups(Column(risks, "categoria_risco").value)
    ensures MergedFacts(base, groups, risks, species).Some?
    ensures |MergedFacts(base, groups, risks, species).value.rows| == |base.rows|
    ensures forall i :: 0 <= i < |base.rows| ==> base.rows[i] <= MergedFacts(base, groups, risks, species).value.rows[i]
    ensures |EvaluationFacts(base, groups, risks, species).value.rows| == |base.rows|
  {
    var k1 := "nome_avaliado_entrada_sistema_cncflora";
    LeftMergeUniqueKeys(base, species, k1, "nome_cientifico");
    var m1 := LeftMerge(base, species, k1, "nome_cientifico").value;
    LeftMergeKeepsLabel(base, species, k1, "nome_cientifico", "grupo");
    LeftMergeKeepsLabel(base, species, k1, "nome_cientifico", "categoria_de_risco_de_extincao");
    LeftMergeUniqueKeys(m1, groups, "grupo", "grupo_nome");
    var m2 := LeftMerge(m1, groups, "grupo", "grupo_nome").value;
    LeftMergeKeepsLabel(m1, groups, "grupo", "grupo_nome", "categoria_de_risco_de_extincao");
    LeftMergeUniqueKeys(m2, risks, "categoria_de_risco_de_extincao", "categoria_risco");
    var m3 := LeftMerge(m2, risks, "categoria_de_risco_de_extincao", "categoria_risco").value;
    forall i | 0 <= i < |base.rows| ensures base.rows[i] <= m3.rows[i] {
      assert base.rows[i] <= m1.rows[i] <= m2.rows[i] <= m3.rows[i];
    }
  }

  /* ---------------------------------------------------------------------- */
  /* Denormalised output: `criar_saida_otimizada_looker`                    */
  /* ---------------------------------------------------------------------- */

  /** The first column of every simple dimension: its key. */
  function Keys(dims: seq<Table>): (r: seq<string>)
    requires forall k :: 0 <= k < |dims| ==> |dims[k].columns| > 0
    ensures |r| == |dims| && forall k :: 0 <= k < |dims| ==> r[k] == dims[k].columns[0]
  {
    seq(|dims|, k requires 0 <= k < |dims| => dims[k].columns[0])
  }

  /** Dimensions a fact table can be widened with: well formed, each with a
      first column. */
  predicate Joinable(dims: seq<Table>)
  {
    forall k :: 0 <= k < |dims| ==> WellFormed(dims[k]) && |dims[k].columns| > 0
  }

  /** The facts after the first `n` dimensions have been merged in on their
      keys. */
  function Widened(f: Table, dims: seq<Table>, n: nat): (r: Option<Table>)
    requires WellFormed(f) && Joinable(dims) && n <= |dims|
    ensures r.Some? ==> WellFormed(r.value)
  {
    if n == 0 then Some(f)
    else
      match Widened(f, dims, n - 1)
      case None => None
      case Some(g) => LeftMerge(g, dims[n - 1], dims[n - 1].columns[0], dims[n - 1].columns[0])
  }

  /** `criar_saida_otimizada_looker`: every dimension merged in on its key,
      then every key dropped. `None` where pandas raises (a merge key or a
      dropped valueLabel is missing). */
  function WideFacts(f: Table, dims: seq<Table>): (r: Option<Table>)
    requires WellFormed(f) && Joinable(dims)
  {
    match Widened(f, dims, |dims|)
    case None => None
    case Some(g) =>
      if forall k :: 0 <= k < |dims| ==> dims[k].columns[0] in g.columns
      then Some(DropColumns(g, Keys(dims)))
      else None
  }

  /** One more dimension merged in. */
  lemma WidenedNext(f: Table, dims: seq<Table>, i: nat)
    requires WellFormed(f) && Joinable(dims) && i < |dims|
    ensures Widened(f, dims, i).None? ==> Widened(f, dims, i + 1).None?
    ensures Widened(f, dims, i).Some? ==>
      Widened(f, dims, i + 1) == LeftMerge(Widened(f, dims, i).value, dims[i], dims[i].columns[0], dims[i].columns[0])
  {
  }

  /** Each key labels only its own dimension's first column, and each key
      column is unique. */
  predicate SeparateKeys(dims: seq<Table>)
    requires Joinable(dims)
  {
    (forall k :: 0 <= k < |dims| ==>
       dims[k].columns[0] !in dims[k].columns[1..] && NoDups(Column(dims[k], dims[k].columns[0]).value)) &&
    forall k, j :: 0 <= k < |dims| && 0 <= j < |dims| && k != j ==> dims[j].columns[0] !in dims[k].columns
  }

  /** Every dimension's key labels a column of `g`. */
  predicate HasKeys(g: Table, dims: seq<Table>)
    requires Joinable(dims)
  {
    forall k :: 0 <= k < |dims| ==> dims[k].columns[0] in g.columns
  }

  /** `g` exists, has one row per fact row, extending that row, and carries
      every dimension's key. */
  predicate RowsKept(f: Table, g: Option<Table>, dims: seq<Table>)
    requires Joinable(dims)
  {
    g.Some? && |g.value.rows| == |f.rows| && HasKeys(g.value, dims) &&
    forall r :: 0 <= r < |f.rows| ==> f.rows[r] <= g.value.rows[r]
  }

  /** Merging in one dimension on its key keeps every row once, in order,
      and every key label. */
  lemma MergeStep(g: Table, dims: seq<Table>, n: nat)
    requires WellFormed(g) && Joinable(dims) && SeparateKeys(dims) && HasKeys(g, dims) && n < |dims|
    ensures var key := dims[n].columns[0]; var h := LeftMerge(g, dims[n], key, key);
      h.Some? && |h.value.rows| == |g.rows| && HasKeys(h.value, dims) &&
      forall i :: 0 <= i < |g.rows| ==> g.rows[i] <= h.value.rows[i]
  {
    var d := dims[n];
    var key := d.columns[0];
    assert IndexOf(d.columns, key) == Some(0);
    LeftMergeUniqueKeys(g, d, key, key);
    var h := LeftMerge(g, d, key, key).value;
    forall k | 0 <= k < |dims| ensures dims[k].columns[0] in h.columns {
      if k == n {
        LeftMergeKeepsKey(g, d, key);
      } else {
        LeftMergeKeepsLabel(g, d, key, key, dims[k].columns[0]);
      }
    }
  }

  /** After `n` merges the loop holds the widened facts, which keep every
      fact row when the keys are separate and the facts carry them. */
  predicate MergedUpTo(f: Table, dims: seq<Table>, n: nat, g: Option<Table>)
    requires WellFormed(f) && Joinable(dims) && n <= |dims|
  {
    g == Widened(f, dims, n) &&
    (SeparateKeys(dims) && HasKeys(f, dims) ==> RowsKept(f, g, dims))
  }

  /** Before the first merge, the facts are as they were. */
  lemma MergedNone(f: Table, dims: seq<Table>)
    requires WellFormed(f) && Joinable(dims)
    ensures MergedUpTo(f, dims, 0, Some(f))
  {
  }

  /** The merge loop of `criar_saida_otimizada_looker`. With separate keys
      that the facts carry, every merge succeeds, keeps every fact row once
      and in order, and keeps every key label. */
  method MergeDims(f: Table, dims: seq<Table>) returns (g: Option<Table>)
    requires WellFormed(f) && Joinable(dims)
    ensures g == Widened(f, dims, |dims|)
    ensures SeparateKeys(dims) && HasKeys(f, dims) ==> RowsKept(f, g, dims)
  {
    g := Some(f);
    MergedNone(f, dims);
    var i := 0;
    while i < |dims|
      invariant 0 <= i <= |dims|
      invariant MergedUpTo(f, dims, i, g)
    {
      g := MergeNext(f, dims, i, g);
      i := i + 1;
    }
  }

  /** One pass of the merge loop: `pd.merge(fato_gorda, df_dim, on=chave_fk,
      how='left')`. */
  method MergeNext(f: Table, dims: seq<Table>, i: nat, g: Option<Table>) returns (h: Option<Table>)
    requires WellFormed(f) && Joinable(dims) && i < |dims|
    requires MergedUpTo(f, dims, i, g)
    ensures MergedUpTo(f, dims, i + 1, h)
  {
    WidenedNext(f, dims, i);
    h := g;
    if g.Some? {
      if SeparateKeys(dims) && HasKeys(f, dims) {
        MergeStep(g.value, dims, i);
      }
      h := LeftMerge(g.value, dims[i], dims[i].columns[0], dims[i].columns[0]);
    }
  }

  /** `criar_saida_otimizada_looker`: the merge loop, then the drop of the
      keys. With separate keys that the facts carry, the wide table has one
      row per fact row and none of the keys. */
  method WideOutput(f: Table, dims: seq<Table>) returns (r: Option<Table>)
    requires WellFormed(f) && Joinable(dims)
    ensures r == WideFacts(f, dims)
    ensures SeparateKeys(dims) && HasKeys(f, dims) ==>
      r.Some? && |r.value.rows| == |f.rows| &&
      forall k :: 0 <= k < |dims| ==> dims[k].columns[0] !in r.value.columns
  {
    var g := MergeDims(f, dims);
    if g.None? {
      return None;
    }
    var keys := Keys(dims);
    if forall k :: 0 <= k < |keys| ==> keys[k] in g.value.columns {
      r := Some(DropColumns(g.value, keys));
      forall k | 0 <= k < |dims| ensures dims[k].columns[0] !in r.value.columns {
        assert keys[k] in keys;
      }
    } else {
      r := None;
    }
  }
}
