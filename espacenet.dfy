/** The Espacenet patent export (`processar_espacenet.py`): initial cleaning,
    the party, country and IPC dimensions with their bridges, the
    patent-species bridge and the fact table. */
module Espacenet {
  import opened Seqs
  import opened Text
  import opened Frames
  import opened Dimension
  import opened ColumnLabels

  /** The fill value for missing text, and the value the builders skip. */
  const Sentinel := "NAO INFORMADO"

  /** The columns the initial cleaning turns into text, in the order it
      visits them. */
  const TextColumns := ["inventors", "applicants", "ipc", "cpc", "publication_number", "publication_date"]

  /* ---------------------------------------------------------------------- */
  /* Initial cleaning                                                       */
  /* ---------------------------------------------------------------------- */

  /** `'unnamed' in str(col).lower()`. */
  predicate IsUnnamed(col: string)
  {
    Find(Lower(col), "unnamed").Some?
  }

  /** Decimal digits of a natural number. */
  function Digits(n: nat): (r: string)
    ensures |r| >= 1 && forall k :: 0 <= k < |r| ==> IsDigit(r[k])
  {
    if n < 10 then [('0' as int + n) as char]
    else Digits(n / 10) + [('0' as int + n % 10) as char]
  }

  /** `str(n)` for an integer. */
  function IntText(n: int): (r: string)
    ensures |r| >= 1 && (r[0] == '-' || IsDigit(r[0]))
  {
    if n < 0 then "-" + Digits(-n) else Digits(n)
  }

  /** `astype(str)` on one cell, then `fillna('NAO INFORMADO')`, in the order
      written: a missing cell has already become the text `"nan"`, so the
      fill finds nothing to fill. */
  function TextCellAsWritten(c: Cell): (r: Cell)
    ensures r.Str?
    ensures c.Str? ==> r == c
  {
    match c
    case Null => Str("nan")
    case Str(_) => c
    case Num(n) => Str(IntText(n))
  }

  /** The cell as the cleaning evidently means it: a missing cell becomes
      the sentinel, every other cell its text. */
  function TextCell(c: Cell): (r: Cell)
    ensures r.Str?
    ensures c.Null? <==> r == Str(Sentinel) && c != Str(Sentinel)
    ensures !c.Null? ==> r == TextCellAsWritten(c)
  {
    if c.Null? then Str(Sentinel) else TextCellAsWritten(c)
  }

  /** As written, a missing cell never becomes the sentinel: it becomes
      `"nan"`, which the builders then treat as a value. */
  lemma MissingBecomesNan()
    ensures TextCellAsWritten(Null) == Str("nan") && TextCellAsWritten(Null) != Str(Sentinel)
  {
  }

  /** The order in which the cleaning converts a listed column: as written,
      `astype(str)` before `fillna` (so a missing cell becomes `"nan"`), or
      the fill first, as the cleaning evidently means. */
  datatype Order = AsWritten | FillFirst

  /** One cell of a listed column once converted in the given order: always
      text, and text cells and numbers convert the same in both orders. */
  function CellText(o: Order, c: Cell): (r: Cell)
    ensures r.Str? && (c.Str? ==> r == c)
    ensures !c.Null? ==> r == TextCellAsWritten(c)
    ensures c.Null? ==> r == if o == AsWritten then Str("nan") else Str(Sentinel)
  {
    if o == AsWritten then TextCellAsWritten(c) else TextCell(c)
  }

  /** The column at `j` turned into text. */
  function TextColumn(o: Order, t: Table, j: nat): (r: Table)
    requires WellFormed(t) && j < |t.columns|
    ensures WellFormed(r) && r.columns == t.columns && |r.rows| == |t.rows|
    ensures r.dtypes == t.dtypes[j := Object]
    ensures forall i, k :: 0 <= i < |t.rows| && 0 <= k < |t.columns| ==>
      r.rows[i][k] == if k == j then CellText(o, t.rows[i][k]) else t.rows[i][k]
  {
    Table(t.columns, t.dtypes[j := Object],
      seq(|t.rows|, i requires 0 <= i < |t.rows| => t.rows[i][j := CellText(o, t.rows[i][j])]))
  }

  /** `df[col] = df[col].astype(str).fillna(...)` when `col` is present
      (the first column of that label), nothing otherwise. */
  function TextStep(o: Order, t: Table, col: string): (r: Table)
    requires WellFormed(t)
    ensures WellFormed(r) && r.columns == t.columns && |r.rows| == |t.rows|
  {
    match IndexOf(t.columns, col)
    case None => t
    case Some(j) => TextColumn(o, t, j)
  }

  /** The table once the first `n` of the listed columns have been visited. */
  function TextUpTo(o: Order, t: Table, n: nat): (r: Table)
    requires WellFormed(t) && n <= |TextColumns|
    ensures WellFormed(r) && r.columns == t.columns && |r.rows| == |t.rows|
  {
    if n == 0 then t else TextStep(o, TextUpTo(o, t, n - 1), TextColumns[n - 1])
  }

  /** The table without its columns whose label contains `unnamed`. */
  function Named(t: Table): (r: Table)
    requires WellFormed(t)
    ensures WellFormed(r) && |r.rows| == |t.rows|
    ensures forall c :: c in r.columns <==> c in t.columns && !IsUnnamed(c)
  {
    var r := DropColumns(t, Filter(t.columns, IsUnnamed));
    assert forall c :: c in Filter(t.columns, IsUnnamed) <==> c in t.columns && IsUnnamed(c);
    r
  }

  /** Every label replaced by its normal form. */
  function Relabelled(t: Table): (r: Table)
    requires WellFormed(t)
    ensures WellFormed(r) && |r.columns| == |t.columns| && r.rows == t.rows
    ensures forall k :: 0 <= k < |t.columns| ==> r.columns[k] == EspacenetLabel(t.columns[k])
  {
    Table(seq(|t.columns|, k requires 0 <= k < |t.columns| => EspacenetLabel(t.columns[k])), t.dtypes, t.rows)
  }

  /** What `limpeza_inicial_espacenet` returns when the listed columns are
      converted in order `o`: `AsWritten` is the function as written. */
  function Cleaned(o: Order, t: Table): (r: Table)
    requires WellFormed(t)
    ensures WellFormed(r) && |r.rows| == |t.rows| && r.columns == Relabelled(Named(t)).columns
  {
    TextUpTo(o, Relabelled(Named(t)), |TextColumns|)
  }

  /** `limpeza_inicial_espacenet` as written: the unnamed columns are
      dropped, the labels normalised one by one, and the listed columns
      turned into text one by one, `astype(str)` before the fill. */
  method InitialCleaning(t: Table) returns (r: Table)
    requires WellFormed(t)
    ensures r == Cleaned(AsWritten, t)
  {
    r := Relabel(t);
    r := TextLoop(AsWritten, r);
  }

  /** The cleaning as evidently intended: the same, with missing cells of
      the listed columns filled before they are turned into text. */
  method CorrectedCleaning(t: Table) returns (r: Table)
    requires WellFormed(t)
    ensures r == Cleaned(FillFirst, t)
  {
    r := Relabel(t);
    r := TextLoop(FillFirst, r);
  }

  /** The drop of the unnamed columns and the label loop. */
  method Relabel(t: Table) returns (r: Table)
    requires WellFormed(t)
    ensures r == Relabelled(Named(t))
  {
    var unnamed := Filter(t.columns, IsUnnamed);
    var d := DropColumns(t, unnamed);
    var labels := NormalizeLabels(d.columns);
    r := d.(columns := labels);
  }

  /** The loop that builds `novas_colunas`. */
  method NormalizeLabels(cols: seq<string>) returns (labels: seq<string>)
    ensures |labels| == |cols|
    ensures forall k :: 0 <= k < |cols| ==> labels[k] == EspacenetLabel(cols[k])
  {
    labels := [];
    var i := 0;
    while i < |cols|
      invariant 0 <= i <= |cols|
      invariant |labels| == i
      invariant forall k :: 0 <= k < i ==> labels[k] == EspacenetLabel(cols[k])
    {
      labels := labels + [EspacenetLabel(cols[i])];
      i := i + 1;
    }
  }

  /** The loop over the listed columns. */
  method TextLoop(o: Order, t: Table) returns (r: Table)
    requires WellFormed(t)
    ensures r == TextUpTo(o, t, |TextColumns|)
  {
    r := t;
    var n := 0;
    while n < |TextColumns|
      invariant 0 <= n <= |TextColumns|
      invariant r == TextUpTo(o, t, n)
    {
      r := TextStep(o, r, TextColumns[n]);
      n := n + 1;
    }
  }

  /** The cleaning keeps every row, and each of its labels is the
      normalised label of a column whose label does not contain `unnamed`;
      each is made of `[a-z0-9_]`. */
  lemma CleanedLabelsSound(o: Order, t: Table)
    requires WellFormed(t)
    ensures var r := Cleaned(o, t);
      && |r.rows| == |t.rows|
      && (forall k :: 0 <= k < |r.columns| ==> exists j :: 0 <= j < |t.columns| && !IsUnnamed(t.columns[j]) && r.columns[k] == EspacenetLabel(t.columns[j]))
      && (forall k :: 0 <= k < |r.columns| ==> forall m :: 0 <= m < |r.columns[k]| ==> IsLabelChar(r.columns[k][m]))
  {
    var d := Named(t);
    var r := Cleaned(o, t);
    forall k | 0 <= k < |r.columns|
      ensures exists j :: 0 <= j < |t.columns| && !IsUnnamed(t.columns[j]) && r.columns[k] == EspacenetLabel(t.columns[j])
    {
      assert d.columns[k] in d.columns;
      var j :| 0 <= j < |t.columns| && t.columns[j] == d.columns[k];
    }
    forall k | 0 <= k < |r.columns| ensures forall m :: 0 <= m < |r.columns[k]| ==> IsLabelChar(r.columns[k][m]) {
      LabelsCanonical(d.columns[k]);
    }
  }

  /** Every column whose label does not contain `unnamed` keeps its
      normalised label. */
  lemma CleanedLabelsComplete(o: Order, t: Table, j: nat)
    requires WellFormed(t) && j < |t.columns| && !IsUnnamed(t.columns[j])
    ensures EspacenetLabel(t.columns[j]) in Cleaned(o, t).columns
  {
    var d := Named(t);
    assert t.columns[j] in d.columns;
    var k :| 0 <= k < |d.columns| && d.columns[k] == t.columns[j];
    assert Cleaned(o, t).columns[k] == EspacenetLabel(t.columns[j]);
  }

  /** The listed labels are distinct. */
  lemma TextColumnsDistinct()
    ensures NoDups(TextColumns)
  {
  }

  /** Each listed column is converted exactly once, at its own step: its
      cells are unchanged before that step and converted once after it, in
      the given order. */
  lemma {:induction false} TextUpToCell(o: Order, t: Table, n: nat, m: nat, i: nat)
    requires WellFormed(t) && n <= |TextColumns| && m < |TextColumns|
    requires TextColumns[m] in t.columns && i < |t.rows|
    ensures var j := IndexOf(t.columns, TextColumns[m]).value;
      TextUpTo(o, t, n).rows[i][j] == if m < n then CellText(o, t.rows[i][j]) else t.rows[i][j]
  {
    var j := IndexOf(t.columns, TextColumns[m]).value;
    if n > 0 {
      var prev := TextUpTo(o, t, n - 1);
      TextUpToCell(o, t, n - 1, m, i);
      assert j < |t.columns|;
      match IndexOf(prev.columns, TextColumns[n - 1])
      case None =>
        assert m != n - 1;
      case Some(q) =>
        if m != n - 1 {
          TextColumnsDistinct();
          assert q != j;
        }
        assert TextUpTo(o, t, n).rows[i][j] == if q == j then CellText(o, prev.rows[i][j]) else prev.rows[i][j];
    }
  }

  /** After the cleaning, a listed column that exists holds, row by row, its
      cell before the conversion converted once: text, and `"nan"` as
      written or the sentinel when corrected where the cell was missing. */
  lemma CleanedColumn(o: Order, t: Table, c: string, i: nat)
    requires WellFormed(t) && c in TextColumns
    requires Column(Cleaned(o, t), c).Some? && i < |t.rows|
    ensures Column(Cleaned(o, t), c).value[i] == CellText(o, Column(Relabelled(Named(t)), c).value[i])
    ensures Column(Cleaned(o, t), c).value[i].Str?
  {
    var rl := Relabelled(Named(t));
    var m := IndexOf(TextColumns, c).value;
    TextUpToCell(o, rl, |TextColumns|, m, i);
  }

  /** As written, a missing cell of a listed column is the text `"nan"`
      after the cleaning, never the sentinel. */
  lemma MissingCellAsWritten(t: Table, c: string, i: nat)
    requires WellFormed(t) && c in TextColumns
    requires Column(Cleaned(AsWritten, t), c).Some? && i < |t.rows|
    requires Column(Relabelled(Named(t)), c).value[i] == Null
    ensures Column(Cleaned(AsWritten, t), c).value[i] == Str("nan")
  {
    CleanedColumn(AsWritten, t, c, i);
  }

  /** After the cleaning, every party cell is text, so the party builders
      never meet a missing or numeric party. */
  lemma CleanedPartyCellsText(o: Order, t: Table)
    requires WellFormed(t) && HasPartyColumns(Cleaned(o, t))
    ensures forall i :: 0 <= i < |Cleaned(o, t).rows| ==>
      Column(Cleaned(o, t), "inventors").value[i].Str? && Column(Cleaned(o, t), "applicants").value[i].Str?
  {
    forall i | 0 <= i < |Cleaned(o, t).rows|
      ensures Column(Cleaned(o, t), "inventors").value[i].Str? && Column(Cleaned(o, t), "applicants").value[i].Str?
    {
      CleanedColumn(o, t, "inventors", i);
      CleanedColumn(o, t, "applicants", i);
    }
  }

  /* ---------------------------------------------------------------------- */
  /* Parties                                                                */
  /* ---------------------------------------------------------------------- */

  /** The columns the party and country builders read. */
  predicate HasPartyColumns(t: Table)
  {
    "publication_number" in t.columns && "inventors" in t.columns && "applicants" in t.columns
  }

  /** `str.split(',')`, `explode`, `str.strip()` and `!= ''` on one field. */
  function PartyPieces(s: string): seq<string>
  {
    SplitStrip(s, ",")
  }

  /** A party piece is exactly a non-empty stripped comma piece. */
  lemma PartyPiecesExact(s: string, v: string)
    ensures v in PartyPieces(s) <==> v != "" && exists p :: p in SplitOn(s, ",") && Strip(p) == v
  {
    SplitStripExact(s, ",", v);
  }

  /** `role.str.replace('s', '')` on the melted column label. */
  function Role(column: string): string
  {
    RemoveChars(column, {'s'})
  }

  /** The two roles a party row can carry. */
  lemma RoleNames()
    ensures Role("inventors") == "inventor" && Role("applicants") == "applicant"
  {
    assert "inventor" + "s" == "inventors";
    assert "applicant" + "s" == "applicants";
    RoleOfPlural("inventor");
    RoleOfPlural("applicant");
  }

  /** The role of a plural column label is its singular. */
  lemma RoleOfPlural(x: string)
    requires forall k :: 0 <= k < |x| ==> x[k] != 's'
    ensures Role(x + "s") == x
  {
    RemoveCharsAppend(x, "s", {'s'});
    RemoveAbsent(x, {'s'});
  }

  /** The melt keys of one value column: every record's publication number
      with the role of the column. */
  function MeltKeys(pubs: seq<Cell>, role: string): (r: seq<(Cell, string)>)
    ensures |r| == |pubs| && forall i :: 0 <= i < |pubs| ==> r[i] == (pubs[i], role)
  {
    seq(|pubs|, i requires 0 <= i < |pubs| => (pubs[i], role))
  }

  /** The exploded party rows of one role column. */
  function RoleRows(t: Table, column: string): seq<((Cell, string), string)>
    requires WellFormed(t) && HasPartyColumns(t) && column in t.columns
  {
    Explode(MeltKeys(Column(t, "publication_number").value, Role(column)), Column(t, column).value, Sentinel, PartyPieces)
  }

  /** `melt` over inventors then applicants, the sentinel filter, the split
      and the empty-piece filter: every inventor row precedes every
      applicant row. */
  function PartyRows(t: Table): seq<((Cell, string), string)>
    requires WellFormed(t) && HasPartyColumns(t)
  {
    RoleRows(t, "inventors") + RoleRows(t, "applicants")
  }

  /** The linked rows reordered as `(publication_number, party_id, role)`. */
  function Triples(l: seq<((Cell, string), nat)>): (r: seq<(Cell, nat, string)>)
    ensures |r| == |l| && forall i :: 0 <= i < |l| ==> r[i] == (l[i].0.0, l[i].1, l[i].0.1)
  {
    seq(|l|, i requires 0 <= i < |l| => (l[i].0.0, l[i].1, l[i].0.1))
  }

  /** `merge` against the dimension, `[['publication_number', 'party_id',
      'role']]` and `drop_duplicates()`. */
  function PartyBridge(rows: seq<((Cell, string), string)>): seq<(Cell, nat, string)>
  {
    Distinct(Triples(SelfLink(rows)))
  }

  /** `criar_modelo_parties`: `None` where pandas raises for a missing
      column, otherwise the dimension and the bridge. */
  function PartyModel(t: Table): (r: Option<(seq<(nat, string)>, seq<(Cell, nat, string)>)>)
    requires WellFormed(t)
    ensures r.None? <==> !HasPartyColumns(t)
  {
    if !HasPartyColumns(t) then None
    else Some((PartyDim(t), PartyBridge(PartyRows(t))))
  }

  /** `dim_parties`. */
  function PartyDim(t: Table): seq<(nat, string)>
    requires WellFormed(t) && HasPartyColumns(t)
  {
    Numbered(Values(PartyRows(t)))
  }

  /** Record `i` names the party `v` in the role column `column`: the field
      is text other than the sentinel and `v` is one of its pieces. */
  ghost predicate Names(t: Table, column: string, i: nat, v: string)
    requires WellFormed(t) && column in t.columns
  {
    i < |t.rows| && Column(t, column).value[i].Str? && Column(t, column).value[i].s != Sentinel
      && v in PartyPieces(Column(t, column).value[i].s)
  }

  /** A party row is a piece of a record's role column, under the record's
      publication number and that column's role. */
  lemma RoleRowsExact(t: Table, column: string, p: Cell, role: string, v: string)
    requires WellFormed(t) && HasPartyColumns(t) && column in t.columns
    ensures ((p, role), v) in RoleRows(t, column) <==>
      role == Role(column) && exists i: nat :: Names(t, column, i, v) && Column(t, "publication_number").value[i] == p
  {
    var pubs := Column(t, "publication_number").value;
    var keys := MeltKeys(pubs, Role(column));
    var field := Column(t, column).value;
    ExplodeExact(keys, field, Sentinel, PartyPieces, (p, role), v);
    if ((p, role), v) in RoleRows(t, column) {
      var i :| 0 <= i < |field| && keys[i] == (p, role) && field[i].Str? && field[i].s != Sentinel && v in PartyPieces(field[i].s);
      assert Names(t, column, i, v);
    }
    if role == Role(column) && exists i: nat :: Names(t, column, i, v) && pubs[i] == p {
      var i: nat :| Names(t, column, i, v) && pubs[i] == p;
      assert keys[i] == (p, role);
    }
  }

  /** A party row names its party in its record. */
  lemma PartyRowNames(t: Table, key: (Cell, string), v: string)
    requires WellFormed(t) && HasPartyColumns(t) && (key, v) in PartyRows(t)
    ensures exists i: nat :: Names(t, "inventors", i, v) || Names(t, "applicants", i, v)
  {
    RoleRowsExact(t, "inventors", key.0, key.1, v);
    RoleRowsExact(t, "applicants", key.0, key.1, v);
  }

  /** Every name a record gives in a role column has its party row. */
  lemma NamesPartyRow(t: Table, i: nat, v: string)
    requires WellFormed(t) && HasPartyColumns(t)
    requires Names(t, "inventors", i, v) || Names(t, "applicants", i, v)
    ensures exists key :: (key, v) in PartyRows(t)
  {
    var p := Column(t, "publication_number").value[i];
    if Names(t, "inventors", i, v) {
      RoleRowsExact(t, "inventors", p, Role("inventors"), v);
      assert ((p, Role("inventors")), v) in PartyRows(t);
    } else {
      RoleRowsExact(t, "applicants", p, Role("applicants"), v);
      assert ((p, Role("applicants")), v) in PartyRows(t);
    }
  }

  /** The party dimension: no name twice, and a name is in it exactly when
      some record names it as inventor or applicant. */
  lemma PartyDimExact(t: Table, v: string)
    requires WellFormed(t) && HasPartyColumns(t)
    ensures forall i, j :: 0 <= i < j < |PartyDim(t)| ==> PartyDim(t)[i].1 != PartyDim(t)[j].1
    ensures (exists k :: 0 <= k < |PartyDim(t)| && PartyDim(t)[k].1 == v) <==>
      exists i: nat :: Names(t, "inventors", i, v) || Names(t, "applicants", i, v)
  {
    NumberedValuesExact(PartyRows(t), PartyDim(t), v);
    PartyRowsNamed(t, v);
  }

  /** A name has a party row exactly when some record names it. */
  lemma PartyRowsNamed(t: Table, v: string)
    requires WellFormed(t) && HasPartyColumns(t)
    ensures (exists key :: (key, v) in PartyRows(t)) <==>
      exists i: nat :: Names(t, "inventors", i, v) || Names(t, "applicants", i, v)
  {
    if exists key :: (key, v) in PartyRows(t) {
      var key: (Cell, string) :| (key, v) in PartyRows(t);
      PartyRowNames(t, key, v);
    }
    if exists i: nat :: Names(t, "inventors", i, v) || Names(t, "applicants", i, v) {
      var i: nat :| Names(t, "inventors", i, v) || Names(t, "applicants", i, v);
      NamesPartyRow(t, i, v);
    }
  }

  /** A bridge triple is a party row with its name replaced by its
      position in the dimension. */
  lemma PartyBridgeRows(rows: seq<((Cell, string), string)>, p: Cell, k: nat, role: string)
    ensures (p, k, role) in PartyBridge(rows) <==> k < |Values(rows)| && ((p, role), Values(rows)[k]) in rows
  {
    var l := SelfLink(rows);
    var tr := Triples(l);
    var vals := Values(rows);
    if (p, k, role) in PartyBridge(rows) {
      var i := IndexOf(tr, (p, k, role)).value;
      assert rows[i] == ((p, role), vals[k]);
    }
    if k < |vals| && ((p, role), vals[k]) in rows {
      var i := IndexOf(rows, ((p, role), vals[k])).value;
      IndexOfUnique(vals, k);
      assert tr[i] == (p, k, role);
    }
  }

  /** The party bridge: no triple twice; the role is `inventor` or
      `applicant`; and a publication is linked to party `k` in a role exactly
      when `k` is a dimension position and the publication's record names
      that party in the column of that role. */
  lemma PartyBridgeExact(t: Table, p: Cell, k: nat, role: string)
    requires WellFormed(t) && HasPartyColumns(t)
    ensures var b := PartyBridge(PartyRows(t)); var d := PartyDim(t);
      && NoDups(b)
      && (forall q :: 0 <= q < |b| ==> b[q].2 == "inventor" || b[q].2 == "applicant")
      && ((p, k, role) in b <==>
            (k < |d| &&
              ((role == "inventor" && exists i: nat :: Names(t, "inventors", i, d[k].1) && Column(t, "publication_number").value[i] == p)
               || (role == "applicant" && exists i: nat :: Names(t, "applicants", i, d[k].1) && Column(t, "publication_number").value[i] == p))))
  {
    var rows := PartyRows(t);
    var b := PartyBridge(rows);
    RoleNames();
    forall q | 0 <= q < |b| ensures b[q].2 == "inventor" || b[q].2 == "applicant" {
      var x := b[q];
      PartyBridgeRows(rows, x.0, x.1, x.2);
      RoleRowsExact(t, "inventors", x.0, x.2, Values(rows)[x.1]);
      RoleRowsExact(t, "applicants", x.0, x.2, Values(rows)[x.1]);
    }
    PartyBridgeRows(rows, p, k, role);
    if k < |Values(rows)| {
      RoleRowsExact(t, "inventors", p, role, Values(rows)[k]);
      RoleRowsExact(t, "applicants", p, role, Values(rows)[k]);
    }
  }

  /** All inventor rows come before all applicant rows, so the parties some
      inventor field names take the first positions of the dimension. */
  lemma InventorsFirst(t: Table, m: nat, k: nat)
    requires WellFormed(t) && HasPartyColumns(t) && m < k < |PartyDim(t)|
    requires NamedAsInventor(t, PartyDim(t)[k].1)
    ensures NamedAsInventor(t, PartyDim(t)[m].1)
  {
    var inv, app := RoleRows(t, "inventors"), RoleRows(t, "applicants");
    var front := ValueColumn(inv);
    ValueColumnAppend(inv, app);
    var vals := Distinct(front + ValueColumn(app));
    assert PartyDim(t)[k].1 == vals[k] && PartyDim(t)[m].1 == vals[m];
    InventorValues(t, vals[k]);
    DistinctPrefixFirst(front, ValueColumn(app), m, k);
    InventorValues(t, vals[m]);
  }

  /** Some inventor field names the party `v`. */
  ghost predicate NamedAsInventor(t: Table, v: string)
    requires WellFormed(t) && HasPartyColumns(t)
  {
    exists i: nat :: Names(t, "inventors", i, v)
  }

  /** The inventor rows' values are the names inventor fields give. */
  lemma InventorValues(t: Table, v: string)
    requires WellFormed(t) && HasPartyColumns(t)
    ensures v in ValueColumn(RoleRows(t, "inventors")) <==> NamedAsInventor(t, v)
  {
    if v in ValueColumn(RoleRows(t, "inventors")) {
      RoleValueNamed(t, "inventors", v);
    }
    if NamedAsInventor(t, v) {
      var i: nat :| Names(t, "inventors", i, v);
      NamedRoleValue(t, "inventors", i, v);
    }
  }

  /** Every value of a role's rows is a name some record gives in that role. */
  lemma RoleValueNamed(t: Table, column: string, v: string)
    requires WellFormed(t) && HasPartyColumns(t) && column in t.columns
    requires v in ValueColumn(RoleRows(t, column))
    ensures exists i: nat :: Names(t, column, i, v)
  {
    var rows := RoleRows(t, column);
    var j := IndexOf(ValueColumn(rows), v).value;
    RoleRowsExact(t, column, rows[j].0.0, rows[j].0.1, v);
  }

  /** Every name a record gives in a role is a value of that role's rows. */
  lemma NamedRoleValue(t: Table, column: string, i: nat, v: string)
    requires WellFormed(t) && HasPartyColumns(t) && column in t.columns
    requires Names(t, column, i, v)
    ensures v in ValueColumn(RoleRows(t, column))
  {
    var rows := RoleRows(t, column);
    var p := Column(t, "publication_number").value[i];
    RoleRowsExact(t, column, p, Role(column), v);
    var j := IndexOf(rows, ((p, Role(column)), v)).value;
    assert ValueColumn(rows)[j] == v;
  }

  /** As written, a missing inventor or applicant field reaches the party
      builder as `"nan"`, which passes the sentinel filter and becomes the
      party `nan`. */
  lemma MissingPartyAsWritten()
    ensures TextCellAsWritten(Null).s != Sentinel
    ensures PartyPieces(TextCellAsWritten(Null).s) == ["nan"]
  {
    var s := "nan";
    NanPiece();
    LeadingSpacesUnique(s, 0);
    TrailingSpacesUnique(s, 0);
    assert Strip(s) == s;
    assert StripAll([s]) == [s];
    assert NonEmpty(s);
    assert Filter([s], NonEmpty) == [s] + Filter([], NonEmpty);
  }

  /** With the fill applied first, a missing field holds the sentinel and
      names no party. */
  lemma MissingPartySkipped(t: Table, column: string, i: nat, v: string)
    requires WellFormed(t) && column in t.columns && i < |t.rows|
    requires Column(t, column).value[i] == TextCell(Null)
    ensures !Names(t, column, i, v)
  {
  }

  /* ---------------------------------------------------------------------- */
  /* Countries                                                              */
  /* ---------------------------------------------------------------------- */

  /** The country dictionary, in its order. */
  const Countries: seq<(string, string)> := [
    ("AR", "Argentina"), ("AT", "\U{C1}ustria"), ("AU", "Austr\U{E1}lia"), ("BR", "Brasil"),
    ("CA", "Canad\U{E1}"), ("CH", "Su\U{ED}\U{E7}a"), ("CN", "China"), ("DE", "Alemanha"),
    ("DK", "Dinamarca"), ("EP", "Organiza\U{E7}\U{E3}o Europeia de Patentes (OPE/EPO)"),
    ("ES", "Espanha"), ("FR", "Fran\U{E7}a"), ("GB", "Reino Unido"), ("IL", "Israel"),
    ("IN", "India"), ("JP", "Jap\U{E3}o"), ("KR", "Coreia do Sul"), ("RU", "Federa\U{E7}\U{E3}o Russa"),
    ("US", "Estados Unidos da Am\U{E9}rica"),
    ("WO", "Organiza\U{E7}\U{E3}o Mundial da Propriedade Intelectual (OMPI/WIPO)"),
    ("ZA", "\U{C1}frica do Sul")]

  /** The dictionary's keys, in order. */
  function Codes(): (r: seq<string>)
    ensures |r| == |Countries| && forall k :: 0 <= k < |Countries| ==> r[k] == Countries[k].0
  {
    seq(|Countries|, k requires 0 <= k < |Countries| => Countries[k].0)
  }

  /** A number that orders two-letter codes. */
  function CodeRank(c: string): int
    requires |c| == 2
  {
    c[0] as int * 65536 + c[1] as int
  }

  /** The dictionary has 21 distinct two-letter keys: they are listed in
      increasing order. */
  lemma CodesDistinct()
    ensures |Codes()| == 21 && NoDups(Codes())
    ensures forall k :: 0 <= k < |Codes()| ==> |Codes()[k]| == 2
  {
    var c := Codes();
    CodesRankedLow();
    CodesRankedHigh();
    var ranks := seq(|c|, k requires 0 <= k < |c| => CodeRank(c[k]));
    Increasing(ranks, |ranks|);
    forall i, j | 0 <= i < j < |c| ensures c[i] != c[j] {
      assert ranks[i] < ranks[j];
    }
  }

  /** The dictionary's codes, in its order. */
  lemma CodesListed()
    ensures Codes() == ["AR", "AT", "AU", "BR", "CA", "CH", "CN", "DE", "DK", "EP", "ES",
                        "FR", "GB", "IL", "IN", "JP", "KR", "RU", "US", "WO", "ZA"]
  {
  }

  /** The first eleven codes are two letters each, in increasing rank. */
  lemma CodesRankedLow()
    ensures |Codes()| == 21 && forall k :: 0 <= k <= 10 ==> |Codes()[k]| == 2
    ensures forall k :: 0 <= k < 10 ==> CodeRank(Codes()[k]) < CodeRank(Codes()[k + 1])
  {
    CodesListed();
  }

  /** The last eleven codes are two letters each, in increasing rank. */
  lemma CodesRankedHigh()
    ensures |Codes()| == 21 && forall k :: 10 <= k < 21 ==> |Codes()[k]| == 2
    ensures forall k :: 10 <= k < 20 ==> CodeRank(Codes()[k]) < CodeRank(Codes()[k + 1])
  {
    CodesListed();
  }

  /** Adjacent increase gives increase over the first `n` elements. */
  lemma {:induction false} Increasing(xs: seq<int>, n: nat)
    requires n <= |xs|
    requires forall k :: 0 <= k < |xs| - 1 ==> xs[k] < xs[k + 1]
    ensures forall i, j :: 0 <= i < j < n ==> xs[i] < xs[j]
  {
    if n > 1 {
      Increasing(xs, n - 1);
      assert forall i :: 0 <= i < n - 2 ==> xs[i] < xs[n - 2];
    }
  }

  /** `dim_country`: one row per dictionary entry, in dictionary order, with
      `country_id` its position. */
  function CountryDim(): (d: seq<(nat, string, string)>)
    ensures |d| == |Countries|
    ensures forall k :: 0 <= k < |d| ==> d[k] == (k, Countries[k].0, Countries[k].1)
  {
    seq(|Countries|, k requires 0 <= k < |Countries| => (k, Countries[k].0, Countries[k].1))
  }

  /** `str[:2]`: the first two characters, or the whole text when shorter. */
  function Prefix2(s: string): (r: string)
    ensures |r| <= 2 && r <= s
    ensures |s| >= 2 ==> |r| == 2
  {
    if |s| < 2 then s else s[..2]
  }

  /** A bracketed two-letter capital code `[XX]` starts at `i`. */
  predicate BracketAt(s: string, i: nat)
  {
    i + 3 < |s| && s[i] == '[' && IsAsciiUpper(s[i + 1]) && IsAsciiUpper(s[i + 2]) && s[i + 3] == ']'
  }

  /** The first position at or after `from` where a bracketed code starts. */
  function BracketFrom(s: string, from: nat): (r: Option<nat>)
    ensures r.Some? ==> from <= r.value && BracketAt(s, r.value)
    ensures r.Some? ==> forall i :: from <= i < r.value ==> !BracketAt(s, i)
    ensures r.None? ==> forall i :: from <= i ==> !BracketAt(s, i)
    decreases |s| - from
  {
    if from + 3 >= |s| then None
    else if BracketAt(s, from) then Some(from)
    else BracketFrom(s, from + 1)
  }

  /** `str.extract(r'\[([A-Z]{2})\]')`: the code of the first bracketed
      code, if any. */
  function BracketCode(s: string): (r: Option<string>)
    ensures r.Some? <==> exists i :: BracketAt(s, i)
    ensures r.Some? ==> |r.value| == 2 && forall k :: 0 <= k < 2 ==> IsAsciiUpper(r.value[k])
  {
    match BracketFrom(s, 0)
    case None => None
    case Some(i) => Some(s[i + 1..i + 3])
  }

  /** The code of a piece that ends with a bracketed code and has no other
      `[` is that code. */
  lemma BracketCodeSuffix(name: string, code: string)
    requires forall k :: 0 <= k < |name| ==> name[k] != '['
    requires |code| == 2 && IsAsciiUpper(code[0]) && IsAsciiUpper(code[1])
    ensures BracketCode(name + "[" + code + "]") == Some(code)
  {
    var s := name + "[" + code + "]";
    var n := |name|;
    assert BracketAt(s, n);
    forall i | 0 <= i < n ensures !BracketAt(s, i) {
      assert s[i] == name[i];
    }
    assert BracketFrom(s, 0) == Some(n);
    assert s[n + 1..n + 3] == code;
  }

  /** The codes of the comma pieces that carry one, in order. */
  function PieceCodes(ps: seq<string>): (r: seq<string>)
    ensures forall c :: c in r <==> exists p :: p in ps && BracketCode(p) == Some(c)
  {
    if ps == [] then []
    else
      (match BracketCode(ps[0]) case None => [] case Some(c) => [c])
      + PieceCodes(ps[1..])
  }

  /** `str.split(',')`, `explode` and the code extraction on one field. */
  function FieldCodes(s: string): seq<string>
  {
    PieceCodes(SplitOn(s, ","))
  }

  /** `str.capitalize()` on ASCII text: the first letter upper-cased, the
      rest lower-cased. */
  function Capitalize(s: string): string
  {
    if s == [] then [] else [AsciiCapital(s[0])] + Lower(s[1..])
  }

  /** Upper-casing of an ASCII letter. */
  function AsciiCapital(c: char): char
  {
    if IsAsciiLower(c) then (c as int - 32) as char else c
  }

  /** The origin label of a party column: `str.replace('s', '')` then
      `str.capitalize()`. */
  function Origin(column: string): string
  {
    Capitalize(Role(column))
  }

  /** The origin of a plural lower-case column label is its singular,
      capitalised: `inventors` gives `Inventor`, `applicants` gives
      `Applicant`. */
  lemma OriginOfPlural(x: string)
    requires |x| >= 1 && forall k :: 0 <= k < |x| ==> IsAsciiLower(x[k]) && x[k] != 's'
    ensures Origin(x + "s") == [AsciiCapital(x[0])] + x[1..]
  {
    RoleOfPlural(x);
    CapitalizeLower(x);
  }

  /** Lower-case ASCII text, capitalised. */
  lemma CapitalizeLower(s: string)
    requires |s| >= 1 && forall k :: 0 <= k < |s| ==> IsAsciiLower(s[k])
    ensures Capitalize(s) == [AsciiCapital(s[0])] + s[1..]
  {
    LowerOfLower(s[1..]);
  }

  /** Lower-case ASCII text is its own lower case. */
  lemma LowerOfLower(s: string)
    requires forall k :: 0 <= k < |s| ==> IsAsciiLower(s[k])
    ensures Lower(s) == s
  {
  }

  /** The relation rows of the publication numbers: the first two characters
      of every text publication number, with origin `Publication`. */
  function PubRelations(t: Table): seq<((Cell, string), string)>
    requires WellFormed(t) && HasPartyColumns(t)
  {
    var pubs := Column(t, "publication_number").value;
    ExplodeAll(MeltKeys(pubs, "Publication"), pubs, (s: string) => [Prefix2(s)])
  }

  /** The relation rows of one party column. */
  function PartyRelations(t: Table, column: string): seq<((Cell, string), string)>
    requires WellFormed(t) && HasPartyColumns(t) && column in t.columns
  {
    ExplodeAll(MeltKeys(Column(t, "publication_number").value, Origin(column)), Column(t, column).value, FieldCodes)
  }

  function KnownCode(r: ((Cell, string), string)): bool { r.1 in Codes() }

  /** `concat`, `dropna` and `isin(country_codes_dict.keys())`. */
  function Relations(t: Table): seq<((Cell, string), string)>
    requires WellFormed(t) && HasPartyColumns(t)
  {
    Filter(PubRelations(t) + PartyRelations(t, "inventors") + PartyRelations(t, "applicants"), KnownCode)
  }

  /** The merge against `dim_country`, the projection to
      `(publication_number, country_id, origin)` and `drop_duplicates()`. */
  function CountryBridge(rel: seq<((Cell, string), string)>): seq<(Cell, nat, string)>
    requires forall i :: 0 <= i < |rel| ==> rel[i].1 in Codes()
  {
    Distinct(seq(|rel|, i requires 0 <= i < |rel| => (rel[i].0.0, IndexOf(Codes(), rel[i].1).value, rel[i].0.1)))
  }

  /** `criar_modelo_country`: `None` where pandas raises for a missing
      column, otherwise the dimension and the bridge. */
  function CountryModel(t: Table): (r: Option<(seq<(nat, string, string)>, seq<(Cell, nat, string)>)>)
    requires WellFormed(t)
    ensures r.None? <==> !HasPartyColumns(t)
  {
    if !HasPartyColumns(t) then None
    else
      var rel := Relations(t);
      assert forall i :: 0 <= i < |rel| ==> KnownCode(rel[i]);
      Some((CountryDim(), CountryBridge(rel)))
  }

  /** Record `i` has publication number `p` and mentions the country `code`
      under `origin`: through the first two characters of its publication
      number (`Publication`), or through a bracketed code in a comma piece
      of a party column (that column's origin). */
  ghost predicate Mentions(t: Table, i: nat, p: Cell, code: string, origin: string)
    requires WellFormed(t) && HasPartyColumns(t)
  {
    var pubs := Column(t, "publication_number").value;
    i < |t.rows| && pubs[i] == p &&
    ((origin == "Publication" && p.Str? && Prefix2(p.s) == code)
     || PartyMentions(t, "inventors", i, code, origin)
     || PartyMentions(t, "applicants", i, code, origin))
  }

  /** The party column `column` of record `i` mentions `code` under
      `origin`. */
  ghost predicate PartyMentions(t: Table, column: string, i: nat, code: string, origin: string)
    requires WellFormed(t) && column in t.columns
  {
    var field := Column(t, column).value;
    i < |field| && origin == Origin(column) && field[i].Str? && code in FieldCodes(field[i].s)
  }

  /** The publication relation rows are exactly the records with a text
      publication number, each with its first two characters. */
  lemma PubRelationsExact(t: Table, p: Cell, origin: string, code: string)
    requires WellFormed(t) && HasPartyColumns(t)
    ensures ((p, origin), code) in PubRelations(t) <==>
      origin == "Publication" && p.Str? && Prefix2(p.s) == code &&
      exists i: nat :: i < |t.rows| && Column(t, "publication_number").value[i] == p
  {
    var pubs := Column(t, "publication_number").value;
    var keys := MeltKeys(pubs, "Publication");
    var split := (s: string) => [Prefix2(s)];
    ExplodeAllExact(keys, pubs, split, (p, origin), code);
    if ((p, origin), code) in PubRelations(t) {
      var i :| 0 <= i < |pubs| && keys[i] == (p, origin) && pubs[i].Str? && code in split(pubs[i].s);
      assert pubs[i] == p;
    }
    if origin == "Publication" && p.Str? && Prefix2(p.s) == code &&
       exists i: nat :: i < |t.rows| && pubs[i] == p {
      var i: nat :| i < |t.rows| && pubs[i] == p;
      assert keys[i] == (p, origin) && code in split(pubs[i].s);
    }
  }

  /** The relation rows of a party column are exactly its mentions. */
  lemma PartyRelationsExact(t: Table, column: string, p: Cell, origin: string, code: string)
    requires WellFormed(t) && HasPartyColumns(t) && column in t.columns
    ensures ((p, origin), code) in PartyRelations(t, column) <==>
      exists i: nat :: i < |t.rows| && Column(t, "publication_number").value[i] == p &&
        PartyMentions(t, column, i, code, origin)
  {
    var pubs := Column(t, "publication_number").value;
    var keys := MeltKeys(pubs, Origin(column));
    var field := Column(t, column).value;
    ExplodeAllExact(keys, field, FieldCodes, (p, origin), code);
    if ((p, origin), code) in PartyRelations(t, column) {
      var i :| 0 <= i < |field| && keys[i] == (p, origin) && field[i].Str? && code in FieldCodes(field[i].s);
      assert PartyMentions(t, column, i, code, origin);
    }
    if exists i: nat :: i < |t.rows| && pubs[i] == p && PartyMentions(t, column, i, code, origin) {
      var i: nat :| i < |t.rows| && pubs[i] == p && PartyMentions(t, column, i, code, origin);
      assert keys[i] == (p, origin);
    }
  }

  /** A relation row survives the filters exactly when its code is a key of
      the dictionary and some record mentions it. */
  lemma RelationsExact(t: Table, p: Cell, origin: string, code: string)
    requires WellFormed(t) && HasPartyColumns(t)
    ensures ((p, origin), code) in Relations(t) <==>
      code in Codes() && exists i: nat :: Mentions(t, i, p, code, origin)
  {
    if ((p, origin), code) in Relations(t) {
      RelationMentioned(t, p, origin, code);
    }
    if code in Codes() && exists i: nat :: Mentions(t, i, p, code, origin) {
      var i: nat :| Mentions(t, i, p, code, origin);
      MentionRelated(t, i, p, origin, code);
    }
  }

  /** A surviving relation row comes from a mention. */
  lemma RelationMentioned(t: Table, p: Cell, origin: string, code: string)
    requires WellFormed(t) && HasPartyColumns(t)
    requires ((p, origin), code) in Relations(t)
    ensures code in Codes() && exists i: nat :: Mentions(t, i, p, code, origin)
  {
    var r := ((p, origin), code);
    var pub, inv, app := PubRelations(t), PartyRelations(t, "inventors"), PartyRelations(t, "applicants");
    assert r in pub + inv + app && KnownCode(r);
    if r in pub {
      PubRelationsExact(t, p, origin, code);
      var i: nat :| i < |t.rows| && Column(t, "publication_number").value[i] == p;
      assert Mentions(t, i, p, code, origin);
    } else if r in inv {
      PartyRelationsExact(t, "inventors", p, origin, code);
      var i: nat :| i < |t.rows| && Column(t, "publication_number").value[i] == p &&
        PartyMentions(t, "inventors", i, code, origin);
      assert Mentions(t, i, p, code, origin);
    } else {
      assert r in app;
      PartyRelationsExact(t, "applicants", p, origin, code);
      var i: nat :| i < |t.rows| && Column(t, "publication_number").value[i] == p &&
        PartyMentions(t, "applicants", i, code, origin);
      assert Mentions(t, i, p, code, origin);
    }
  }

  /** A mention of a known code gives a surviving relation row. */
  lemma MentionRelated(t: Table, i: nat, p: Cell, origin: string, code: string)
    requires WellFormed(t) && HasPartyColumns(t)
    requires code in Codes() && Mentions(t, i, p, code, origin)
    ensures ((p, origin), code) in Relations(t)
  {
    var r := ((p, origin), code);
    var pub, inv, app := PubRelations(t), PartyRelations(t, "inventors"), PartyRelations(t, "applicants");
    if PartyMentions(t, "inventors", i, code, origin) {
      PartyRelationsExact(t, "inventors", p, origin, code);
      assert r in inv;
    } else if PartyMentions(t, "applicants", i, code, origin) {
      PartyRelationsExact(t, "applicants", p, origin, code);
      assert r in app;
    } else {
      PubRelationsExact(t, p, origin, code);
      assert r in pub;
    }
    var all := pub + inv + app;
    assert r in all;
    var j := IndexOf(all, r).value;
    assert KnownCode(all[j]);
  }

  /** The bridge holds `(p, k, origin)` exactly when `k` is a country id whose
      code a relation row of `p` with that origin carries; no row is
      repeated. */
  lemma CountryBridgeExact(rel: seq<((Cell, string), string)>, p: Cell, k: nat, origin: string)
    requires forall i :: 0 <= i < |rel| ==> rel[i].1 in Codes()
    ensures NoDups(CountryBridge(rel))
    ensures (p, k, origin) in CountryBridge(rel) <==> k < |Codes()| && ((p, origin), Codes()[k]) in rel
  {
    var codes := Codes();
    var ts := seq(|rel|, i requires 0 <= i < |rel| => (rel[i].0.0, IndexOf(codes, rel[i].1).value, rel[i].0.1));
    CodesDistinct();
    if (p, k, origin) in CountryBridge(rel) {
      var i := IndexOf(ts, (p, k, origin)).value;
      assert rel[i] == ((p, origin), codes[k]);
    }
    if k < |codes| && ((p, origin), codes[k]) in rel {
      var i := IndexOf(rel, ((p, origin), codes[k])).value;
      IndexOfUnique(codes, k);
      assert ts[i] == (p, k, origin);
    }
  }

  /** Every `country_id` of the bridge is a row of `dim_country`. */
  lemma CountryBridgeClosed(rel: seq<((Cell, string), string)>, i: nat)
    requires forall j :: 0 <= j < |rel| ==> rel[j].1 in Codes()
    requires i < |CountryBridge(rel)|
    ensures CountryBridge(rel)[i].1 < |CountryDim()|
  {
    var b := CountryBridge(rel);
    var ts := seq(|rel|, j requires 0 <= j < |rel| => (rel[j].0.0, IndexOf(Codes(), rel[j].1).value, rel[j].0.1));
    var j := IndexOf(ts, b[i]).value;
  }

  /** `criar_modelo_country` end to end: the bridge links publication `p` to
      country `k` under `origin` exactly when `k` is a row of `dim_country`
      and some record with that publication number mentions its code under
      that origin. */
  lemma CountryModelExact(t: Table, p: Cell, k: nat, origin: string)
    requires WellFormed(t) && HasPartyColumns(t)
    ensures NoDups(CountryModel(t).value.1)
    ensures (p, k, origin) in CountryModel(t).value.1 <==>
      k < |CountryModel(t).value.0| && exists i: nat :: Mentions(t, i, p, Codes()[k], origin)
  {
    var rel := Relations(t);
    assert forall i :: 0 <= i < |rel| ==> KnownCode(rel[i]);
    CountryBridgeExact(rel, p, k, origin);
    if k < |Codes()| {
      RelationsExact(t, p, origin, Codes()[k]);
    }
  }

  /* ---------------------------------------------------------------------- */
  /* IPC classification                                                     */
  /* ---------------------------------------------------------------------- */

  /** `clean_ipc_code` on a piece: `upper()`, `strip()`, then every `-` and
      every space removed. (A piece that is not text is never reached: the
      explode skips such a field.) */
  function CleanIpc(s: string): string
  {
    RemoveChars(RemoveChars(Strip(Upper(s)), {'-'}), {' '})
  }

  /** `str.split(',')`, `clean_ipc_code` on every piece and the removal of
      empty codes. */
  function IpcPieces(s: string): seq<string>
  {
    Filter(CleanAllIpc(SplitOn(s, ",")), NonEmpty)
  }

  function CleanAllIpc(ps: seq<string>): (r: seq<string>)
    ensures |r| == |ps| && forall k :: 0 <= k < |ps| ==> r[k] == CleanIpc(ps[k])
  {
    seq(|ps|, k requires 0 <= k < |ps| => CleanIpc(ps[k]))
  }

  /** The codes of a field are exactly the non-empty cleanings of its comma
      pieces. */
  lemma IpcPiecesExact(s: string, v: string)
    ensures v in IpcPieces(s) <==> v != "" && exists p :: p in SplitOn(s, ",") && CleanIpc(p) == v
  {
    var ps := SplitOn(s, ",");
    var cs := CleanAllIpc(ps);
    if v in IpcPieces(s) {
      var k := IndexOf(cs, v).value;
      assert ps[k] in ps;
    }
    if v != "" && exists p :: p in ps && CleanIpc(p) == v {
      var p :| p in ps && CleanIpc(p) == v;
      var k := IndexOf(ps, p).value;
      assert NonEmpty(cs[k]);
    }
  }

  /** `str.upper()` never leaves an ASCII lower-case letter. */
  lemma {:induction false} UpperNoAsciiLower(s: string)
    ensures forall i :: 0 <= i < |Upper(s)| ==> !IsAsciiLower(Upper(s)[i])
  {
    if s != [] {
      UpperNoAsciiLower(s[1..]);
      var h := UpperChar(s[0]);
      assert Upper(s) == h + Upper(s[1..]);
      assert forall i :: 0 <= i < |h| ==> !IsAsciiLower(h[i]);
    }
  }

  /** A cleaned code has no hyphen, no space and no ASCII lower-case
      letter. */
  lemma CleanIpcNormal(s: string)
    ensures forall i :: 0 <= i < |CleanIpc(s)| ==>
      CleanIpc(s)[i] != '-' && CleanIpc(s)[i] != ' ' && !IsAsciiLower(CleanIpc(s)[i])
  {
    var u := Upper(s);
    UpperNoAsciiLower(s);
    StripIsInfix(u);
    var st := Strip(u);
    assert forall i :: 0 <= i < |st| ==> st[i] in u;
    var r1 := RemoveChars(st, {'-'});
    assert forall i :: 0 <= i < |r1| ==> r1[i] in st && r1[i] != '-';
    assert forall i :: 0 <= i < |r1| ==> !IsAsciiLower(r1[i]);
  }

  /** A code that is already clean (ASCII, no lower-case letter, no hyphen,
      no whitespace) is its own cleaning. */
  lemma CleanIpcFixed(s: string)
    requires forall i :: 0 <= i < |s| ==> s[i] < '\U{80}' && !IsAsciiLower(s[i]) && s[i] != '-' && !IsSpace(s[i])
    ensures CleanIpc(s) == s
  {
    UpperAscii(s);
    assert Upper(s) == s;
    StripUnique(s, 0, |s|);
    assert Strip(s) == s;
    RemoveAbsent(s, {'-'});
    RemoveAbsent(s, {' '});
  }

  /** The columns the IPC builder reads. */
  predicate HasIpcColumns(t: Table)
  {
    "publication_number" in t.columns && "ipc" in t.columns
  }

  /** The exploded `(publication_number, code)` rows: every text field other
      than the sentinel, split and cleaned. */
  function IpcRows(t: Table): seq<(Cell, string)>
    requires WellFormed(t) && HasIpcColumns(t)
  {
    Explode(Column(t, "publication_number").value, Column(t, "ipc").value, Sentinel, IpcPieces)
  }

  /** `criar_modelo_ipc`: `None` where pandas raises for a missing column,
      otherwise `dim_ipc` and the bridge. */
  function IpcModel(t: Table): (r: Option<(seq<(nat, string)>, seq<(Cell, nat)>)>)
    requires WellFormed(t)
    ensures r.None? <==> !HasIpcColumns(t)
  {
    if !HasIpcColumns(t) then None
    else Some((IpcDim(t), IpcBridge(t)))
  }

  /** `dim_ipc`: the distinct codes in first-seen order, `ipc_id` their
      position. */
  function IpcDim(t: Table): seq<(nat, string)>
    requires WellFormed(t) && HasIpcColumns(t)
  {
    Numbered(Values(IpcRows(t)))
  }

  /** `pon_patente_ipc`: the merge on the code, the projection to
      `(publication_number, ipc_id)` and `drop_duplicates()`. */
  function IpcBridge(t: Table): seq<(Cell, nat)>
    requires WellFormed(t) && HasIpcColumns(t)
  {
    KeyedBridge(IpcRows(t), Position)
  }

  /** Record `i` is classified under `code`: its IPC field is text other than
      the sentinel and one of its comma pieces cleans to `code`. */
  ghost predicate Classifies(t: Table, i: nat, code: string)
    requires WellFormed(t) && HasIpcColumns(t)
  {
    var field := Column(t, "ipc").value;
    i < |t.rows| && field[i].Str? && field[i].s != Sentinel && code != "" &&
    exists p :: p in SplitOn(field[i].s, ",") && CleanIpc(p) == code
  }

  /** An exploded IPC row is exactly a classification of its record. */
  lemma IpcRowsExact(t: Table, p: Cell, code: string)
    requires WellFormed(t) && HasIpcColumns(t)
    ensures (p, code) in IpcRows(t) <==>
      exists i: nat :: Classifies(t, i, code) && Column(t, "publication_number").value[i] == p
  {
    var pubs, field := Column(t, "publication_number").value, Column(t, "ipc").value;
    ExplodeExact(pubs, field, Sentinel, IpcPieces, p, code);
    if (p, code) in IpcRows(t) {
      var i :| 0 <= i < |field| && pubs[i] == p && field[i].Str? && field[i].s != Sentinel && code in IpcPieces(field[i].s);
      IpcPiecesExact(field[i].s, code);
      assert Classifies(t, i, code);
    }
    if exists i: nat :: Classifies(t, i, code) && pubs[i] == p {
      var i: nat :| Classifies(t, i, code) && pubs[i] == p;
      IpcPiecesExact(field[i].s, code);
    }
  }

  /** A normalised code: non-empty, with no hyphen, no space and no ASCII
      lower-case letter. */
  predicate NormalCode(s: string)
  {
    s != "" && forall j :: 0 <= j < |s| ==> s[j] != '-' && s[j] != ' ' && !IsAsciiLower(s[j])
  }

  /** Every code a record is classified under is normalised. */
  lemma ClassifiedNormal(t: Table, i: nat, code: string)
    requires WellFormed(t) && HasIpcColumns(t) && Classifies(t, i, code)
    ensures NormalCode(code)
  {
    var p :| p in SplitOn(Column(t, "ipc").value[i].s, ",") && CleanIpc(p) == code;
    CleanIpcNormal(p);
  }

  /** `dim_ipc` numbers its rows by position and lists distinct, normalised
      codes. */
  lemma IpcDimNormal(t: Table)
    requires WellFormed(t) && HasIpcColumns(t)
    ensures forall k, m :: 0 <= k < m < |IpcDim(t)| ==> IpcDim(t)[k].1 != IpcDim(t)[m].1
    ensures forall k :: 0 <= k < |IpcDim(t)| ==> IpcDim(t)[k].0 == k && NormalCode(IpcDim(t)[k].1)
  {
    var rows := IpcRows(t);
    var vals := Values(rows);
    var pubs := Column(t, "publication_number").value;
    forall k | 0 <= k < |vals| ensures NormalCode(vals[k]) {
      ValuesPairs(rows, vals[k]);
      var e :| (e, vals[k]) in rows;
      IpcRowsExact(t, e, vals[k]);
      var i: nat :| Classifies(t, i, vals[k]) && pubs[i] == e;
      ClassifiedNormal(t, i, vals[k]);
    }
  }

  /** A code is in `dim_ipc` exactly when some record is classified under
      it. */
  lemma IpcDimExact(t: Table, code: string)
    requires WellFormed(t) && HasIpcColumns(t)
    ensures (exists k :: 0 <= k < |IpcDim(t)| && IpcDim(t)[k].1 == code) <==>
      exists i: nat :: Classifies(t, i, code)
  {
    NumberedValuesExact(IpcRows(t), IpcDim(t), code);
    IpcRowsClassified(t, code);
  }

  /** A code has an exploded row exactly when some record is classified
      under it. */
  lemma IpcRowsClassified(t: Table, code: string)
    requires WellFormed(t) && HasIpcColumns(t)
    ensures (exists e :: (e, code) in IpcRows(t)) <==> exists i: nat :: Classifies(t, i, code)
  {
    if exists i: nat :: Classifies(t, i, code) {
      var i: nat :| Classifies(t, i, code);
      IpcRowsExact(t, Column(t, "publication_number").value[i], code);
    }
    if exists e :: (e, code) in IpcRows(t) {
      var e :| (e, code) in IpcRows(t);
      IpcRowsExact(t, e, code);
    }
  }

  /** The bridge links `p` to `ipc_id` `k` exactly when `k` is a row of
      `dim_ipc` and a record with that publication number is classified
      under its code. */
  lemma IpcBridgeExact(t: Table, p: Cell, k: nat)
    requires WellFormed(t) && HasIpcColumns(t)
    ensures NoDups(IpcBridge(t))
    ensures (p, k) in IpcBridge(t) <==>
      k < |IpcDim(t)| &&
      exists i: nat :: Classifies(t, i, IpcDim(t)[k].1) && Column(t, "publication_number").value[i] == p
  {
    var rows := IpcRows(t);
    PositionInjective();
    KeyedBridgeExact(rows, Position, p, k);
    if k < |Values(rows)| {
      IpcRowsExact(t, p, Values(rows)[k]);
    }
  }

  /** Every `ipc_id` of the bridge is a row of `dim_ipc`. */
  lemma IpcBridgeClosed(t: Table, j: nat)
    requires WellFormed(t) && HasIpcColumns(t) && j < |IpcBridge(t)|
    ensures IpcBridge(t)[j].1 < |IpcDim(t)|
  {
    KeyedBridgeClosed(IpcRows(t), Position, j);
  }

  /** The text `"nan"` holds no comma: it is its own only comma piece. */
  lemma NanPiece()
    ensures SplitOn("nan", ",") == ["nan"]
  {
    var s := "nan";
    assert Find(s, ",").None? by {
      OccursAtChar(s, ',', 0);
      OccursAtChar(s, ',', 1);
      OccursAtChar(s, ',', 2);
    }
  }

  /** `"nan".upper()` is `"NAN"`. */
  lemma UpperNan()
    ensures Upper("nan") == "NAN"
  {
    var s := "nan";
    assert UpperChar('n') == "N" && UpperChar('a') == "A";
    assert Upper(s[2..]) == UpperChar('n') + Upper([]);
    assert Upper(s[1..]) == UpperChar('a') + Upper(s[2..]);
    assert Upper(s) == UpperChar('n') + Upper(s[1..]);
  }

  /** The text `"nan"` cleans to the code `NAN`. */
  lemma NanIpc(s: string, u: string)
    requires s == "nan" && u == "NAN"
    ensures CleanIpc(s) == u
  {
    var up := Upper(s);
    UpperNan();
    assert up == u;
    assert forall i :: 0 <= i < |u| ==> u[i] == 'N' || u[i] == 'A';
    StripUnique(u, 0, |u|);
    assert Strip(up) == u;
    RemoveAbsent(u, {'-'});
    RemoveAbsent(u, {' '});
  }

  /** As written, a record whose IPC field was missing before the cleaning
      is classified under the code `NAN`, which therefore is a row of
      `dim_ipc`. */
  lemma MissingIpcAsWritten(t: Table, i: nat)
    requires WellFormed(t) && i < |t.rows| && HasIpcColumns(Cleaned(AsWritten, t))
    requires Column(Relabelled(Named(t)), "ipc").value[i] == Null
    ensures Classifies(Cleaned(AsWritten, t), i, "NAN")
    ensures exists k :: 0 <= k < |IpcDim(Cleaned(AsWritten, t))| && IpcDim(Cleaned(AsWritten, t))[k].1 == "NAN"
  {
    var r := Cleaned(AsWritten, t);
    MissingCellAsWritten(t, "ipc", i);
    NanPiece();
    NanIpc("nan", "NAN");
    assert "nan" in SplitOn("nan", ",");
    assert Classifies(r, i, "NAN");
    IpcDimExact(r, "NAN");
  }

  /** With the fill applied first, a record whose IPC field was missing
      holds the sentinel and is classified under no code. */
  lemma MissingIpcSkipped(t: Table, i: nat, code: string)
    requires WellFormed(t) && i < |t.rows| && HasIpcColumns(Cleaned(FillFirst, t))
    requires Column(Relabelled(Named(t)), "ipc").value[i] == Null
    ensures !Classifies(Cleaned(FillFirst, t), i, code)
  {
    CleanedColumn(FillFirst, t, "ipc", i);
  }

  /* ---------------------------------------------------------------------- */
  /* Patent-species bridge and fact table                                   */
  /* ---------------------------------------------------------------------- */

  /** The `especie_id` of every master row named `name`, in master order
      (missing names match each other, as in a pandas merge key). */
  function SpeciesMatches(master: seq<(Cell, Cell)>, name: Cell): (r: seq<Cell>)
    ensures forall id :: id in r <==> (id, name) in master
  {
    if master == [] then []
    else (if master[0].1 == name then [master[0].0] else []) + SpeciesMatches(master[1..], name)
  }

  /** `pd.merge(manual, dim_especies_mestre, on='nome_cientifico', how='left')`
      projected to `(publication_number, especie_id)`: a manual row without a
      match keeps a missing id. */
  function MergedSpecies(manual: seq<(Cell, Cell)>, master: seq<(Cell, Cell)>): seq<(Cell, Cell)>
  {
    if manual == [] then []
    else
      var ms := SpeciesMatches(master, manual[0].1);
      (if ms == [] then [(manual[0].0, Null)] else seq(|ms|, k requires 0 <= k < |ms| => (manual[0].0, ms[k])))
      + MergedSpecies(manual[1..], master)
  }

  /** A merged row with both a publication number and an id (`dropna()`). */
  function NoMissing(r: (Cell, Cell)): bool { r.0 != Null && r.1 != Null }

  /** `drop_duplicates().dropna()`. */
  function SpeciesBridge(manual: seq<(Cell, Cell)>, master: seq<(Cell, Cell)>): seq<(Cell, Cell)>
  {
    Filter(Distinct(MergedSpecies(manual, master)), NoMissing)
  }

  /** The manual row `(p, name)` names, in the master, a species with id
      `id`. */
  ghost predicate Listed(manual: seq<(Cell, Cell)>, master: seq<(Cell, Cell)>, p: Cell, id: Cell)
  {
    exists i :: 0 <= i < |manual| && manual[i].0 == p && (id, manual[i].1) in master
  }

  /** A merged row with an id is exactly a manual row whose name equals a
      master name. */
  lemma {:induction false} MergedSpeciesExact(manual: seq<(Cell, Cell)>, master: seq<(Cell, Cell)>, p: Cell, id: Cell)
    requires id != Null
    ensures (p, id) in MergedSpecies(manual, master) <==> Listed(manual, master, p, id)
  {
    if manual != [] {
      MergedSpeciesExact(manual[1..], master, p, id);
      var ms := SpeciesMatches(master, manual[0].1);
      var head := if ms == [] then [(manual[0].0, Null)] else seq(|ms|, k requires 0 <= k < |ms| => (manual[0].0, ms[k]));
      assert MergedSpecies(manual, master) == head + MergedSpecies(manual[1..], master);
      if (p, id) in head {
        var k := IndexOf(head, (p, id)).value;
        assert ms[k] == id;
      }
      if Listed(manual[1..], master, p, id) {
        var i :| 0 <= i < |manual| - 1 && manual[1..][i].0 == p && (id, manual[1..][i].1) in master;
        assert manual[i + 1] == manual[1..][i];
      }
      if Listed(manual, master, p, id) {
        var i :| 0 <= i < |manual| && manual[i].0 == p && (id, manual[i].1) in master;
        if i == 0 {
          var k := IndexOf(ms, id).value;
          assert head[k] == (p, id);
        } else {
          assert manual[1..][i - 1] == manual[i];
        }
      }
    }
  }

  /** The species bridge has no repeated row, and holds `(p, id)` exactly
      when both are present and a manual row with publication number `p`
      names exactly a master species with id `id`. */
  lemma SpeciesBridgeExact(manual: seq<(Cell, Cell)>, master: seq<(Cell, Cell)>, p: Cell, id: Cell)
    ensures NoDups(SpeciesBridge(manual, master))
    ensures (p, id) in SpeciesBridge(manual, master) <==>
      p != Null && id != Null && Listed(manual, master, p, id)
  {
    var merged := MergedSpecies(manual, master);
    FilterNoDups(Distinct(merged), NoMissing);
    if id != Null {
      MergedSpeciesExact(manual, master, p, id);
      if p != Null && Listed(manual, master, p, id) {
        var d := Distinct(merged);
        var j := IndexOf(merged, (p, id)).value;
        var k := IndexOf(d, (p, id)).value;
        assert NoMissing(d[k]);
      }
    }
  }

  /** `criar_ligacao_especies_e_fato`'s species bridge: `None` where pandas
      raises (the manual list does not have exactly three columns, or the
      master lacks `especie_id` or `nome_cientifico`); otherwise the bridge
      from the manual list's first column (the publication number) and third
      column (the scientific name). */
  function SpeciesModel(manual: Table, master: Table): (r: Option<seq<(Cell, Cell)>>)
    requires WellFormed(manual) && WellFormed(master)
    ensures r.None? <==> |manual.columns| != 3 || "especie_id" !in master.columns || "nome_cientifico" !in master.columns
  {
    if |manual.columns| != 3 || "especie_id" !in master.columns || "nome_cientifico" !in master.columns then None
    else
      var ids, names := Column(master, "especie_id").value, Column(master, "nome_cientifico").value;
      Some(SpeciesBridge(
        seq(|manual.rows|, i requires 0 <= i < |manual.rows| => (manual.rows[i][0], manual.rows[i][2])),
        seq(|master.rows|, i requires 0 <= i < |master.rows| => (ids[i], names[i]))))
  }

  /** The multi-valued and date columns the fact table leaves out. */
  const FactDropped := ["inventors", "applicants", "ipc", "cpc", "earliest_priority", "publication_date", "earliest_publication"]

  /** `fato_patentes_espacenet`: the cleaned table without those of the
      seven columns it has. */
  function PatentFacts(t: Table): (r: Table)
    requires WellFormed(t)
    ensures WellFormed(r) && |r.rows| == |t.rows|
  {
    DropColumns(t, Existing(FactDropped, t.columns))
  }

  /** The positions of the columns the fact table keeps. */
  function FactIndices(t: Table): seq<nat>
  {
    KeptIndices(t.columns, Existing(FactDropped, t.columns), 0)
  }

  /** The fact table keeps, in order, exactly the columns outside the
      seven, with their dtypes and every row's cells unchanged. */
  lemma PatentFactsExact(t: Table)
    requires WellFormed(t)
    ensures var idx, r := FactIndices(t), PatentFacts(t);
      |r.columns| == |idx| &&
      (forall k, m :: 0 <= k < m < |idx| ==> idx[k] < idx[m]) &&
      (forall k :: 0 <= k < |idx| ==> idx[k] < |t.columns| && t.columns[idx[k]] !in FactDropped) &&
      (forall j :: 0 <= j < |t.columns| && t.columns[j] !in FactDropped ==> j in idx) &&
      (forall k :: 0 <= k < |idx| ==> r.columns[k] == t.columns[idx[k]] && r.dtypes[k] == t.dtypes[idx[k]]) &&
      (forall i, k :: 0 <= i < |t.rows| && 0 <= k < |idx| ==> r.rows[i][k] == t.rows[i][idx[k]])
  {
  }
}
