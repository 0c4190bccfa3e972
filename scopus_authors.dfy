/** `criar_modelo_autores`: the author dimension and the article-author bridge
    of the Scopus export. Three multi-valued columns are exploded one by one:
    the surnames (`authors`), the full names that carry the Scopus author id in
    parentheses (`author_full_names`) and the ids (`authors_id`). Surnames and
    full names are put side by side by record and position (an outer merge on
    `eid` and the `cumcount` index); then every id is paired with the full
    names of its record that carry it (a right merge). */
module ScopusAuthors {
  import opened Seqs
  import opened Text
  import opened Frames
  import opened Dimension
  import opened Scanners

  /** What the cleaning step writes into an empty text cell. */
  const Sentinel := "nao_informado"

  /** The four columns the model needs; without one of them there is no model. */
  predicate HasColumns(t: Table)
  {
    "eid" in t.columns && "authors" in t.columns && "authors_id" in t.columns && "author_full_names" in t.columns
  }

  /* ---------------------------------------------------------------------- */
  /* Pieces of the three columns                                            */
  /* ---------------------------------------------------------------------- */

  /** The surnames of a record: every `(digits)` with the whitespace before it
      removed, then `str.split(r'\s*;\s*')`. */
  function SurnamePieces(s: string): seq<string>
  {
    SemicolonSplit(RemoveSpacedGroups(s, IsDigit))
  }

  /** `str.extract(r'\((\d+)\)')`: the id a full name carries, if any. */
  function ScopusId(piece: string): Option<string>
  {
    ExtractGroup(piece, IsDigit)
  }

  /** `str.replace(r'\s*\(\d+\)$', '').str.strip()`: the full name without
      its trailing id. */
  function FullName(piece: string): string
  {
    StripTrailingGroup(piece, IsDigit)
  }

  /** A full name written `name (id)` gives back both parts. */
  lemma FullNameRoundTrip(name: string, id: string)
    requires Lacks(name, '(') && Strip(name) == name
    requires |id| > 0 && forall k :: 0 <= k < |id| ==> IsDigit(id[k])
    ensures ScopusId(name + " (" + id + ")") == Some(id)
    ensures FullName(name + " (" + id + ")") == name
  {
    GroupRoundTrip(name, id, IsDigit);
  }

  /** The surname list drops the id that follows the last surname. */
  lemma SurnameDropsId(name: string, id: string)
    requires Lacks(name, '(') && (name == [] || !IsSpace(name[|name| - 1]))
    requires |id| > 0 && forall k :: 0 <= k < |id| ==> IsDigit(id[k])
    ensures SurnamePieces(name + " (" + id + ")") == SemicolonSplit(name)
  {
    RemoveSpacedGroupsSuffix(name, id, IsDigit);
  }

  /* ---------------------------------------------------------------------- */
  /* Position of a piece within its record                                  */
  /* ---------------------------------------------------------------------- */

  /** The number of rows of `rows` that belong to record `e`. */
  function KeyCount<T>(rows: seq<(Cell, T)>, e: Cell): nat
  {
    if rows == [] then 0
    else KeyCount(rows[..|rows| - 1], e) + (if rows[|rows| - 1].0 == e then 1 else 0)
  }

  /** `groupby('eid').cumcount()`: how many earlier rows belong to the same
      record. */
  function CumCount<T>(rows: seq<(Cell, T)>): (r: seq<nat>)
    ensures |r| == |rows|
  {
    seq(|rows|, i requires 0 <= i < |rows| => KeyCount(rows[..i], rows[i].0))
  }

  /** A longer prefix holds at least as many rows of a record. */
  lemma {:induction false} KeyCountGrows<T>(rows: seq<(Cell, T)>, e: Cell, a: nat, b: nat)
    requires a <= b <= |rows|
    ensures KeyCount(rows[..a], e) <= KeyCount(rows[..b], e)
    ensures a < b && rows[a].0 == e ==> KeyCount(rows[..a], e) < KeyCount(rows[..b], e)
    decreases b
  {
    if a < b {
      KeyCountGrows(rows, e, a, b - 1);
      assert rows[..b][..b - 1] == rows[..b - 1];
      if a == b - 1 {
        assert rows[..b][b - 1] == rows[a];
      }
    }
  }

  /** Within one record the positions count up, so a record and a position
      pick at most one row: the merge keys of both sides are unique. */
  lemma CumCountIncreases<T>(rows: seq<(Cell, T)>, i: nat, j: nat)
    requires i < j < |rows| && rows[i].0 == rows[j].0
    ensures CumCount(rows)[i] < CumCount(rows)[j]
  {
    KeyCountGrows(rows, rows[i].0, i, j);
  }

  /* ---------------------------------------------------------------------- */
  /* The three exploded tables                                              */
  /* ---------------------------------------------------------------------- */

  datatype SurnameRow = SurnameRow(eid: Cell, index: nat, surname: string)

  datatype NameRow = NameRow(eid: Cell, index: nat, name: string, idFromName: Option<string>)

  /** A row of the outer merge; a side the merge found nothing for is missing. */
  datatype AlignedRow = AlignedRow(eid: Cell, surname: Option<string>, name: Option<string>, idFromName: Option<string>)

  /** A row of the right merge: an id with what was found for it. */
  datatype AuthorRow = AuthorRow(eid: Cell, authorId: string, surname: Option<string>, name: Option<string>)

  /** A row of the author dimension; the name is missing for an id that no
      full name of its record carries. */
  datatype Author = Author(id: string, name: Option<string>)

  /** The surname table: (eid, position, surname). */
  function SurnameRows(t: Table): seq<SurnameRow>
    requires WellFormed(t) && HasColumns(t)
  {
    var ex := ExplodeAll(Column(t, "eid").value, Column(t, "authors").value, SurnamePieces);
    var ix := CumCount(ex);
    seq(|ex|, i requires 0 <= i < |ex| => SurnameRow(ex[i].0, ix[i], ex[i].1))
  }

  /** The full-name pieces of every record, paired with its eid. */
  function NamePieces(t: Table): seq<(Cell, string)>
    requires WellFormed(t) && HasColumns(t)
  {
    ExplodeAll(Column(t, "eid").value, Column(t, "author_full_names").value, SemicolonSplit)
  }

  /** The full-name table: (eid, position, name, id from the name). */
  function NameRows(t: Table): (r: seq<NameRow>)
    requires WellFormed(t) && HasColumns(t)
    ensures |r| == |NamePieces(t)|
  {
    var ex := NamePieces(t);
    var ix := CumCount(ex);
    seq(|ex|, i requires 0 <= i < |ex| => NameRow(ex[i].0, ix[i], FullName(ex[i].1), ScopusId(ex[i].1)))
  }

  /** The id table: (eid, id). */
  function IdRows(t: Table): seq<(Cell, string)>
    requires WellFormed(t) && HasColumns(t)
  {
    ExplodeAll(Column(t, "eid").value, Column(t, "authors_id").value, SemicolonSplit)
  }

  /* ---------------------------------------------------------------------- */
  /* The outer merge on (eid, position)                                     */
  /* ---------------------------------------------------------------------- */

  /** Some surname row has record `e` and position `i`. */
  predicate HasSurname(sur: seq<SurnameRow>, e: Cell, i: nat)
  {
    exists k :: 0 <= k < |sur| && sur[k].eid == e && sur[k].index == i
  }

  /** The aligned rows of one surname row. */
  function AlignOne(s: SurnameRow, names: seq<NameRow>): seq<AlignedRow>
  {
    var ms := Filter(names, (n: NameRow) => n.eid == s.eid && n.index == s.index);
    if ms == [] then [AlignedRow(s.eid, Some(s.surname), None, None)]
    else seq(|ms|, k requires 0 <= k < |ms| => AlignedRow(s.eid, Some(s.surname), Some(ms[k].name), ms[k].idFromName))
  }

  /** Every surname row with the full-name rows of the same record and
      position, or with nothing. */
  function AlignLeft(sur: seq<SurnameRow>, names: seq<NameRow>): seq<AlignedRow>
  {
    if sur == [] then [] else AlignOne(sur[0], names) + AlignLeft(sur[1..], names)
  }

  /** `pd.merge(surnames, names, on=['eid', 'author_index'], how='outer')`:
      the surname rows with their matches, then the full-name rows no surname
      row matched. */
  function Align(sur: seq<SurnameRow>, names: seq<NameRow>): seq<AlignedRow>
  {
    var un := Filter(names, (n: NameRow) => !HasSurname(sur, n.eid, n.index));
    AlignLeft(sur, names)
      + seq(|un|, k requires 0 <= k < |un| => AlignedRow(un[k].eid, None, Some(un[k].name), un[k].idFromName))
  }

  /** An aligned row holds the full name, id and record of a full-name row. */
  predicate Carries(r: AlignedRow, n: NameRow)
  {
    r.eid == n.eid && r.name == Some(n.name) && r.idFromName == n.idFromName
  }

  /** An aligned row either has no full name and no id, or carries a
      full-name row. */
  ghost predicate Explained(r: AlignedRow, names: seq<NameRow>)
  {
    (r.name.None? && r.idFromName.None?) || exists n :: n in names && Carries(r, n)
  }

  /** Some row of `rows` carries the full-name row `n`. */
  ghost predicate CarriedIn(rows: seq<AlignedRow>, n: NameRow)
  {
    exists i :: 0 <= i < |rows| && Carries(rows[i], n)
  }

  /** A row carried in either part is carried in the concatenation. */
  lemma CarriedAppend(a: seq<AlignedRow>, b: seq<AlignedRow>, n: NameRow)
    requires CarriedIn(a, n) || CarriedIn(b, n)
    ensures CarriedIn(a + b, n)
  {
    if CarriedIn(a, n) {
      var i :| 0 <= i < |a| && Carries(a[i], n);
      assert (a + b)[i] == a[i];
    } else {
      var i :| 0 <= i < |b| && Carries(b[i], n);
      assert (a + b)[|a| + i] == b[i];
    }
  }

  /** The aligned rows of one surname row are explained. */
  lemma AlignOneSound(s: SurnameRow, names: seq<NameRow>)
    ensures forall i :: 0 <= i < |AlignOne(s, names)| ==> Explained(AlignOne(s, names)[i], names)
  {
    var ms := Filter(names, (n: NameRow) => n.eid == s.eid && n.index == s.index);
    if ms != [] {
      forall i | 0 <= i < |ms| ensures Explained(AlignOne(s, names)[i], names) {
        assert ms[i] in names && Carries(AlignOne(s, names)[i], ms[i]);
      }
    }
  }

  /** Rows explained in both parts are explained in the concatenation. */
  lemma ExplainedAppend(a: seq<AlignedRow>, b: seq<AlignedRow>, names: seq<NameRow>)
    requires forall i :: 0 <= i < |a| ==> Explained(a[i], names)
    requires forall i :: 0 <= i < |b| ==> Explained(b[i], names)
    ensures forall i :: 0 <= i < |a + b| ==> Explained((a + b)[i], names)
  {
    forall i | 0 <= i < |a + b| ensures Explained((a + b)[i], names) {
      if i >= |a| {
        assert (a + b)[i] == b[i - |a|];
      }
    }
  }

  /** Every aligned row either has no full name and no id, or carries a
      full-name row. */
  lemma {:induction false} AlignLeftSound(sur: seq<SurnameRow>, names: seq<NameRow>)
    ensures forall i :: 0 <= i < |AlignLeft(sur, names)| ==> Explained(AlignLeft(sur, names)[i], names)
  {
    if sur != [] {
      var head := AlignOne(sur[0], names);
      var tail := AlignLeft(sur[1..], names);
      assert AlignLeft(sur, names) == head + tail;
      AlignOneSound(sur[0], names);
      AlignLeftSound(sur[1..], names);
      ExplainedAppend(head, tail, names);
    }
  }

  /** Every aligned row either has no full name and no id, or carries a
      full-name row. */
  lemma AlignSound(sur: seq<SurnameRow>, names: seq<NameRow>, i: nat)
    requires i < |Align(sur, names)|
    ensures Explained(Align(sur, names)[i], names)
  {
    var left := AlignLeft(sur, names);
    var un := Filter(names, (n: NameRow) => !HasSurname(sur, n.eid, n.index));
    var right := seq(|un|, k requires 0 <= k < |un| => AlignedRow(un[k].eid, None, Some(un[k].name), un[k].idFromName));
    assert Align(sur, names) == left + right;
    if i < |left| {
      AlignLeftSound(sur, names);
      assert Align(sur, names)[i] == left[i];
    } else {
      var k := i - |left|;
      assert un[k] in names && Carries(right[k], un[k]);
      assert Align(sur, names)[i] == right[k];
    }
  }

  /** A surname row's aligned rows carry every full-name row of its record
      and position. */
  lemma AlignOneComplete(s: SurnameRow, names: seq<NameRow>, n: NameRow)
    requires n in names && n.eid == s.eid && n.index == s.index
    ensures exists j :: 0 <= j < |AlignOne(s, names)| && Carries(AlignOne(s, names)[j], n)
  {
    var ms := Filter(names, (m: NameRow) => m.eid == s.eid && m.index == s.index);
    var k := IndexOf(names, n).value;
    assert n in ms;
    var j := IndexOf(ms, n).value;
    assert Carries(AlignOne(s, names)[j], n);
  }

  /** A record and position that some surname row other than the first has. */
  lemma HasSurnameTail(sur: seq<SurnameRow>, e: Cell, i: nat)
    requires HasSurname(sur, e, i) && !(sur[0].eid == e && sur[0].index == i)
    ensures HasSurname(sur[1..], e, i)
  {
    var k :| 0 <= k < |sur| && sur[k].eid == e && sur[k].index == i;
    assert sur[1..][k - 1] == sur[k];
  }

  /** A full-name row whose record and position some surname row has is
      carried by the aligned rows of that surname row. */
  lemma {:induction false} AlignLeftComplete(sur: seq<SurnameRow>, names: seq<NameRow>, n: NameRow)
    requires n in names && HasSurname(sur, n.eid, n.index)
    ensures exists i :: 0 <= i < |AlignLeft(sur, names)| && Carries(AlignLeft(sur, names)[i], n)
  {
    var head := AlignOne(sur[0], names);
    var tail := AlignLeft(sur[1..], names);
    assert AlignLeft(sur, names) == head + tail;
    if n.eid == sur[0].eid && n.index == sur[0].index {
      AlignOneComplete(sur[0], names, n);
    } else {
      HasSurnameTail(sur, n.eid, n.index);
      AlignLeftComplete(sur[1..], names, n);
    }
    CarriedAppend(head, tail, n);
  }

  /** Every full-name row is carried by some aligned row: an outer merge
      loses nothing from either side. */
  lemma AlignComplete(sur: seq<SurnameRow>, names: seq<NameRow>, n: NameRow)
    requires n in names
    ensures exists i :: 0 <= i < |Align(sur, names)| && Carries(Align(sur, names)[i], n)
  {
    var left := AlignLeft(sur, names);
    var un := Filter(names, (m: NameRow) => !HasSurname(sur, m.eid, m.index));
    var right := seq(|un|, k requires 0 <= k < |un| => AlignedRow(un[k].eid, None, Some(un[k].name), un[k].idFromName));
    assert Align(sur, names) == left + right;
    if HasSurname(sur, n.eid, n.index) {
      AlignLeftComplete(sur, names, n);
    } else {
      var k := IndexOf(names, n).value;
      assert n in un;
      var j := IndexOf(un, n).value;
      assert Carries(right[j], n);
    }
    CarriedAppend(left, right, n);
  }

  /* ---------------------------------------------------------------------- */
  /* The right merge on (eid, id)                                           */
  /* ---------------------------------------------------------------------- */

  /** The aligned rows of record `e` whose full name carries the id `a`. */
  function Found(al: seq<AlignedRow>, e: Cell, a: string): seq<AlignedRow>
  {
    Filter(al, (x: AlignedRow) => x.eid == e && x.idFromName == Some(a))
  }

  /** What the right merge makes of the id row `(e, a)`: one row per aligned
      row found for it, or a single row with nothing when none is found. */
  function LinkOne(al: seq<AlignedRow>, e: Cell, a: string): (r: seq<AuthorRow>)
    ensures |r| >= 1 && forall k :: 0 <= k < |r| ==> r[k].eid == e && r[k].authorId == a
  {
    var ms := Found(al, e, a);
    if ms == [] then [AuthorRow(e, a, None, None)]
    else seq(|ms|, k requires 0 <= k < |ms| => AuthorRow(e, a, ms[k].surname, ms[k].name))
  }

  /** `pd.merge(aligned, ids, left_on=['eid', 'id_from_name'],
      right_on=['eid', 'authors_id'], how='right')`: the id rows in order,
      each with its matches in the order of the aligned rows. */
  function LinkIds(al: seq<AlignedRow>, ids: seq<(Cell, string)>): seq<AuthorRow>
  {
    if ids == [] then [] else LinkOne(al, ids[0].0, ids[0].1) + LinkIds(al, ids[1..])
  }

  /** Every merged row comes from one id row and is among the rows made for it. */
  lemma {:induction false} LinkIdsRow(al: seq<AlignedRow>, ids: seq<(Cell, string)>, i: nat)
    requires i < |LinkIds(al, ids)|
    ensures var r := LinkIds(al, ids)[i];
      exists p :: 0 <= p < |ids| && ids[p] == (r.eid, r.authorId) && r in LinkOne(al, ids[p].0, ids[p].1)
  {
    var head := LinkOne(al, ids[0].0, ids[0].1);
    var tail := LinkIds(al, ids[1..]);
    assert LinkIds(al, ids) == head + tail;
    if i < |head| {
      assert LinkIds(al, ids)[i] == head[i];
    } else {
      LinkIdsRow(al, ids[1..], i - |head|);
      var r := LinkIds(al, ids)[i];
      assert r == tail[i - |head|];
      var p :| 0 <= p < |ids[1..]| && ids[1..][p] == (r.eid, r.authorId) && r in LinkOne(al, ids[1..][p].0, ids[1..][p].1);
      assert ids[p + 1] == ids[1..][p];
    }
  }

  /** Every id row is in the merge: a right merge keeps all its right rows. */
  lemma {:induction false} LinkIdsKeeps(al: seq<AlignedRow>, ids: seq<(Cell, string)>, p: nat)
    requires p < |ids|
    ensures LinkOne(al, ids[p].0, ids[p].1)[0] in LinkIds(al, ids)
  {
    var head := LinkOne(al, ids[0].0, ids[0].1);
    var tail := LinkIds(al, ids[1..]);
    assert LinkIds(al, ids) == head + tail;
    if p == 0 {
      assert (head + tail)[0] == head[0];
    } else {
      LinkIdsKeeps(al, ids[1..], p - 1);
      assert ids[1..][p - 1] == ids[p];
    }
  }

  /** The first merged row with a given id is the first row made for the
      first id row with that id. */
  lemma {:induction false} LinkIdsFirst(al: seq<AlignedRow>, ids: seq<(Cell, string)>, i: nat)
    requires i < |LinkIds(al, ids)|
    requires forall q :: 0 <= q < i ==> LinkIds(al, ids)[q].authorId != LinkIds(al, ids)[i].authorId
    ensures var r := LinkIds(al, ids)[i];
      exists p :: (0 <= p < |ids| && ids[p].1 == r.authorId
        && (forall q :: 0 <= q < p ==> ids[q].1 != r.authorId)
        && r == LinkOne(al, ids[p].0, ids[p].1)[0])
  {
    assert ids != [];
    var n := |LinkOne(al, ids[0].0, ids[0].1)|;
    if i < n {
      LinkIdsFirstHead(al, ids, i);
    } else {
      LinkIdsFirstShift(al, ids, i);
      LinkIdsFirstTail(al, ids, i - n);
    }
  }

  /** Past the rows of the first id row, the merged rows are those of the
      other id rows, and a first occurrence stays one there. */
  lemma LinkIdsFirstShift(al: seq<AlignedRow>, ids: seq<(Cell, string)>, i: nat)
    requires ids != [] && |LinkOne(al, ids[0].0, ids[0].1)| <= i < |LinkIds(al, ids)|
    requires forall q :: 0 <= q < i ==> LinkIds(al, ids)[q].authorId != LinkIds(al, ids)[i].authorId
    ensures var i' := i - |LinkOne(al, ids[0].0, ids[0].1)|; var tail := LinkIds(al, ids[1..]);
      && i' < |tail| && LinkIds(al, ids)[i] == tail[i']
      && ids[0].1 != tail[i'].authorId
      && forall q :: 0 <= q < i' ==> tail[q].authorId != tail[i'].authorId
  {
    var head := LinkOne(al, ids[0].0, ids[0].1);
    var tail := LinkIds(al, ids[1..]);
    assert LinkIds(al, ids) == head + tail;
    FirstInTail(head, tail, i);
  }

  /** A first occurrence of an id past the end of `head` is one in `tail`
      too, and differs from the id of `head`'s first row. */
  lemma FirstInTail(head: seq<AuthorRow>, tail: seq<AuthorRow>, i: nat)
    requires 0 < |head| <= i < |head| + |tail|
    requires forall q :: 0 <= q < i ==> (head + tail)[q].authorId != (head + tail)[i].authorId
    ensures (head + tail)[i] == tail[i - |head|]
    ensures head[0].authorId != tail[i - |head|].authorId
    ensures forall q :: 0 <= q < i - |head| ==> tail[q].authorId != tail[i - |head|].authorId
  {
    var l := head + tail;
    assert l[0] == head[0];
    forall q | 0 <= q < i - |head| ensures tail[q].authorId != tail[i - |head|].authorId {
      assert l[|head| + q] == tail[q];
    }
  }

  /** Among the rows made for the first id row, only the first has no
      earlier row with its id. */
  lemma LinkIdsFirstHead(al: seq<AlignedRow>, ids: seq<(Cell, string)>, i: nat)
    requires ids != [] && i < |LinkOne(al, ids[0].0, ids[0].1)| && i < |LinkIds(al, ids)|
    requires forall q :: 0 <= q < i ==> LinkIds(al, ids)[q].authorId != LinkIds(al, ids)[i].authorId
    ensures i == 0 && LinkIds(al, ids)[0] == LinkOne(al, ids[0].0, ids[0].1)[0]
    ensures ids[0].1 == LinkIds(al, ids)[0].authorId
  {
    var head := LinkOne(al, ids[0].0, ids[0].1);
    var l := LinkIds(al, ids);
    assert l == head + LinkIds(al, ids[1..]);
    assert l[0] == head[0] && l[i] == head[i];
  }

  /** The step of `LinkIdsFirst` past the rows of the first id row. */
  lemma LinkIdsFirstTail(al: seq<AlignedRow>, ids: seq<(Cell, string)>, i: nat)
    requires ids != [] && i < |LinkIds(al, ids[1..])|
    requires ids[0].1 != LinkIds(al, ids[1..])[i].authorId
    requires forall q :: 0 <= q < i ==> LinkIds(al, ids[1..])[q].authorId != LinkIds(al, ids[1..])[i].authorId
    ensures var r := LinkIds(al, ids[1..])[i];
      exists p :: (0 <= p < |ids| && ids[p].1 == r.authorId
        && (forall q :: 0 <= q < p ==> ids[q].1 != r.authorId)
        && r == LinkOne(al, ids[p].0, ids[p].1)[0])
  {
    var r := LinkIds(al, ids[1..])[i];
    LinkIdsFirst(al, ids[1..], i);
    var p :| 0 <= p < |ids[1..]| && ids[1..][p].1 == r.authorId
      && (forall q :: 0 <= q < p ==> ids[1..][q].1 != r.authorId)
      && r == LinkOne(al, ids[1..][p].0, ids[1..][p].1)[0];
    assert ids[p + 1] == ids[1..][p];
    forall q | 0 <= q < p + 1 ensures ids[q].1 != r.authorId {
      if q > 0 {
        assert ids[q] == ids[1..][q - 1];
      }
    }
  }

  /** A merged row whose full name is missing has no surname either: only
      id rows that found no aligned row lack a full name, and those found
      nothing at all. So `fillna(authors)` never fills anything. */
  lemma FallbackNeverFiresRows(sur: seq<SurnameRow>, names: seq<NameRow>, ids: seq<(Cell, string)>, i: nat)
    requires i < |LinkIds(Align(sur, names), ids)|
    ensures var r := LinkIds(Align(sur, names), ids)[i]; r.name.None? ==> r.surname.None?
  {
    var al := Align(sur, names);
    var r := LinkIds(al, ids)[i];
    LinkIdsRow(al, ids, i);
    var ms := Found(al, r.eid, r.authorId);
    if ms != [] {
      var one := LinkOne(al, r.eid, r.authorId);
      var k := IndexOf(one, r).value;
      assert r.name == ms[k].name;
      assert ms[k] in al && ms[k].idFromName == Some(r.authorId);
      var j := IndexOf(al, ms[k]).value;
      AlignSound(sur, names, j);
    }
  }

  /* ---------------------------------------------------------------------- */
  /* Names, dimension and bridge                                            */
  /* ---------------------------------------------------------------------- */

  /** `str.upper()` on a cell that may be missing. */
  function UpperName(n: Option<string>): Option<string>
  {
    if n.Some? then Some(Upper(n.value)) else None
  }

  /** `fillna(authors)` on the full name, then `str.upper()`. */
  function Finish(r: AuthorRow): AuthorRow
  {
    r.(name := UpperName(if r.name.None? then r.surname else r.name))
  }

  /** Every row finished. */
  function FinishAll(rows: seq<AuthorRow>): (r: seq<AuthorRow>)
    ensures |r| == |rows|
  {
    seq(|rows|, i requires 0 <= i < |rows| => Finish(rows[i]))
  }

  /** The merged rows of a table. */
  function Linked(t: Table): seq<AuthorRow>
    requires WellFormed(t) && HasColumns(t)
  {
    LinkIds(Align(SurnameRows(t), NameRows(t)), IdRows(t))
  }

  /** The finished rows of a table. */
  function AuthorRows(t: Table): seq<AuthorRow>
    requires WellFormed(t) && HasColumns(t)
  {
    FinishAll(Linked(t))
  }

  /** The finished name is the upper-cased full name the merge found: the
      surname column never reaches the result. */
  lemma FallbackNeverFires(t: Table, i: nat)
    requires WellFormed(t) && HasColumns(t) && i < |AuthorRows(t)|
    ensures AuthorRows(t)[i].name == UpperName(Linked(t)[i].name)
  {
    FallbackNeverFiresRows(SurnameRows(t), NameRows(t), IdRows(t), i);
  }

  function AuthorKey(r: AuthorRow): string { r.authorId }

  function AuthorIdOf(x: Author): string { x.id }

  /** `dim_autores[dim_autores['authors_id'] != 'nao_informado']`. */
  function Listed(x: Author): bool { x.id != Sentinel }

  /** The `(authors_id, nome_completo)` projection. */
  function Entries(rows: seq<AuthorRow>): (r: seq<Author>)
    ensures |r| == |rows|
    ensures forall i :: 0 <= i < |rows| ==> r[i] == Author(rows[i].authorId, rows[i].name)
  {
    seq(|rows|, i requires 0 <= i < |rows| => Author(rows[i].authorId, rows[i].name))
  }

  /** `drop_duplicates(subset=['authors_id'])`, `dropna` and the sentinel
      filter: the first row of every id, the sentinel id left out. */
  function Dim(rows: seq<AuthorRow>): seq<Author>
  {
    Filter(Entries(DistinctBy(rows, AuthorKey)), Listed)
  }

  /** No two dimension rows share an id, and none is the sentinel. */
  lemma DimIdsDistinct(rows: seq<AuthorRow>)
    ensures var d := Dim(rows);
      && (forall i, j :: 0 <= i < j < |d| ==> d[i].id != d[j].id)
      && (forall i :: 0 <= i < |d| ==> d[i].id != Sentinel)
  {
    var es := Entries(DistinctBy(rows, AuthorKey));
    EntryIdsDistinct(rows);
    FilterKeysDistinct(es, Listed, AuthorIdOf);
    var d := Filter(es, Listed);
    assert KeysDistinct(d, AuthorIdOf);
    forall i, j | 0 <= i < j < |d| ensures d[i].id != d[j].id {
      assert AuthorIdOf(d[i]) != AuthorIdOf(d[j]);
    }
    forall i | 0 <= i < |d| ensures d[i].id != Sentinel {
      assert Listed(d[i]);
    }
  }

  /** The entries of the first row of every id have distinct ids. */
  lemma EntryIdsDistinct(rows: seq<AuthorRow>)
    ensures KeysDistinct(Entries(DistinctBy(rows, AuthorKey)), AuthorIdOf)
  {
    var kept := DistinctBy(rows, AuthorKey);
    var es := Entries(kept);
    forall i, j | 0 <= i < j < |es| ensures AuthorIdOf(es[i]) != AuthorIdOf(es[j]) {
      assert AuthorKey(kept[i]) != AuthorKey(kept[j]);
    }
  }

  /** An id is in the dimension exactly when some merged row has it and it
      is not the sentinel. */
  lemma DimIdsExact(rows: seq<AuthorRow>, a: string)
    ensures var d := Dim(rows);
      (exists k :: 0 <= k < |d| && d[k].id == a) <==> a != Sentinel && exists i :: 0 <= i < |rows| && rows[i].authorId == a
  {
    var d := Dim(rows);
    if exists k :: 0 <= k < |d| && d[k].id == a {
      var k :| 0 <= k < |d| && d[k].id == a;
      DimIdSound(rows, k);
    }
    if a != Sentinel && exists i :: 0 <= i < |rows| && rows[i].authorId == a {
      var i :| 0 <= i < |rows| && rows[i].authorId == a;
      DimIdComplete(rows, i);
    }
  }

  /** A dimension id is the id of some merged row, and not the sentinel. */
  lemma DimIdSound(rows: seq<AuthorRow>, k: nat)
    requires k < |Dim(rows)|
    ensures Dim(rows)[k].id != Sentinel
    ensures exists i :: 0 <= i < |rows| && rows[i].authorId == Dim(rows)[k].id
  {
    var kept := DistinctBy(rows, AuthorKey);
    var es := Entries(kept);
    var d := Dim(rows);
    assert d[k] in es && Listed(d[k]);
    var j := IndexOf(es, d[k]).value;
    assert kept[j] in rows;
    var i := IndexOf(rows, kept[j]).value;
    assert rows[i].authorId == d[k].id;
  }

  /** The id of every merged row other than the sentinel is a dimension id. */
  lemma DimIdComplete(rows: seq<AuthorRow>, i: nat)
    requires i < |rows| && rows[i].authorId != Sentinel
    ensures exists k :: 0 <= k < |Dim(rows)| && Dim(rows)[k].id == rows[i].authorId
  {
    var kept := DistinctBy(rows, AuthorKey);
    var es := Entries(kept);
    var d := Dim(rows);
    DistinctByCovers(rows, AuthorKey, i);
    var j :| 0 <= j < |kept| && AuthorKey(kept[j]) == AuthorKey(rows[i]);
    assert Listed(es[j]);
    assert es[j] in d;
    var k := IndexOf(d, es[j]).value;
    assert d[k].id == rows[i].authorId;
  }

  /** A dimension row is the finished first row made for the first id row
      with its id. */
  lemma DimRowFirst(al: seq<AlignedRow>, ids: seq<(Cell, string)>, k: nat)
    requires k < |Dim(FinishAll(LinkIds(al, ids)))|
    ensures var x := Dim(FinishAll(LinkIds(al, ids)))[k];
      exists p :: (0 <= p < |ids| && ids[p].1 == x.id
        && (forall q :: 0 <= q < p ==> ids[q].1 != x.id)
        && x == Author(x.id, Finish(LinkOne(al, ids[p].0, ids[p].1)[0]).name))
  {
    var l := LinkIds(al, ids);
    var i := DimFirst(FinishAll(l), k);
    forall q | 0 <= q < i ensures l[q].authorId != l[i].authorId {
      assert FinishAll(l)[q].authorId == l[q].authorId;
    }
    LinkIdsFirst(al, ids, i);
  }

  /** A dimension row is the entry of the first merged row `i` with its id. */
  lemma DimFirst(rows: seq<AuthorRow>, k: nat) returns (i: nat)
    requires k < |Dim(rows)|
    ensures i < |rows| && Dim(rows)[k] == Author(rows[i].authorId, rows[i].name)
    ensures forall q :: 0 <= q < i ==> rows[q].authorId != rows[i].authorId
  {
    var kept := DistinctBy(rows, AuthorKey);
    var es := Entries(kept);
    var x := Dim(rows)[k];
    assert x in es;
    var j := IndexOf(es, x).value;
    DistinctByFirst(rows, AuthorKey, j);
    i :| 0 <= i < |rows| && rows[i] == kept[j] && forall q :: 0 <= q < i ==> AuthorKey(rows[q]) != AuthorKey(rows[i]);
  }

  /** Record `e` lists a full-name piece that carries the id `a` and whose
      name is `v`. */
  ghost predicate Carried(t: Table, e: Cell, a: string, v: string)
    requires WellFormed(t) && HasColumns(t)
  {
    exists s :: (e, s) in NamePieces(t) && ScopusId(s) == Some(a) && FullName(s) == v
  }

  /** A full-name piece gives a full-name row. */
  lemma PieceNameRow(t: Table, i: nat)
    requires WellFormed(t) && HasColumns(t) && i < |NamePieces(t)|
    ensures var x := NamePieces(t)[i]; var n := NameRows(t)[i];
      n.eid == x.0 && n.idFromName == ScopusId(x.1) && n.name == FullName(x.1)
  {
  }

  /** The full-name rows are the full-name pieces, parsed. */
  lemma NameRowsCarried(t: Table, e: Cell, a: string, v: string)
    requires WellFormed(t) && HasColumns(t)
    ensures Carried(t, e, a, v) <==> exists n :: n in NameRows(t) && n.eid == e && n.idFromName == Some(a) && n.name == v
  {
    if Carried(t, e, a, v) {
      CarriedNameRow(t, e, a, v);
    }
    if exists n :: n in NameRows(t) && n.eid == e && n.idFromName == Some(a) && n.name == v {
      var n :| n in NameRows(t) && n.eid == e && n.idFromName == Some(a) && n.name == v;
      NameRowCarried(t, n);
    }
  }

  lemma CarriedNameRow(t: Table, e: Cell, a: string, v: string)
    requires WellFormed(t) && HasColumns(t) && Carried(t, e, a, v)
    ensures exists n :: n in NameRows(t) && n.eid == e && n.idFromName == Some(a) && n.name == v
  {
    var ex := NamePieces(t);
    var s :| (e, s) in ex && ScopusId(s) == Some(a) && FullName(s) == v;
    var i := IndexOf(ex, (e, s)).value;
    PieceNameRow(t, i);
    assert NameRows(t)[i] in NameRows(t);
  }

  lemma NameRowCarried(t: Table, n: NameRow)
    requires WellFormed(t) && HasColumns(t) && n in NameRows(t) && n.idFromName.Some?
    ensures Carried(t, n.eid, n.idFromName.value, n.name)
  {
    var ex := NamePieces(t);
    var i := IndexOf(NameRows(t), n).value;
    PieceNameRow(t, i);
    assert ex[i] in ex;
  }

  /** Some aligned row of record `e` carries the id `a` exactly when some
      full-name row does. */
  lemma FoundExact(sur: seq<SurnameRow>, names: seq<NameRow>, e: Cell, a: string)
    ensures Found(Align(sur, names), e, a) != [] <==> exists n :: n in names && n.eid == e && n.idFromName == Some(a)
  {
    var al := Align(sur, names);
    var ms := Found(al, e, a);
    if ms != [] {
      assert ms[0] in al && ms[0].eid == e && ms[0].idFromName == Some(a);
      var j := IndexOf(al, ms[0]).value;
      AlignSound(sur, names, j);
    }
    if exists n :: n in names && n.eid == e && n.idFromName == Some(a) {
      var n :| n in names && n.eid == e && n.idFromName == Some(a);
      AlignComplete(sur, names, n);
      var j :| 0 <= j < |al| && Carries(al[j], n);
      assert al[j] in ms;
    }
  }

  /** The name the right merge gives the first row of id row `(e, a)`: none
      when no full-name row of `e` carries `a`, otherwise the upper-cased name
      of one that does. */
  lemma LinkOneName(sur: seq<SurnameRow>, names: seq<NameRow>, e: Cell, a: string)
    ensures var r := Finish(LinkOne(Align(sur, names), e, a)[0]);
      && (r.name.None? ==> !exists n :: n in names && n.eid == e && n.idFromName == Some(a))
      && (r.name.Some? ==> exists n :: n in names && n.eid == e && n.idFromName == Some(a) && r.name.value == Upper(n.name))
  {
    var al := Align(sur, names);
    var ms := Found(al, e, a);
    FoundExact(sur, names, e, a);
    if ms != [] {
      assert ms[0] in al && ms[0].eid == e && ms[0].idFromName == Some(a);
      var j := IndexOf(al, ms[0]).value;
      AlignSound(sur, names, j);
      var n :| n in names && Carries(al[j], n);
      assert LinkOne(al, e, a)[0].name == Some(n.name);
    }
  }

  /** Record `e` names author `x.id` as `x.name`: no name when none of its
      full-name pieces carries the id, otherwise the upper-cased name of one
      that does. */
  ghost predicate NamedBy(t: Table, e: Cell, x: Author)
    requires WellFormed(t) && HasColumns(t)
  {
    && (x.name.None? ==> forall v :: !Carried(t, e, x.id, v))
    && (x.name.Some? ==> exists v :: Carried(t, e, x.id, v) && x.name.value == Upper(v))
  }

  /** Every dimension row takes its name from the record of the first id row
      listing its id. */
  lemma DimName(t: Table, k: nat)
    requires WellFormed(t) && HasColumns(t) && k < |Dim(AuthorRows(t))|
    ensures var x := Dim(AuthorRows(t))[k]; var ids := IdRows(t);
      exists p :: (0 <= p < |ids| && ids[p].1 == x.id
        && (forall q :: 0 <= q < p ==> ids[q].1 != x.id)
        && NamedBy(t, ids[p].0, x))
  {
    var sur, names, ids := SurnameRows(t), NameRows(t), IdRows(t);
    var al := Align(sur, names);
    var x := Dim(AuthorRows(t))[k];
    DimRowFirst(al, ids, k);
    var p :| 0 <= p < |ids| && ids[p].1 == x.id
        && (forall q :: 0 <= q < p ==> ids[q].1 != x.id)
        && x == Author(x.id, Finish(LinkOne(al, ids[p].0, ids[p].1)[0]).name);
    FirstRowNamed(t, ids[p].0, x);
  }

  /** A dimension row made from the first merged row of the id row `(e, id)`
      takes its name from record `e`. */
  lemma FirstRowNamed(t: Table, e: Cell, x: Author)
    requires WellFormed(t) && HasColumns(t)
    requires x == Author(x.id, Finish(LinkOne(Align(SurnameRows(t), NameRows(t)), e, x.id)[0]).name)
    ensures NamedBy(t, e, x)
  {
    var sur, names := SurnameRows(t), NameRows(t);
    LinkOneName(sur, names, e, x.id);
    if x.name.None? {
      forall v ensures !Carried(t, e, x.id, v) {
        NameRowsCarried(t, e, x.id, v);
      }
    } else {
      var n :| n in names && n.eid == e && n.idFromName == Some(x.id) && x.name.value == Upper(n.name);
      NameRowsCarried(t, e, x.id, n.name);
    }
  }

  /** The `(eid, authors_id)` projection of the merged rows. */
  function Pairs(rows: seq<AuthorRow>): (r: seq<(Cell, string)>)
    ensures |r| == |rows|
    ensures forall i :: 0 <= i < |rows| ==> r[i] == (rows[i].eid, rows[i].authorId)
  {
    seq(|rows|, i requires 0 <= i < |rows| => (rows[i].eid, rows[i].authorId))
  }

  /** `dropna()` on a pair: the id is never missing, the eid may be. */
  function Known(p: (Cell, string)): bool { p.0 != Null }

  /** The bridge as the source builds it: `drop_duplicates().dropna()`, with
      no sentinel filter. */
  function BridgeAsWritten(rows: seq<AuthorRow>): seq<(Cell, string)>
  {
    Filter(Distinct(Pairs(rows)), Known)
  }

  /** The same filter the dimension applies. */
  function ListedPair(p: (Cell, string)): bool { p.1 != Sentinel }

  /** The bridge restricted to ids the dimension keeps. */
  function Bridge(rows: seq<AuthorRow>): seq<(Cell, string)>
  {
    Filter(BridgeAsWritten(rows), ListedPair)
  }

  /** Record `e` lists the id `a` in its `authors_id` field. */
  ghost predicate ListsId(t: Table, e: Cell, a: string)
    requires WellFormed(t) && HasColumns(t)
  {
    exists i :: 0 <= i < |t.rows| && Column(t, "eid").value[i] == e
      && Column(t, "authors_id").value[i].Str? && a in SemicolonSplit(Column(t, "authors_id").value[i].s)
  }

  /** The merged rows hold exactly the id rows' pairs. */
  lemma PairsOfLinked(al: seq<AlignedRow>, ids: seq<(Cell, string)>, e: Cell, a: string)
    ensures (e, a) in Pairs(FinishAll(LinkIds(al, ids))) <==> (e, a) in ids
  {
    var l := LinkIds(al, ids);
    var ps := Pairs(FinishAll(l));
    if (e, a) in ps {
      var i := IndexOf(ps, (e, a)).value;
      LinkIdsRow(al, ids, i);
    }
    if (e, a) in ids {
      var p := IndexOf(ids, (e, a)).value;
      LinkIdsKeeps(al, ids, p);
      var i := IndexOf(l, LinkOne(al, e, a)[0]).value;
      assert ps[i] == (e, a);
    }
  }

  /** An id row is a piece of a record's `authors_id` field. */
  lemma IdRowsExact(t: Table, e: Cell, a: string)
    requires WellFormed(t) && HasColumns(t)
    ensures (e, a) in IdRows(t) <==> ListsId(t, e, a)
  {
    ExplodeAllExact(Column(t, "eid").value, Column(t, "authors_id").value, SemicolonSplit, e, a);
  }

  /** The bridge as written has no repeated pair, and links a record to an
      id exactly when the record has an eid and lists the id. */
  lemma BridgeAsWrittenExact(t: Table, e: Cell, a: string)
    requires WellFormed(t) && HasColumns(t)
    ensures NoDups(BridgeAsWritten(AuthorRows(t)))
    ensures (e, a) in BridgeAsWritten(AuthorRows(t)) <==> e != Null && ListsId(t, e, a)
  {
    var ps := Pairs(AuthorRows(t));
    FilterNoDups(Distinct(ps), Known);
    PairsOfLinked(Align(SurnameRows(t), NameRows(t)), IdRows(t), e, a);
    IdRowsExact(t, e, a);
    var b := BridgeAsWritten(AuthorRows(t));
    if e != Null && (e, a) in ps {
      assert (e, a) in Distinct(ps);
      var i :| 0 <= i < |Distinct(ps)| && Distinct(ps)[i] == (e, a);
      assert Known(Distinct(ps)[i]);
    }
  }

  /** The as-written bridge keeps the pair of a record listing the sentinel
      id, which the dimension leaves out: the bridge then points at an author
      the dimension does not have. */
  lemma SentinelDangles(t: Table, e: Cell)
    requires WellFormed(t) && HasColumns(t)
    requires e != Null && ListsId(t, e, Sentinel)
    ensures (e, Sentinel) in BridgeAsWritten(AuthorRows(t))
    ensures forall k :: 0 <= k < |Dim(AuthorRows(t))| ==> Dim(AuthorRows(t))[k].id != Sentinel
  {
    BridgeAsWrittenExact(t, e, Sentinel);
    DimIdsDistinct(AuthorRows(t));
  }

  /** A one-article table whose missing author ids were filled with the
      sentinel. */
  function SentinelTable(): Table
  {
    Table(["eid", "authors", "authors_id", "author_full_names"],
      [Object, Object, Object, Object],
      [[Str("2-s2.0-1"), Str(Sentinel), Str(Sentinel), Str(Sentinel)]])
  }

  /** That table lists the sentinel id, so its bridge dangles. */
  lemma SentinelTableDangles()
    ensures WellFormed(SentinelTable()) && HasColumns(SentinelTable())
    ensures (Str("2-s2.0-1"), Sentinel) in BridgeAsWritten(AuthorRows(SentinelTable()))
  {
    SentinelTableListsId();
    SentinelDangles(SentinelTable(), Str("2-s2.0-1"));
  }

  /** That table's one row lists the sentinel id. */
  lemma SentinelTableListsId()
    ensures WellFormed(SentinelTable()) && HasColumns(SentinelTable())
    ensures ListsId(SentinelTable(), Str("2-s2.0-1"), Sentinel)
  {
    var t := SentinelTable();
    SentinelTableColumns();
    SemicolonSplitPlain(Sentinel);
    assert Column(t, "eid").value[0] == Str("2-s2.0-1");
  }

  /** The one row of that table, read through its columns. */
  lemma SentinelTableColumns()
    ensures WellFormed(SentinelTable()) && HasColumns(SentinelTable())
    ensures |SentinelTable().rows| == 1
    ensures Column(SentinelTable(), "eid").value[0] == Str("2-s2.0-1")
    ensures Column(SentinelTable(), "authors_id").value[0] == Str(Sentinel)
  {
    var t := SentinelTable();
    assert IndexOf(t.columns, "eid") == Some(0);
    assert IndexOf(t.columns, "authors_id") == Some(2);
  }

  /** The corrected bridge links a record to an id exactly when the record
      has an eid and lists an id other than the sentinel. */
  lemma BridgeExact(t: Table, e: Cell, a: string)
    requires WellFormed(t) && HasColumns(t)
    ensures NoDups(Bridge(AuthorRows(t)))
    ensures (e, a) in Bridge(AuthorRows(t)) <==> e != Null && a != Sentinel && ListsId(t, e, a)
  {
    var w := BridgeAsWritten(AuthorRows(t));
    BridgeAsWrittenExact(t, e, a);
    FilterNoDups(w, ListedPair);
    if a != Sentinel && (e, a) in w {
      var i := IndexOf(w, (e, a)).value;
      assert ListedPair(w[i]);
    }
  }

  /** Every id of the corrected bridge is a dimension id. */
  lemma BridgeClosed(t: Table, i: nat)
    requires WellFormed(t) && HasColumns(t) && i < |Bridge(AuthorRows(t))|
    ensures exists k :: 0 <= k < |Dim(AuthorRows(t))| && Dim(AuthorRows(t))[k].id == Bridge(AuthorRows(t))[i].1
  {
    var rows := AuthorRows(t);
    var p := Bridge(rows)[i];
    assert p in BridgeAsWritten(rows) && ListedPair(p);
    assert p in Distinct(Pairs(rows));
    var j :| 0 <= j < |Pairs(rows)| && Pairs(rows)[j] == p;
    DimIdsExact(rows, p.1);
  }

  /** `criar_modelo_autores` as written: `None` when one of the four columns
      is missing, otherwise the author dimension and the bridge with the
      sentinel pairs kept. */
  function AuthorModelAsWritten(t: Table): (r: Option<(seq<Author>, seq<(Cell, string)>)>)
    requires WellFormed(t)
    ensures r.None? <==> !HasColumns(t)
  {
    if !HasColumns(t) then None
    else Some((Dim(AuthorRows(t)), BridgeAsWritten(AuthorRows(t))))
  }

  /** `criar_modelo_autores` with the bridge restricted to the dimension's
      ids. */
  function AuthorModel(t: Table): (r: Option<(seq<Author>, seq<(Cell, string)>)>)
    requires WellFormed(t)
    ensures r.None? <==> !HasColumns(t)
  {
    if !HasColumns(t) then None
    else Some((Dim(AuthorRows(t)), Bridge(AuthorRows(t))))
  }
}
