/** The cross-source unifier: the CNCFlora species names are looked for, as
    whole words and ignoring case, in the title and abstract of every Scopus
    article; the names found extend the CNCFlora names into a master species
    dimension keyed by position, and every (article, species) pair found
    becomes a bridge row. */
module Unifier {
  import opened Seqs
  import opened Text
  import opened Frames
  import opened Dimension

  // ---------------------------------------------------------------------
  // The pattern `\b(name1|name2|...)\b` with `re.IGNORECASE`
  // ---------------------------------------------------------------------

  /** `\b` at position `i` of `s`: a word character on exactly one side. */
  predicate Boundary(s: string, i: nat)
    requires i <= |s|
  {
    (0 < i && IsWordChar(s[i - 1])) != (i < |s| && IsWordChar(s[i]))
  }

  /** Equal ignoring case, character by character. */
  predicate SameLetters(a: string, b: string)
  {
    |a| == |b| && forall k :: 0 <= k < |a| ==> LowerChar(a[k]) == LowerChar(b[k])
  }

  /** The escaped name `name` matches at `i`, between two word boundaries. */
  predicate MatchesAt(s: string, i: nat, name: string)
  {
    i + |name| <= |s| && Boundary(s, i) && SameLetters(s[i..i + |name|], name) && Boundary(s, i + |name|)
  }

  /** The alternative the regex engine settles on at `i`: the alternatives
      are tried in list order, and one whose closing `\b` fails gives way to
      the next. */
  function FirstMatch(s: string, i: nat, names: seq<string>): Option<nat>
  {
    if names == [] then None
    else if MatchesAt(s, i, names[0]) then Some(0)
    else
      match FirstMatch(s, i, names[1..])
      case None => None
      case Some(k) => Some(k + 1)
  }

  /** The alternative chosen matches and is the earliest-listed one that
      does; when none is chosen, no alternative matches. */
  lemma {:induction false} FirstMatchExact(s: string, i: nat, names: seq<string>)
    ensures var r := FirstMatch(s, i, names);
      && (r.Some? ==> r.value < |names| && MatchesAt(s, i, names[r.value]))
      && (r.Some? ==> forall k :: 0 <= k < r.value ==> !MatchesAt(s, i, names[k]))
      && (r.None? ==> forall k :: 0 <= k < |names| ==> !MatchesAt(s, i, names[k]))
  {
    if names != [] && !MatchesAt(s, i, names[0]) {
      FirstMatchExact(s, i, names[1..]);
      assert forall k :: 1 <= k < |names| ==> names[1..][k - 1] == names[k];
    }
  }

  // ---------------------------------------------------------------------
  // `findall`'s scan, over an abstract matcher
  // ---------------------------------------------------------------------

  /** `findall`'s scan over positions `i..n-1`: `first(p)` is the alternative
      that matches at `p`, if any, and `width(k)` the length of alternative
      `k`. A match is reported as (start, alternative); the search resumes at
      its end (one further on after an empty match), and where nothing
      matches it moves one position on. */
  function Scan(n: nat, first: nat -> Option<nat>, width: nat -> nat, i: nat): (r: seq<(nat, nat)>)
    ensures forall j :: 0 <= j < |r| ==> i <= r[j].0 < n && first(r[j].0) == Some(r[j].1)
    decreases n - i
  {
    if i >= n then []
    else
      match first(i)
      case None => Scan(n, first, width, i + 1)
      case Some(k) => [(i, k)] + Scan(n, first, width, i + Resume(width(k)))
  }

  /** How far the search moves after a match of the given width. */
  function Resume(w: nat): nat
  {
    if w == 0 then 1 else w
  }

  /** Each match ends before the next one starts. */
  ghost predicate Ordered(sp: seq<(nat, nat)>, width: nat -> nat)
  {
    forall j :: 0 <= j < |sp| - 1 ==> sp[j].0 + width(sp[j].1) <= sp[j + 1].0
  }

  /** Reported matches come in order and never overlap. */
  lemma {:induction false} ScanOrdered(n: nat, first: nat -> Option<nat>, width: nat -> nat, i: nat)
    ensures Ordered(Scan(n, first, width, i), width)
    decreases n - i
  {
    if i < n {
      match first(i)
      case None =>
        ScanOrdered(n, first, width, i + 1);
        assert Scan(n, first, width, i) == Scan(n, first, width, i + 1);
      case Some(k) =>
        var rest := Scan(n, first, width, i + Resume(width(k)));
        ScanOrdered(n, first, width, i + Resume(width(k)));
        var sp := [(i, k)] + rest;
        assert Scan(n, first, width, i) == sp;
        forall j | 0 <= j < |sp| - 1 ensures sp[j].0 + width(sp[j].1) <= sp[j + 1].0 {
          assert sp[j + 1] == rest[j];
          if j > 0 {
            assert sp[j] == rest[j - 1];
          } else {
            assert rest[0].0 >= i + Resume(width(k));
          }
        }
    }
  }

  /** A run of positions where nothing matches is passed over. */
  lemma {:induction false} ScanSkip(n: nat, first: nat -> Option<nat>, width: nat -> nat, i: nat, j: nat)
    requires i <= j
    requires forall p: nat :: i <= p < j ==> first(p).None?
    ensures Scan(n, first, width, i) == Scan(n, first, width, j)
    decreases j - i
  {
    if i < j {
      ScanSkip(n, first, width, i + 1, j);
      if i < n {
        assert Scan(n, first, width, i) == Scan(n, first, width, i + 1);
      }
    }
  }

  /** Nothing matches at any position of `[a, b)`. */
  ghost predicate NoMatchIn(first: nat -> Option<nat>, a: nat, b: nat)
  {
    forall p: nat :: a <= p < b ==> first(p).None?
  }

  /** Where the first reported match starts, or `n`. */
  function FirstStart(n: nat, sp: seq<(nat, nat)>): nat
  {
    if sp == [] then n else sp[0].0
  }

  /** Where the gap after match `j` ends: the next match's start, or `n`. */
  function GapEnd(n: nat, sp: seq<(nat, nat)>, j: nat): nat
  {
    if j + 1 < |sp| then sp[j + 1].0 else n
  }

  /** Nothing matches before the first reported match, nor in the gap after
      any reported match. */
  ghost predicate GapsClear(n: nat, first: nat -> Option<nat>, width: nat -> nat, from: nat, sp: seq<(nat, nat)>)
  {
    && NoMatchIn(first, from, FirstStart(n, sp))
    && forall j :: 0 <= j < |sp| ==> NoMatchIn(first, sp[j].0 + width(sp[j].1), GapEnd(n, sp, j))
  }

  /** A position where nothing matches widens the first gap. */
  lemma GapsClearSkip(n: nat, first: nat -> Option<nat>, width: nat -> nat, i: nat, sp: seq<(nat, nat)>)
    requires first(i).None?
    requires GapsClear(n, first, width, i + 1, sp)
    ensures GapsClear(n, first, width, i, sp)
  {
  }

  /** A match at the start of the gap becomes the first reported match. */
  lemma GapsClearMatch(n: nat, first: nat -> Option<nat>, width: nat -> nat, i: nat, k: nat, rest: seq<(nat, nat)>)
    requires GapsClear(n, first, width, i + width(k), rest)
    ensures GapsClear(n, first, width, i, [(i, k)] + rest)
  {
    var sp := [(i, k)] + rest;
    assert FirstStart(n, sp) == i;
    assert GapEnd(n, sp, 0) == FirstStart(n, rest);
    forall j | 1 <= j < |sp|
      ensures NoMatchIn(first, sp[j].0 + width(sp[j].1), GapEnd(n, sp, j))
    {
      assert sp[j] == rest[j - 1];
      assert GapEnd(n, sp, j) == GapEnd(n, rest, j - 1);
    }
  }

  /** With no empty alternative the scan misses nothing: no alternative
      matches before the first reported match, nor between a match's end and
      the next match (or `n`). */
  lemma {:induction false} ScanLeftmost(n: nat, first: nat -> Option<nat>, width: nat -> nat, i: nat)
    requires forall p: nat, k :: first(p) == Some(k) ==> width(k) > 0
    ensures GapsClear(n, first, width, i, Scan(n, first, width, i))
    decreases n - i
  {
    if i >= n {
      assert Scan(n, first, width, i) == [];
    } else {
      match first(i)
      case None =>
        ScanLeftmost(n, first, width, i + 1);
        assert Scan(n, first, width, i) == Scan(n, first, width, i + 1);
        GapsClearSkip(n, first, width, i, Scan(n, first, width, i + 1));
      case Some(k) =>
        var rest := Scan(n, first, width, i + width(k));
        ScanLeftmost(n, first, width, i + width(k));
        assert Scan(n, first, width, i) == [(i, k)] + rest;
        GapsClearMatch(n, first, width, i, k, rest);
    }
  }

  // ---------------------------------------------------------------------
  // `findall` of the species pattern
  // ---------------------------------------------------------------------

  /** The matcher of the species pattern over `s`. */
  function Matcher(s: string, names: seq<string>): nat -> Option<nat>
  {
    (p: nat) => FirstMatch(s, p, names)
  }

  /** The length of each alternative. */
  function Widths(names: seq<string>): nat -> nat
  {
    (k: nat) => if k < |names| then |names[k]| else 0
  }

  /** The matches `findall` reports, as (start, index of the name) pairs. */
  function Spans(s: string, names: seq<string>): (r: seq<(nat, nat)>)
    ensures forall j :: 0 <= j < |r| ==> FirstMatch(s, r[j].0, names) == Some(r[j].1)
    ensures forall j :: 0 <= j < |r| ==> r[j].1 < |names| && r[j].0 + |names[r[j].1]| <= |s|
  {
    var r := Scan(|s|, Matcher(s, names), Widths(names), 0);
    assert forall j :: 0 <= j < |r| ==> Matcher(s, names)(r[j].0) == Some(r[j].1);
    forall j | 0 <= j < |r| ensures r[j].1 < |names| && r[j].0 + |names[r[j].1]| <= |s| {
      FirstMatchExact(s, r[j].0, names);
    }
    r
  }

  /** `texto_busca.str.findall(pattern, flags=re.IGNORECASE)`: the matched
      text as written in the article, not the listed spelling. */
  function FindAll(s: string, names: seq<string>): (r: seq<string>)
  {
    var sp := Spans(s, names);
    seq(|sp|, j requires 0 <= j < |sp| => s[sp[j].0..sp[j].0 + |names[sp[j].1]|])
  }

  /** No listed name is empty: `read_csv` reads an empty field as missing. */
  predicate NamesNonEmpty(names: seq<string>)
  {
    forall k :: 0 <= k < |names| ==> names[k] != ""
  }

  /** A match starts at a word boundary, on a letter equal up to case to the
      first letter of the name. */
  lemma NoMatchAt(s: string, p: nat, names: seq<string>)
    requires p < |s| && NamesNonEmpty(names)
    requires !Boundary(s, p) || forall k :: 0 <= k < |names| ==> LowerChar(s[p]) != LowerChar(names[k][0])
    ensures FirstMatch(s, p, names).None?
  {
    FirstMatchExact(s, p, names);
  }

  /** Each reported match is a listed name, between word boundaries, and no
      earlier-listed name matches at the same position. */
  lemma SpanSound(s: string, names: seq<string>, j: nat)
    requires j < |Spans(s, names)|
    ensures var sp := Spans(s, names)[j];
      && sp.1 < |names| && MatchesAt(s, sp.0, names[sp.1])
      && forall k :: 0 <= k < sp.1 ==> !MatchesAt(s, sp.0, names[k])
  {
    var sp := Spans(s, names)[j];
    assert FirstMatch(s, sp.0, names) == Some(sp.1);
    FirstMatchExact(s, sp.0, names);
  }

  /** Reported matches follow one another in the text without overlapping. */
  lemma SpansOrdered(s: string, names: seq<string>, j: nat)
    requires j + 1 < |Spans(s, names)|
    ensures var sp := Spans(s, names);
      sp[j].1 < |names| && sp[j].0 + |names[sp[j].1]| <= sp[j + 1].0
  {
    var sp := Spans(s, names);
    ScanOrdered(|s|, Matcher(s, names), Widths(names), 0);
    SpanSound(s, names, j);
    assert Widths(names)(sp[j].1) == |names[sp[j].1]|;
  }

  /** Every string found is the article's text at a reported match, and
      equals the listed name up to case. */
  lemma FindAllSound(s: string, names: seq<string>, j: nat)
    requires j < |FindAll(s, names)|
    ensures var sp := Spans(s, names)[j];
      && sp.1 < |names| && sp.0 + |names[sp.1]| <= |s|
      && FindAll(s, names)[j] == s[sp.0..sp.0 + |names[sp.1]|]
      && SameLetters(FindAll(s, names)[j], names[sp.1])
  {
    SpanSound(s, names, j);
  }

  /** Nothing is skipped: no listed name matches before the first string
      found, nor between the end of a found string and the start of the next
      (or the end of the text). */
  lemma FindAllLeftmost(s: string, names: seq<string>, j: nat, p: nat)
    requires NamesNonEmpty(names)
    requires var sp := Spans(s, names);
      || p < FirstStart(|s|, sp)
      || (j < |sp| && sp[j].0 + |names[sp[j].1]| <= p < GapEnd(|s|, sp, j))
    ensures forall k :: 0 <= k < |names| ==> !MatchesAt(s, p, names[k])
  {
    var m, w := Matcher(s, names), Widths(names);
    forall q: nat, k | m(q) == Some(k) ensures w(k) > 0 {
      FirstMatchExact(s, q, names);
    }
    ScanLeftmost(|s|, m, w, 0);
    var sp := Spans(s, names);
    assert GapsClear(|s|, m, w, 0, sp);
    if p < FirstStart(|s|, sp) {
      assert NoMatchIn(m, 0, FirstStart(|s|, sp));
    } else {
      assert w(sp[j].1) == |names[sp[j].1]|;
      assert NoMatchIn(m, sp[j].0 + w(sp[j].1), GapEnd(|s|, sp, j));
    }
    assert m(p).None?;
    FirstMatchExact(s, p, names);
  }

  // ---------------------------------------------------------------------
  // Inputs: the name list and the search texts
  // ---------------------------------------------------------------------

  /** The string cells of a column in order, missing cells dropped
      (`dropna()`); `None` when a cell is numeric, on which `re.escape`
      raises. */
  function NameStrings(col: seq<Cell>): Option<seq<string>>
  {
    if col == [] then Some([])
    else
      match (col[0], NameStrings(col[1..]))
      case (Num(_), _) => None
      case (_, None) => None
      case (Null, Some(vs)) => Some(vs)
      case (Str(v), Some(vs)) => Some([v] + vs)
  }

  /** `lista_de_plantas`: `dropna().unique().tolist()` of `nome_cientifico`,
      each later escaped into the pattern. */
  function PlantNames(col: seq<Cell>): Option<seq<string>>
  {
    match NameStrings(col)
    case None => None
    case Some(vs) => Some(Distinct(vs))
  }

  /** The name list exists exactly when no cell is numeric; it then holds
      every string cell once and nothing else. */
  lemma {:induction false} NameStringsExact(col: seq<Cell>, v: string)
    ensures NameStrings(col).Some? <==> forall i :: 0 <= i < |col| ==> !col[i].Num?
    ensures NameStrings(col).Some? ==> (v in NameStrings(col).value <==> Str(v) in col)
  {
    if col != [] {
      NameStringsExact(col[1..], v);
      assert forall i :: 1 <= i < |col| ==> col[1..][i - 1] == col[i];
      assert Str(v) in col <==> col[0] == Str(v) || Str(v) in col[1..];
    }
  }

  lemma PlantNamesExact(col: seq<Cell>, v: string)
    ensures PlantNames(col).Some? <==> forall i :: 0 <= i < |col| ==> !col[i].Num?
    ensures PlantNames(col).Some? ==> NoDups(PlantNames(col).value)
    ensures PlantNames(col).Some? ==> (v in PlantNames(col).value <==> Str(v) in col)
  {
    NameStringsExact(col, v);
  }

  /** `fillna('')` on one cell; `None` for a number, which the string
      concatenation rejects. */
  function TextPart(c: Cell): Option<string>
  {
    match c
    case Null => Some("")
    case Str(v) => Some(v)
    case Num(_) => None
  }

  /** `texto_busca` of one article: `title + ' ' + abstract`. */
  function SearchText(title: Cell, summary: Cell): (r: Option<string>)
  {
    match (TextPart(title), TextPart(summary))
    case (Some(t), Some(a)) => Some(t + " " + a)
    case _ => None
  }

  /** `texto_busca` of every article; `None` when any cell is a number. */
  function SearchTexts(titles: seq<Cell>, summaries: seq<Cell>): Option<seq<string>>
    requires |titles| == |summaries|
  {
    if titles == [] then Some([])
    else
      match (SearchText(titles[0], summaries[0]), SearchTexts(titles[1..], summaries[1..]))
      case (Some(t), Some(ts)) => Some([t] + ts)
      case _ => None
  }

  /** The search texts exist exactly when no title or abstract is a number;
      each is then the title and the abstract, a missing one read as empty,
      joined by a space. */
  lemma {:induction false} SearchTextsExact(titles: seq<Cell>, summaries: seq<Cell>)
    requires |titles| == |summaries|
    ensures SearchTexts(titles, summaries).Some? <==>
      forall i :: 0 <= i < |titles| ==> !titles[i].Num? && !summaries[i].Num?
    ensures SearchTexts(titles, summaries).Some? ==>
      var ts := SearchTexts(titles, summaries).value;
      |ts| == |titles| &&
      forall i :: 0 <= i < |titles| ==>
        ts[i] == (if titles[i].Str? then titles[i].s else "") + " " + (if summaries[i].Str? then summaries[i].s else "")
  {
    if titles != [] {
      SearchTextsExact(titles[1..], summaries[1..]);
      assert forall i :: 1 <= i < |titles| ==> titles[1..][i - 1] == titles[i] && summaries[1..][i - 1] == summaries[i];
    }
  }

  // ---------------------------------------------------------------------
  // The master dimension and the bridge
  // ---------------------------------------------------------------------

  /** The species dimension and the article-species bridge. */
  datatype Unified = Unified(master: seq<(nat, Cell)>, bridge: seq<(Cell, nat)>)

  /** Each text as a string cell. */
  function TextCells(texts: seq<string>): (r: seq<Cell>)
    ensures |r| == |texts| && forall i :: 0 <= i < |texts| ==> r[i] == Str(texts[i])
  {
    seq(|texts|, i requires 0 <= i < |texts| => Str(texts[i]))
  }

  /** `pon_artigo_especie_temp`: the articles with at least one match, one
      row per string found, in article order and then text order. An
      article without matches gives no row (the filter keeps `explode` from
      giving it a missing one). */
  function Found(ids: seq<Cell>, texts: seq<string>, names: seq<string>): seq<(Cell, string)>
    requires |ids| == |texts|
  {
    ExplodeAll(ids, TextCells(texts), t => FindAll(t, names))
  }

  /** The found strings as cells of the `nome_cientifico` column. */
  function Tagged(rows: seq<(Cell, string)>): (r: seq<(Cell, Cell)>)
    ensures |r| == |rows| && forall i :: 0 <= i < |rows| ==> r[i] == (rows[i].0, Str(rows[i].1))
  {
    seq(|rows|, i requires 0 <= i < |rows| => (rows[i].0, Str(rows[i].1)))
  }

  /** `dim_especies_mestre`'s names: the CNCFlora column as read, followed by
      `especies_scopus` (the distinct strings found), with `drop_duplicates()`
      keeping each value's first row. */
  function MasterValues(col: seq<Cell>, rows: seq<(Cell, string)>): seq<Cell>
  {
    Distinct(col + Values(Tagged(rows)))
  }

  /** The master dimension lists every CNCFlora cell and every string found,
      each once, and nothing else. */
  lemma MasterExact(col: seq<Cell>, rows: seq<(Cell, string)>, c: Cell)
    ensures NoDups(MasterValues(col, rows))
    ensures c in MasterValues(col, rows) <==> c in col || exists a, v :: (a, v) in rows && c == Str(v)
  {
    var tagged := Tagged(rows);
    var all := col + Values(tagged);
    ValuesPairs(tagged, c);
    if c in MasterValues(col, rows) {
      var i := IndexOf(all, c).value;
      if i >= |col| {
        assert c in Values(tagged);
        var a :| (a, c) in tagged;
        var j := IndexOf(tagged, (a, c)).value;
        assert (a, rows[j].1) in rows && c == Str(rows[j].1);
      }
    }
    if c !in col && exists a, v :: (a, v) in rows && c == Str(v) {
      var a, v :| (a, v) in rows && c == Str(v);
      var j := IndexOf(rows, (a, v)).value;
      assert tagged[j] == (a, c);
      assert c in all;
    }
    if c in col {
      assert all[IndexOf(col, c).value] == c;
    }
  }

  /** The CNCFlora names come first, in their own first-seen order. */
  lemma MasterStartsWithCncflora(col: seq<Cell>, rows: seq<(Cell, string)>)
    ensures var m, d := MasterValues(col, rows), Distinct(col);
      |d| <= |m| && forall k :: 0 <= k < |d| ==> m[k] == d[k]
  {
    DistinctPrefix(col, Values(Tagged(rows)));
  }

  /** `pon_artigo_especie`: each found row merged with the master dimension
      on the name, projected on (`article_id`, `especie_id`) and
      de-duplicated. */
  function BridgeRows(rows: seq<(Cell, string)>, master: seq<Cell>): seq<(Cell, nat)>
    requires forall i :: 0 <= i < |rows| ==> Str(rows[i].1) in master
  {
    var tagged := Tagged(rows);
    Distinct(Link(tagged, master))
  }

  /** Master dimension and bridge from the CNCFlora column, the name list,
      the article ids and the search texts. */
  function Build(col: seq<Cell>, names: seq<string>, ids: seq<Cell>, texts: seq<string>): Unified
    requires |ids| == |texts|
  {
    var rows := Found(ids, texts, names);
    var master := MasterValues(col, rows);
    assert forall i :: 0 <= i < |rows| ==> Str(rows[i].1) in master by {
      forall i | 0 <= i < |rows| ensures Str(rows[i].1) in master {
        MasterExact(col, rows, Str(rows[i].1));
        assert rows[i] in rows;
      }
    }
    Unified(Numbered(master), BridgeRows(rows, master))
  }

  /** A found row is a string the scan found in that article's text. */
  lemma FoundExact(ids: seq<Cell>, texts: seq<string>, names: seq<string>, a: Cell, v: string)
    requires |ids| == |texts|
    ensures (a, v) in Found(ids, texts, names) <==>
      exists i :: 0 <= i < |ids| && ids[i] == a && v in FindAll(texts[i], names)
  {
    ExplodeAllExact(ids, TextCells(texts), t => FindAll(t, names), a, v);
  }

  /** The strings found, over all articles. */
  lemma FoundStrings(ids: seq<Cell>, texts: seq<string>, names: seq<string>, c: Cell)
    requires |ids| == |texts|
    ensures (exists a, v :: (a, v) in Found(ids, texts, names) && c == Str(v)) <==>
      exists i, v :: 0 <= i < |ids| && v in FindAll(texts[i], names) && c == Str(v)
  {
    var rows := Found(ids, texts, names);
    if exists a, v :: (a, v) in rows && c == Str(v) {
      var a, v :| (a, v) in rows && c == Str(v);
      FoundExact(ids, texts, names, a, v);
    }
    if exists i, v :: 0 <= i < |ids| && v in FindAll(texts[i], names) && c == Str(v) {
      var i, v :| 0 <= i < |ids| && v in FindAll(texts[i], names) && c == Str(v);
      FoundExact(ids, texts, names, ids[i], v);
    }
  }

  /** The numbered master dimension: ids are positions, names are distinct,
      and a name is listed exactly when the master values hold it. */
  lemma NumberedMaster(col: seq<Cell>, rows: seq<(Cell, string)>, m: seq<(nat, Cell)>, c: Cell)
    requires m == Numbered(MasterValues(col, rows))
    ensures forall k :: 0 <= k < |m| ==> m[k].0 == k
    ensures forall k, l :: 0 <= k < l < |m| ==> m[k].1 != m[l].1
    ensures (exists k :: 0 <= k < |m| && m[k].1 == c) <==> c in col || exists a, v :: (a, v) in rows && c == Str(v)
  {
    var vals := MasterValues(col, rows);
    MasterExact(col, rows, c);
    if c in vals {
      assert m[IndexOf(vals, c).value].1 == c;
    }
  }

  /** Row `k` of the master dimension has id `k`; it holds every CNCFlora
      cell, found or not, and every string found in any article, each once. */
  lemma BuildMaster(col: seq<Cell>, names: seq<string>, ids: seq<Cell>, texts: seq<string>, c: Cell)
    requires |ids| == |texts|
    ensures var m := Build(col, names, ids, texts).master;
      && (forall k :: 0 <= k < |m| ==> m[k].0 == k)
      && (forall k, l :: 0 <= k < l < |m| ==> m[k].1 != m[l].1)
      && ((exists k :: 0 <= k < |m| && m[k].1 == c) <==>
          c in col || exists i, v :: 0 <= i < |ids| && v in FindAll(texts[i], names) && c == Str(v))
  {
    var rows := Found(ids, texts, names);
    NumberedMaster(col, rows, Build(col, names, ids, texts).master, c);
    FoundStrings(ids, texts, names, c);
  }

  /** Against the master values, the bridge has no repeated pair and links
      an article to position `k` exactly when one of its found rows holds
      the name there. */
  lemma BridgeRowsExact(col: seq<Cell>, rows: seq<(Cell, string)>, master: seq<Cell>, a: Cell, k: nat)
    requires master == MasterValues(col, rows)
    requires forall i :: 0 <= i < |rows| ==> Str(rows[i].1) in master
    ensures NoDups(BridgeRows(rows, master))
    ensures (a, k) in BridgeRows(rows, master) <==>
      k < |master| && exists v :: (a, v) in rows && master[k] == Str(v)
  {
    var tagged := Tagged(rows);
    MasterExact(col, rows, Null);
    LinkExact(tagged, master, a, k);
    if k < |master| && (a, master[k]) in tagged {
      var j := IndexOf(tagged, (a, master[k])).value;
      assert rows[j] in rows;
    }
    if k < |master| && exists v :: (a, v) in rows && master[k] == Str(v) {
      var v :| (a, v) in rows && master[k] == Str(v);
      var j := IndexOf(rows, (a, v)).value;
      assert tagged[j] == (a, master[k]);
    }
  }

  /** The bridge has no repeated pair, and links an article to species `k`
      exactly when the name of row `k` was found in that article's text:
      articles without matches are not linked, and every id is a row of the
      master dimension. */
  lemma BuildBridge(col: seq<Cell>, names: seq<string>, ids: seq<Cell>, texts: seq<string>, a: Cell, k: nat)
    requires |ids| == |texts|
    ensures var u := Build(col, names, ids, texts);
      && NoDups(u.bridge)
      && ((a, k) in u.bridge <==>
          k < |u.master| && exists i, v :: 0 <= i < |ids| && ids[i] == a && v in FindAll(texts[i], names) && u.master[k].1 == Str(v))
  {
    var rows := Found(ids, texts, names);
    var master := MasterValues(col, rows);
    var u := Build(col, names, ids, texts);
    assert u.bridge == BridgeRows(rows, master);
    BridgeRowsExact(col, rows, master, a, k);
    if k < |master| {
      assert u.master[k].1 == master[k];
      if exists v :: (a, v) in rows && master[k] == Str(v) {
        var v :| (a, v) in rows && master[k] == Str(v);
        FoundExact(ids, texts, names, a, v);
      }
      if exists i, v :: 0 <= i < |ids| && ids[i] == a && v in FindAll(texts[i], names) && master[k] == Str(v) {
        var i, v :| 0 <= i < |ids| && ids[i] == a && v in FindAll(texts[i], names) && master[k] == Str(v);
        FoundExact(ids, texts, names, a, v);
      }
    }
  }

  // ---------------------------------------------------------------------
  // The unifier on tables
  // ---------------------------------------------------------------------

  /** `rename(columns={'eid': 'article_id'})`. */
  function RenamedColumns(cols: seq<string>): (r: seq<string>)
    ensures |r| == |cols|
    ensures forall i :: 0 <= i < |cols| ==> r[i] == if cols[i] == "eid" then "article_id" else cols[i]
  {
    seq(|cols|, i requires 0 <= i < |cols| => if cols[i] == "eid" then "article_id" else cols[i])
  }

  /** The Scopus table after the rename. */
  function Articles(t: Table): (r: Table)
    requires WellFormed(t)
    ensures WellFormed(r) && r.rows == t.rows
  {
    Table(RenamedColumns(t.columns), t.dtypes, t.rows)
  }

  /** The CNCFlora names as the unifier reads them: none is empty (`read_csv`
      reads an empty field as missing) and at least one is present (the
      pattern of an empty list, `\b()\b`, matches the empty string). */
  predicate NamesGiven(species: Table)
    requires WellFormed(species)
  {
    match Column(species, "nome_cientifico")
    case None => true
    case Some(col) => (forall i :: 0 <= i < |col| ==> col[i] != Str("")) && PlantNames(col) != Some([])
  }

  /** `unificar_fontes_e_criar_ligacoes` between reading and writing: `None`
      where pandas raises (a missing column, a numeric name, a numeric title
      or abstract, or a Scopus table without rows: `apply` on an empty
      column returns an empty object column, which is no boolean mask, so
      `df[mask]` selects no column and the selection of `article_id`
      raises `KeyError`). */
  function Unify(species: Table, scopus: Table): (r: Option<Unified>)
    requires WellFormed(species) && WellFormed(scopus) && NamesGiven(species)
  {
    var t := Articles(scopus);
    match (Column(species, "nome_cientifico"), Column(t, "title"), Column(t, "abstract"), Column(t, "article_id"))
    case (Some(col), Some(titles), Some(summaries), Some(ids)) =>
      if |ids| == 0 then None else
      (match (PlantNames(col), SearchTexts(titles, summaries))
       case (Some(names), Some(texts)) =>
         SearchTextsExact(titles, summaries);
         Some(Build(col, names, ids, texts))
       case _ => None)
    case _ => None
  }

  /** A column that holds a number. */
  predicate HasNumber(c: Option<seq<Cell>>)
  {
    c.Some? && exists i :: 0 <= i < |c.value| && c.value[i].Num?
  }

  /** The unifier fails exactly when a column is missing (`article_id` may
      come from `eid`), a name is numeric, a title or abstract is numeric,
      or the Scopus table has no rows. */
  lemma UnifyFails(species: Table, scopus: Table)
    requires WellFormed(species) && WellFormed(scopus) && NamesGiven(species)
    ensures var names, t := Column(species, "nome_cientifico"), Articles(scopus);
      var titles, summaries, ids := Column(t, "title"), Column(t, "abstract"), Column(t, "article_id");
      Unify(species, scopus).None? <==>
        || names.None? || titles.None? || summaries.None? || ids.None?
        || HasNumber(names) || HasNumber(titles) || HasNumber(summaries)
        || |scopus.rows| == 0
  {
    var t := Articles(scopus);
    var names, titles, summaries := Column(species, "nome_cientifico"), Column(t, "title"), Column(t, "abstract");
    if names.Some? && titles.Some? && summaries.Some? {
      PlantNamesExact(names.value, "");
      SearchTextsExact(titles.value, summaries.value);
    }
  }

  /** Under `NamesGiven` the pattern is built from at least one name and from
      no empty one. */
  lemma UnifyNamesNonEmpty(species: Table)
    requires WellFormed(species) && NamesGiven(species)
    requires Column(species, "nome_cientifico").Some? && PlantNames(Column(species, "nome_cientifico").value).Some?
    ensures var names := PlantNames(Column(species, "nome_cientifico").value).value;
      names != [] && NamesNonEmpty(names)
  {
    var col := Column(species, "nome_cientifico").value;
    var names := PlantNames(col).value;
    forall k | 0 <= k < |names| ensures names[k] != "" {
      PlantNamesExact(col, names[k]);
    }
  }
}

/** The whole-word rule on one sentence. */
module UnifierExamples {
  import opened Seqs
  import opened Frames
  import opened Dimension
  import opened Unifier

  const Sentence := "Found in Tabebuia forests"

  /** Apart from position 9, no word of the sentence starts with a `t`. */
  lemma OnlyNineStartsT(names: seq<string>, a: nat, b: nat)
    requires a <= b <= |Sentence|
    requires names == ["Tabe"] || names == ["Tabebuia"]
    requires !(a <= 9 < b)
    ensures forall p: nat :: a <= p < b ==> FirstMatch(Sentence, p, names).None?
  {
    forall p: nat | a <= p < b ensures FirstMatch(Sentence, p, names).None? {
      NoMatchAt(Sentence, p, names);
    }
  }

  /** "Tabe" is not found inside "Tabebuia": the boundary after it fails. */
  lemma PrefixNotFound()
    ensures FindAll(Sentence, ["Tabe"]) == []
  {
    var names := ["Tabe"];
    OnlyNineStartsT(names, 0, 9);
    OnlyNineStartsT(names, 10, |Sentence|);
    assert FirstMatch(Sentence, 9, names).None?;
    ScanSkip(|Sentence|, Matcher(Sentence, names), Widths(names), 0, |Sentence|);
  }

  /** "Tabebuia" matches at position 9. */
  lemma NineMatches()
    ensures FirstMatch(Sentence, 9, ["Tabebuia"]) == Some(0)
  {
  }

  /** "Tabebuia" is reported once, at position 9. */
  lemma WordSpans()
    ensures Spans(Sentence, ["Tabebuia"]) == [(9, 0)]
  {
    var names := ["Tabebuia"];
    var m, w := Matcher(Sentence, names), Widths(names);
    OnlyNineStartsT(names, 0, 9);
    OnlyNineStartsT(names, 17, |Sentence|);
    ScanSkip(|Sentence|, m, w, 0, 9);
    NineMatches();
    assert m(9) == Some(0);
    assert w(0) == 8;
    ScanSkip(|Sentence|, m, w, 17, |Sentence|);
  }

  /** "Tabebuia" is found, once, as written. */
  lemma WordFound()
    ensures FindAll(Sentence, ["Tabebuia"]) == ["Tabebuia"]
  {
    WordSpans();
    assert Sentence[9..17] == "Tabebuia";
  }

  /** The lower-case text "tabebuia" matches the listed "Tabebuia". */
  lemma LowerCaseMatches()
    ensures FirstMatch("tabebuia", 0, ["Tabebuia"]) == Some(0)
  {
  }

  /** A case variant found in a text is reported as written. */
  lemma CaseVariantFound()
    ensures FindAll("tabebuia", ["Tabebuia"]) == ["tabebuia"]
  {
    var names := ["Tabebuia"];
    var m, w := Matcher("tabebuia", names), Widths(names);
    LowerCaseMatches();
    assert m(0) == Some(0) && w(0) == 8;
    assert Scan(8, m, w, 8) == [];
    assert Spans("tabebuia", names) == [(0, 0)];
    assert "tabebuia"[0..8] == "tabebuia";
  }

  /** Two different values are both kept, in order. */
  lemma DistinctOfTwo<T>(x: T, y: T)
    requires x != y
    ensures Distinct([x, y]) == [x, y]
  {
    assert [x, y][..1] == [x];
    assert Distinct([x]) == [x] by {
      assert [x][..0] == [];
    }
  }

  /** The article's one found row. */
  lemma CaseVariantRow()
    ensures Found([Str("2-s2.0-1")], ["tabebuia"], ["Tabebuia"]) == [(Str("2-s2.0-1"), "tabebuia")]
  {
    var ids, texts, names := [Str("2-s2.0-1")], ["tabebuia"], ["Tabebuia"];
    CaseVariantFound();
    assert TextCells(texts) == [Str("tabebuia")];
    assert ExplodeAll(ids[1..], TextCells(texts)[1..], t => FindAll(t, names)) == [];
  }

  /** The master names: the CNCFlora name, then the variant. */
  lemma CaseVariantMasterValues()
    ensures MasterValues([Str("Tabebuia")], [(Str("2-s2.0-1"), "tabebuia")]) == [Str("Tabebuia"), Str("tabebuia")]
  {
    var tagged := Tagged([(Str("2-s2.0-1"), "tabebuia")]);
    assert tagged == [(Str("2-s2.0-1"), Str("tabebuia"))];
    assert Values(tagged) == [Str("tabebuia")] by {
      assert ValueColumn(tagged) == [Str("tabebuia")];
      assert ValueColumn(tagged)[..0] == [];
    }
    assert [Str("Tabebuia")] + Values(tagged) == [Str("Tabebuia"), Str("tabebuia")];
    DistinctOfTwo(Str("Tabebuia"), Str("tabebuia"));
  }

  /** The case variant becomes a second master row after the CNCFlora name,
      and the article is linked to it alone. */
  lemma CaseVariantKeptApart(col: seq<Cell>, names: seq<string>, ids: seq<Cell>, texts: seq<string>)
    requires col == [Str("Tabebuia")] && names == ["Tabebuia"]
    requires ids == [Str("2-s2.0-1")] && texts == ["tabebuia"]
    ensures var u := Build(col, names, ids, texts);
      u.master == [(0, Str("Tabebuia")), (1, Str("tabebuia"))] && u.bridge == [(Str("2-s2.0-1"), 1)]
  {
    var rows := Found(ids, texts, names);
    var master := MasterValues(col, rows);
    assert Build(col, names, ids, texts) == Unified(Numbered(master), BridgeRows(rows, master));
    CaseVariantRow();
    CaseVariantMasterValues();
    CaseVariantBridge(rows, master);
  }

  /** The article's row links to the second master row. */
  lemma CaseVariantBridge(rows: seq<(Cell, string)>, master: seq<Cell>)
    requires rows == [(Str("2-s2.0-1"), "tabebuia")]
    requires master == [Str("Tabebuia"), Str("tabebuia")]
    ensures BridgeRows(rows, master) == [(Str("2-s2.0-1"), 1)]
  {
    var tagged := Tagged(rows);
    assert tagged == [(Str("2-s2.0-1"), Str("tabebuia"))];
    assert Link(tagged, master) == [(Str("2-s2.0-1"), 1)] by {
      assert IndexOf(master, Str("tabebuia")) == Some(1);
    }
    assert [(Str("2-s2.0-1"), 1)][..0] == [];
  }
}
