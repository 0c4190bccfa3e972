/** `criar_modelo_afiliacoes` and `_parse_e_normalizar_afiliacao`: the
    affiliation column of the Scopus export holds `; `-separated affiliation
    texts of the form `institution, address`. Every distinct text is parsed
    into a normalised institution name, an address and an acronym; the
    dimension keeps one text per normalised name, and the bridge links
    articles to affiliation ids. */
module ScopusAffiliations {
  import opened Seqs
  import opened Text
  import opened Frames
  import opened Dimension
  import opened Scanners
  import ColumnLabels

  /** The cleaning sentinel: records holding it have no affiliation. */
  const Sentinel := "nao_informado"

  /** What a missing part of an affiliation becomes. */
  const NotInformed := "NAO_INFORMADO"

  /** The acronym of an institution in which none is found. */
  const NoAcronym := "SEM SIGLA"

  /** The characters deleted from institution names (`[.,;:"()]`). */
  const Punctuation: set<char> := {'.', ',', ';', ':', '"', '(', ')'}

  datatype Parsed = Parsed(name: string, address: string, acronym: string)

  /** The institution name folded to ASCII, upper-cased, without punctuation
      and with every whitespace run reduced to one space, stripped. */
  function NormalizeName(inst: string): string
  {
    Strip(CollapseSpaces(RemoveChars(Upper(ColumnLabels.Fold(inst)), Punctuation)))
  }

  /** 2 to 6 ASCII capitals (`[A-Z]{2,6}`). */
  predicate IsAcronym(w: string)
  {
    2 <= |w| <= 6 && forall k :: 0 <= k < |w| ==> IsAsciiUpper(w[k])
  }

  /** The words of `ws` that are acronyms, in order. */
  function AcronymWords(ws: seq<string>): (r: seq<string>)
    ensures forall j :: 0 <= j < |r| ==> IsAcronym(r[j]) && r[j] in ws
    ensures forall w :: w in ws && IsAcronym(w) ==> w in r
  {
    if ws == [] then []
    else (if IsAcronym(ws[0]) then [ws[0]] else []) + AcronymWords(ws[1..])
  }

  /** `re.findall(r'\b([A-Z]{2,6})\b', s)`: the word runs made of 2 to 6
      ASCII capitals. */
  function Acronyms(s: string): seq<string>
  {
    AcronymWords(Words(s))
  }

  /** The last acronym written as a word; failing that, the last
      parenthesised group of capitals and dots, without its dots; failing
      that, `SEM SIGLA`. */
  function Acronym(inst: string): string
  {
    var plain := Acronyms(inst);
    if plain != [] then plain[|plain| - 1]
    else
      var groups := ParenGroups(inst);
      if groups != [] then RemoveChars(groups[|groups| - 1], {'.'}) else NoAcronym
  }

  /** `_parse_e_normalizar_afiliacao`: the text before the first comma is the
      institution, the text after it the address. A cell that is not a string
      gives `NAO_INFORMADO` three times. */
  function Parse(c: Cell): (p: Parsed)
    ensures !c.Str? ==> p == Parsed(NotInformed, NotInformed, NotInformed)
  {
    if !c.Str? then Parsed(NotInformed, NotInformed, NotInformed)
    else
      var parts := SplitFirst(c.s, ",");
      var inst := Strip(parts[0]);
      Parsed(NormalizeName(inst), if |parts| > 1 then Strip(parts[1]) else NotInformed, Acronym(inst))
  }

  /** The institution is everything before the first comma and the address
      everything after it; with no comma there is no address. */
  lemma ParseAtFirstComma(s: string)
    ensures ',' !in s ==>
      Parse(Str(s)).address == NotInformed && Parse(Str(s)).name == NormalizeName(Strip(s))
    ensures forall k :: 0 <= k < |s| && s[k] == ',' && ',' !in s[..k] ==>
      && Parse(Str(s)).name == NormalizeName(Strip(s[..k]))
      && Parse(Str(s)).acronym == Acronym(Strip(s[..k]))
      && Parse(Str(s)).address == Strip(s[k + 1..])
  {
    SplitAtFirstComma(s);
  }

  /** `s.split(',', 1)` cuts at the first comma, if any. */
  lemma SplitAtFirstComma(s: string)
    ensures ',' !in s ==> SplitFirst(s, ",") == [s]
    ensures forall k :: 0 <= k < |s| && s[k] == ',' && ',' !in s[..k] ==> SplitFirst(s, ",") == [s[..k], s[k + 1..]]
  {
    forall i | 0 <= i ensures OccursAt(s, ",", i) <==> i < |s| && s[i] == ',' {
      OccursAtChar(s, ',', i);
    }
    forall k | 0 <= k < |s| && s[k] == ',' && ',' !in s[..k] ensures Find(s, ",") == Some(k) {
      assert forall i :: 0 <= i < k ==> s[i] == s[..k][i];
    }
    if ',' !in s {
      assert Find(s, ",").None?;
    }
  }

  /** The characters a normalised name is made of: ASCII, no lower-case
      letter, no deleted punctuation. */
  predicate NameChar(c: char)
  {
    c < '\U{80}' && !IsAsciiLower(c) && c !in Punctuation
  }

  /** Upper-casing folded text and deleting the punctuation leaves only name
      characters and whitespace. */
  lemma UpperNoPunctuation(f: string)
    requires forall i :: 0 <= i < |f| ==> f[i] < '\U{80}'
    ensures forall x :: x in RemoveChars(Upper(f), Punctuation) ==> NameChar(x)
  {
    UpperAscii(f);
    var u := Upper(f);
    var d := RemoveChars(u, Punctuation);
    forall x | x in d ensures NameChar(x) {
      var i := IndexOf(d, x).value;
      assert x in u;
      var j := IndexOf(u, x).value;
    }
  }

  /** Collapsing whitespace keeps name characters and adds only spaces. */
  lemma CollapseNameChars(d: string)
    requires forall x :: x in d ==> NameChar(x)
    ensures forall i :: 0 <= i < |CollapseSpaces(d)| ==> NameChar(CollapseSpaces(d)[i])
  {
  }

  /** A normalised name is plain ASCII without lower-case letters and
      punctuation, single-spaced, with no whitespace at either end. */
  lemma NormalizedNameShape(inst: string)
    ensures var r := NormalizeName(inst);
      && (forall i :: 0 <= i < |r| ==> NameChar(r[i]))
      && SingleSpaced(r)
      && (r == [] || (!IsSpace(r[0]) && !IsSpace(r[|r| - 1])))
  {
    var f := ColumnLabels.Fold(inst);
    var d := RemoveChars(Upper(f), Punctuation);
    UpperNoPunctuation(f);
    var c := CollapseSpaces(d);
    CollapseNameChars(d);
    StripIsInfix(c);
    StripSingleSpaced(c);
    StripTrimmed(c);
  }

  /** Upper-casing leaves name characters as they are. */
  lemma UpperFixed(r: string)
    requires forall i :: 0 <= i < |r| ==> NameChar(r[i])
    ensures Upper(r) == r
  {
    UpperAscii(r);
    forall i | 0 <= i < |r| ensures Upper(r)[i] == r[i] {
      assert NameChar(r[i]);
    }
  }

  /** A name already in normal form is left as it is. */
  lemma NormalFormFixed(r: string)
    requires forall i :: 0 <= i < |r| ==> NameChar(r[i])
    requires SingleSpaced(r)
    requires r == [] || (!IsSpace(r[0]) && !IsSpace(r[|r| - 1]))
    ensures NormalizeName(r) == r
  {
    assert ColumnLabels.Fold(r) == r by {
      ColumnLabels.FoldAscii(r);
    }
    assert Upper(r) == r by {
      UpperFixed(r);
    }
    assert RemoveChars(r, Punctuation) == r by {
      RemoveAbsent(r, Punctuation);
    }
    assert CollapseSpaces(r) == r by {
      CollapseSingleSpaced(r);
    }
    assert Strip(r) == r by {
      if r != [] {
        StripUnique(r, 0, |r|);
      }
    }
  }

  /** Normalising a normalised name changes nothing. */
  lemma NormalizeIdempotent(inst: string)
    ensures NormalizeName(NormalizeName(inst)) == NormalizeName(inst)
  {
    NormalizedNameShape(inst);
    NormalFormFixed(NormalizeName(inst));
  }

  /** An acronym written as a word is a maximal run of 2 to 6 capitals. */
  lemma AcronymFromWord(inst: string)
    requires Acronyms(inst) != []
    ensures IsAcronym(Acronym(inst)) && exists i :: MaximalRunAt(inst, Acronym(inst), i)
  {
    var plain := Acronyms(inst);
    var w := plain[|plain| - 1];
    assert w in Words(inst);
    var j :| 0 <= j < |Words(inst)| && Words(inst)[j] == w;
    WordsAreMaximalRuns(inst, j);
  }

  /** An acronym taken from a parenthesised group is that group's capitals. */
  lemma AcronymFromGroup(inst: string)
    requires Acronyms(inst) == [] && ParenGroups(inst) != []
    ensures forall k :: 0 <= k < |Acronym(inst)| ==> IsAsciiUpper(Acronym(inst)[k])
    ensures exists g, i :: Acronym(inst) == RemoveChars(g, {'.'}) && OccursAt(inst, "(" + g + ")", i)
  {
    var groups := ParenGroups(inst);
    var g := groups[|groups| - 1];
    var a := RemoveChars(g, {'.'});
    assert Acronym(inst) == a;
    forall k | 0 <= k < |a| ensures IsAsciiUpper(a[k]) {
      assert a[k] in g && a[k] != '.';
    }
    ParenGroupsOccur(inst, |groups| - 1);
  }

  /** `SEM SIGLA` is no acronym: it holds a space. */
  lemma NoAcronymNotUpper(a: string)
    requires forall k :: 0 <= k < |a| ==> IsAsciiUpper(a[k])
    ensures a != NoAcronym
  {
    assert NoAcronym[3] == ' ';
  }

  /** The acronym is `SEM SIGLA` exactly when the institution has neither a
      word of 2 to 6 capitals nor a parenthesised group of capitals and dots.
      Otherwise it is made of capitals only: a word-bounded run of 2 to 6 of
      them when one exists, else the last parenthesised group without dots. */
  lemma AcronymShape(inst: string)
    ensures Acronym(inst) == NoAcronym <==> Acronyms(inst) == [] && ParenGroups(inst) == []
    ensures Acronym(inst) != NoAcronym ==> forall k :: 0 <= k < |Acronym(inst)| ==> IsAsciiUpper(Acronym(inst)[k])
    ensures Acronyms(inst) != [] ==> IsAcronym(Acronym(inst)) && exists i :: MaximalRunAt(inst, Acronym(inst), i)
    ensures Acronyms(inst) == [] && ParenGroups(inst) != [] ==>
      exists g, i :: Acronym(inst) == RemoveChars(g, {'.'}) && OccursAt(inst, "(" + g + ")", i)
  {
    if Acronyms(inst) != [] {
      AcronymFromWord(inst);
      NoAcronymNotUpper(Acronym(inst));
    } else if ParenGroups(inst) != [] {
      AcronymFromGroup(inst);
      NoAcronymNotUpper(Acronym(inst));
    }
  }

  /** `str.split('; ')`. */
  function SplitAffiliations(s: string): seq<string>
  {
    SplitOn(s, "; ")
  }

  /** The exploded (eid, affiliation text) rows: records whose affiliation
      cell is a string other than the sentinel, one row per `; `-separated
      piece. */
  function Exploded(t: Table): seq<(Cell, string)>
    requires WellFormed(t) && "affiliations" in t.columns && "eid" in t.columns
  {
    Explode(Column(t, "eid").value, Column(t, "affiliations").value, Sentinel, SplitAffiliations)
  }

  /** The normalised institution name of an affiliation text: the name
      `_parse_e_normalizar_afiliacao` gives it. */
  function NameOf(text: string): string
  {
    NormalizeName(Strip(SplitFirst(text, ",")[0]))
  }

  /** The texts the dimension keeps: of the distinct texts
      (`drop_duplicates()`), the first for every name
      (`drop_duplicates(subset=['nome_normalizado'])`). The name function is
      a parameter so that the facts below hold for any normalisation. */
  function Kept(rows: seq<(Cell, string)>, name: string -> string): seq<string>
  {
    DistinctBy(Values(rows), name)
  }

  /** A row of `dim_afiliacoes`. */
  datatype Affiliation = Affiliation(id: string, name: string, acronym: string, address: string, fullText: string)

  /** The dimension: every kept text parsed, under the id `ids(position)`. */
  function Dim(rows: seq<(Cell, string)>, ids: nat -> string): (d: seq<Affiliation>)
    ensures |d| == |Kept(rows, NameOf)|
    ensures forall k :: 0 <= k < |d| ==> d[k].id == ids(k) && d[k].fullText == Kept(rows, NameOf)[k]
    ensures forall k :: 0 <= k < |d| ==> d[k].name == NameOf(d[k].fullText)
    ensures forall k :: 0 <= k < |d| ==>
      d[k].acronym == Parse(Str(d[k].fullText)).acronym && d[k].address == Parse(Str(d[k].fullText)).address
  {
    var kept := Kept(rows, NameOf);
    seq(|kept|, k requires 0 <= k < |kept| =>
      var p := Parse(Str(kept[k]));
      Affiliation(ids(k), p.name, p.acronym, p.address, kept[k]))
  }

  /** The left merge of the exploded rows with the dimension on the full
      text: a text other than the one kept for its name finds no id. */
  function LinkByText(rows: seq<(Cell, string)>, kept: seq<string>, ids: nat -> string): (r: seq<(Cell, Option<string>)>)
    ensures |r| == |rows|
    ensures forall i :: 0 <= i < |rows| ==> (r[i].0 == rows[i].0 &&
      r[i].1 == match IndexOf(kept, rows[i].1) case None => None case Some(k) => Some(ids(k)))
  {
    seq(|rows|, i requires 0 <= i < |rows| =>
      (rows[i].0, match IndexOf(kept, rows[i].1) case None => None case Some(k) => Some(ids(k))))
  }

  /** The merge on the name instead: every text finds the id of the kept
      text with the same name. */
  function LinkByName(rows: seq<(Cell, string)>, kept: seq<string>, ids: nat -> string, name: string -> string): (r: seq<(Cell, Option<string>)>)
    ensures |r| == |rows|
    ensures forall i :: 0 <= i < |rows| ==> (r[i].0 == rows[i].0 &&
      r[i].1 == match IndexOf(Keys(kept, name), name(rows[i].1)) case None => None case Some(k) => Some(ids(k)))
  {
    seq(|rows|, i requires 0 <= i < |rows| =>
      (rows[i].0, match IndexOf(Keys(kept, name), name(rows[i].1)) case None => None case Some(k) => Some(ids(k))))
  }

  /** `pon_artigo_afiliacoes` as written: merged on the full text, then
      `drop_duplicates()` and `dropna()`. */
  function BridgeAsWritten(rows: seq<(Cell, string)>, ids: nat -> string, name: string -> string): seq<(Cell, string)>
  {
    Complete(Distinct(LinkByText(rows, Kept(rows, name), ids)))
  }

  /** The corrected bridge: merged on the name, then `drop_duplicates()` and
      `dropna()`. */
  function Bridge(rows: seq<(Cell, string)>, ids: nat -> string, name: string -> string): seq<(Cell, string)>
  {
    Complete(Distinct(LinkByName(rows, Kept(rows, name), ids, name)))
  }

  /** What `criar_modelo_afiliacoes` gives: `(None, None)` when a column is
      missing, an exception, or the two tables. */
  datatype Outcome = Skipped | Raises | Built(dim: seq<Affiliation>, bridge: seq<(Cell, string)>)

  /** `criar_modelo_afiliacoes` as written. With no affiliation text at all
      the parsed tuples form a frame with no columns, and assigning it to
      three columns raises `ValueError`. */
  function AffiliationModelAsWritten(t: Table, ids: nat -> string): (r: Outcome)
    requires WellFormed(t)
    ensures r.Skipped? <==> "affiliations" !in t.columns || "eid" !in t.columns
    ensures r.Raises? <==> !r.Skipped? && Exploded(t) == []
  {
    if "affiliations" !in t.columns || "eid" !in t.columns then Skipped
    else
      var rows := Exploded(t);
      if rows == [] then Raises
      else Built(Dim(rows, ids), BridgeAsWritten(rows, ids, NameOf))
  }

  /** `criar_modelo_afiliacoes` corrected: empty tables when there is no
      affiliation, and the bridge merged on the normalised name. */
  function AffiliationModel(t: Table, ids: nat -> string): (r: Outcome)
    requires WellFormed(t)
    ensures r.Skipped? <==> "affiliations" !in t.columns || "eid" !in t.columns
    ensures !r.Raises?
  {
    if "affiliations" !in t.columns || "eid" !in t.columns then Skipped
    else
      var rows := Exploded(t);
      Built(Dim(rows, ids), Bridge(rows, ids, name := NameOf))
  }

  /** The kept texts have distinct names, hence are distinct. */
  lemma KeptDistinct(rows: seq<(Cell, string)>, name: string -> string)
    ensures NoDups(Keys(Kept(rows, name), name)) && NoDups(Kept(rows, name))
  {
    var kept := Kept(rows, name);
    var ks := Keys(kept, name);
    forall a, b | 0 <= a < b < |ks| ensures ks[a] != ks[b] {
      assert ks[a] == name(kept[a]) && ks[b] == name(kept[b]);
    }
    forall a, b | 0 <= a < b < |kept| ensures kept[a] != kept[b] {
      assert name(kept[a]) != name(kept[b]);
    }
  }

  /** Every exploded text's name is the name of a kept text. */
  lemma KeptCovers(rows: seq<(Cell, string)>, name: string -> string, i: nat)
    requires i < |rows|
    ensures name(rows[i].1) in Keys(Kept(rows, name), name)
  {
    var xs := Values(rows);
    var kept := Kept(rows, name);
    ValuesExact(rows, rows[i].1);
    var p := IndexOf(xs, rows[i].1).value;
    DistinctByCovers(xs, name, p);
    var j :| 0 <= j < |kept| && name(kept[j]) == name(xs[p]);
    assert Keys(kept, name)[j] == name(rows[i].1);
  }

  /** The kept texts have distinct names, hence are distinct; every exploded
      text's name is the name of a kept text. */
  lemma KeptUnique(rows: seq<(Cell, string)>, name: string -> string, i: nat)
    requires i < |rows|
    ensures NoDups(Keys(Kept(rows, name), name)) && NoDups(Kept(rows, name))
    ensures name(rows[i].1) in Keys(Kept(rows, name), name)
  {
    KeptDistinct(rows, name);
    KeptCovers(rows, name, i);
  }

  /** Every kept text is an exploded text, and no distinct text before it has
      the same name. */
  lemma KeptFirst(rows: seq<(Cell, string)>, name: string -> string, k: nat)
    requires k < |Kept(rows, name)|
    ensures var t := Kept(rows, name)[k]; var xs := Values(rows);
      && (exists i :: 0 <= i < |rows| && rows[i].1 == t)
      && exists p :: 0 <= p < |xs| && xs[p] == t && forall q :: 0 <= q < p ==> name(xs[q]) != name(t)
  {
    DistinctByFirst(Values(rows), name, k);
    ValuesExact(rows, Kept(rows, name)[k]);
  }

  /** As written, an article is linked to an id exactly when one of its texts
      is the very text kept under that id. */
  lemma BridgeAsWrittenExact(rows: seq<(Cell, string)>, ids: nat -> string, name: string -> string, e: Cell, id: string)
    ensures var b := BridgeAsWritten(rows, ids, name); var kept := Kept(rows, name);
      && NoDups(b)
      && ((e, id) in b <==> e != Null && exists k, i :: 0 <= k < |kept| && 0 <= i < |rows| && ids(k) == id && rows[i] == (e, kept[k]))
  {
    var kept := Kept(rows, name);
    var l := LinkByText(rows, kept, ids);
    CompleteKeeps(Distinct(l), e, id);
    if (e, Some(id)) in Distinct(l) {
      TextLinkSound(rows, ids, name, IndexOf(l, (e, Some(id))).value);
    }
    if e != Null && exists k, i :: 0 <= k < |kept| && 0 <= i < |rows| && ids(k) == id && rows[i] == (e, kept[k]) {
      var k, i :| 0 <= k < |kept| && 0 <= i < |rows| && ids(k) == id && rows[i] == (e, kept[k]);
      TextLinkComplete(rows, ids, name, k, i);
      assert l[i] in Distinct(l);
    }
  }

  /** A linked text row is linked to the id of the kept text it equals. */
  lemma TextLinkSound(rows: seq<(Cell, string)>, ids: nat -> string, name: string -> string, i: nat)
    requires i < |rows| && LinkByText(rows, Kept(rows, name), ids)[i].1.Some?
    ensures var kept := Kept(rows, name); var id := LinkByText(rows, kept, ids)[i].1.value;
      exists k :: 0 <= k < |kept| && ids(k) == id && rows[i].1 == kept[k]
  {
    var kept := Kept(rows, name);
    var k := IndexOf(kept, rows[i].1).value;
    assert rows[i].1 == kept[k];
  }

  /** A text row equal to a kept text is linked to that text's id. */
  lemma TextLinkComplete(rows: seq<(Cell, string)>, ids: nat -> string, name: string -> string, k: nat, i: nat)
    requires k < |Kept(rows, name)| && i < |rows| && rows[i].1 == Kept(rows, name)[k]
    ensures LinkByText(rows, Kept(rows, name), ids)[i] == (rows[i].0, Some(ids(k)))
  {
    KeptUnique(rows, name, i);
    IndexOfUnique(Kept(rows, name), k);
  }

  /** A pair of the name-merged bridge comes from an exploded row whose name
      is that of the text kept under the id. */
  lemma BridgeSound(rows: seq<(Cell, string)>, ids: nat -> string, name: string -> string, e: Cell, id: string)
    requires (e, id) in Bridge(rows, ids, name)
    ensures var kept := Kept(rows, name);
      e != Null && exists k, i :: 0 <= k < |kept| && 0 <= i < |rows| && ids(k) == id && rows[i].0 == e && name(rows[i].1) == name(kept[k])
  {
    var kept := Kept(rows, name);
    var l := LinkByName(rows, kept, ids, name);
    CompleteKeeps(Distinct(l), e, id);
    var j := IndexOf(Distinct(l), (e, Some(id))).value;
    assert Distinct(l)[j] in l;
    var i := IndexOf(l, (e, Some(id))).value;
    var k := NameLinkSound(rows, ids, name, i, e, id);
    assert 0 <= k < |kept| && 0 <= i < |rows| && ids(k) == id && rows[i].0 == e && name(rows[i].1) == name(kept[k]);
  }

  /** A linked row is linked to the id of a kept text with its name, `k`. */
  lemma NameLinkSound(rows: seq<(Cell, string)>, ids: nat -> string, name: string -> string, i: nat, e: Cell, id: string)
    returns (k: nat)
    requires i < |rows| && LinkByName(rows, Kept(rows, name), ids, name)[i] == (e, Some(id))
    ensures rows[i].0 == e && k < |Kept(rows, name)| && ids(k) == id && name(rows[i].1) == name(Kept(rows, name)[k])
  {
    k := IndexOf(Keys(Kept(rows, name), name), name(rows[i].1)).value;
  }

  /** A row with the name of a kept text is linked to that text's id. */
  lemma NameLinkComplete(rows: seq<(Cell, string)>, ids: nat -> string, name: string -> string, k: nat, i: nat)
    requires k < |Kept(rows, name)| && i < |rows| && name(rows[i].1) == name(Kept(rows, name)[k])
    ensures LinkByName(rows, Kept(rows, name), ids, name)[i] == (rows[i].0, Some(ids(k)))
  {
    KeptUnique(rows, name, i);
    IndexOfUnique(Keys(Kept(rows, name), name), k);
  }

  /** Merged on the name, an article is linked to an id exactly when one of
      its texts has the name of the text kept under that id. */
  lemma BridgeExact(rows: seq<(Cell, string)>, ids: nat -> string, name: string -> string, e: Cell, id: string)
    ensures var b := Bridge(rows, ids, name); var kept := Kept(rows, name);
      && NoDups(b)
      && ((e, id) in b <==> e != Null && exists k, i :: 0 <= k < |kept| && 0 <= i < |rows| && ids(k) == id && rows[i].0 == e && name(rows[i].1) == name(kept[k]))
  {
    var kept := Kept(rows, name);
    if (e, id) in Bridge(rows, ids, name) {
      BridgeSound(rows, ids, name, e, id);
    }
    if e != Null && exists k, i :: 0 <= k < |kept| && 0 <= i < |rows| && ids(k) == id && rows[i].0 == e && name(rows[i].1) == name(kept[k]) {
      var k, i :| 0 <= k < |kept| && 0 <= i < |rows| && ids(k) == id && rows[i].0 == e && name(rows[i].1) == name(kept[k]);
      var l := LinkByName(rows, kept, ids, name);
      NameLinkComplete(rows, ids, name, k, i);
      assert l[i] in Distinct(l);
      CompleteKeeps(Distinct(l), e, id);
    }
  }

  /** Merged on the name, every exploded row with an eid is linked, to the id
      of the kept text with its name. */
  lemma BridgeTotal(rows: seq<(Cell, string)>, ids: nat -> string, name: string -> string, i: nat)
    requires i < |rows| && rows[i].0 != Null
    ensures var kept := Kept(rows, name);
      exists k :: 0 <= k < |kept| && (rows[i].0, ids(k)) in Bridge(rows, ids, name) && name(kept[k]) == name(rows[i].1)
  {
    var kept := Kept(rows, name);
    KeptUnique(rows, name, i);
    var k :| 0 <= k < |kept| && Keys(kept, name)[k] == name(rows[i].1);
    BridgeExact(rows, ids, name, rows[i].0, ids(k));
  }

  /** Without a comma or surrounding whitespace, the institution is the
      whole text. */
  lemma InstitutionPlain(s: string)
    requires ',' !in s && s != [] && !IsSpace(s[0]) && !IsSpace(s[|s| - 1])
    ensures Strip(SplitFirst(s, ",")[0]) == s
  {
    SplitAtFirstComma(s);
    StripUnique(s, 0, |s|);
  }

  /** Without a comma the whole text is the institution. */
  lemma NameWithoutComma(s: string)
    requires ',' !in s
    ensures NameOf(s) == NormalizeName(Strip(s))
  {
    SplitAtFirstComma(s);
  }

  /** Of two different texts with the same name, the first is kept. */
  lemma KeptOfTwo(rows: seq<(Cell, string)>, name: string -> string)
    requires |rows| == 2 && rows[0].1 != rows[1].1 && name(rows[0].1) == name(rows[1].1)
    ensures Kept(rows, name) == [rows[0].1]
  {
    var texts := ValueColumn(rows);
    assert texts == [rows[0].1, rows[1].1];
    DistinctOfNoDups(texts);
    var ks := Keys(Values(rows), name);
    assert ks == [name(rows[0].1), name(rows[0].1)];
    assert ks[..1] == [name(rows[0].1)];
    assert Distinct(ks) == [name(rows[0].1)];
    assert IndexOf(ks, name(rows[0].1)) == Some(0);
  }

  /** Two articles whose texts differ but share a name: the dimension keeps
      the first text; the bridge merged on the full text does not link the
      second article, the bridge merged on the name does. */
  lemma SameNameTwoTexts(rows: seq<(Cell, string)>, ids: nat -> string, name: string -> string)
    requires |rows| == 2 && rows[0].1 != rows[1].1 && name(rows[0].1) == name(rows[1].1)
    requires rows[0].0 != rows[1].0 && rows[1].0 != Null
    ensures Kept(rows, name) == [rows[0].1]
    ensures forall id :: (rows[1].0, id) !in BridgeAsWritten(rows, ids, name)
    ensures (rows[1].0, ids(0)) in Bridge(rows, ids, name)
  {
    KeptOfTwo(rows, name);
    forall id ensures (rows[1].0, id) !in BridgeAsWritten(rows, ids, name) {
      BridgeAsWrittenExact(rows, ids, name, rows[1].0, id);
    }
    BridgeExact(rows, ids, name, rows[1].0, ids(0));
  }
}

/** Concrete affiliation texts run through the model. */
module ScopusAffiliationExamples {
  import opened Seqs
  import opened Text
  import opened Frames
  import opened Dimension
  import opened ScopusAffiliations
  import ColumnLabels

  /** Neither "USP" nor "USP." has a comma or surrounding whitespace. */
  lemma UspInstitutions()
    ensures Strip(SplitFirst("USP", ",")[0]) == "USP" && Strip(SplitFirst("USP.", ",")[0]) == "USP."
  {
    InstitutionPlain("USP");
    InstitutionPlain("USP.");
  }

  /** Folding and upper-casing leave "USP" and "USP." as they are. */
  lemma UspUpper()
    ensures Upper(ColumnLabels.Fold("USP")) == "USP" && Upper(ColumnLabels.Fold("USP.")) == "USP."
  {
    UpperFoldedCaps("USP");
    UpperFoldedCaps("USP.");
  }

  /** ASCII text without lower-case letters is unchanged by folding and
      upper-casing. */
  lemma UpperFoldedCaps(s: string)
    requires forall i :: 0 <= i < |s| ==> s[i] < '\U{80}' && !IsAsciiLower(s[i])
    ensures Upper(ColumnLabels.Fold(s)) == s
  {
    ColumnLabels.FoldAscii(s);
    UpperAscii(s);
  }

  /** Deleting the punctuation of "USP." gives "USP"; "USP" has none. */
  lemma UspUnpunctuated()
    ensures RemoveChars("USP.", Punctuation) == "USP" && RemoveChars("USP", Punctuation) == "USP"
  {
    assert "USP."[1..] == "SP." && "SP."[1..] == "P." && "P."[1..] == "." && "."[1..] == "";
    RemoveAbsent("USP", Punctuation);
  }

  /** "USP" is in normal form. */
  lemma UspNormal()
    ensures NormalizeName("USP") == "USP"
  {
    NormalFormFixed("USP");
  }

  /** "USP" and "USP." have the same normalised name. */
  lemma UspNames()
    ensures NameOf("USP") == "USP" && NameOf("USP.") == "USP"
  {
    UspInstitutions();
    UspUpper();
    UspUnpunctuated();
    UspNormal();
  }

  /** Two articles, one written "USP" and one "USP.": the dimension keeps
      "USP" alone, and the bridge merged on the full text has no pair for the
      second article, while the bridge merged on the name links it to the id
      of "USP". */
  lemma LostLink(ids: nat -> string)
    ensures var rows := [(Str("a"), "USP"), (Str("b"), "USP.")];
      && Kept(rows, NameOf) == ["USP"]
      && (forall id :: (Str("b"), id) !in BridgeAsWritten(rows, ids, NameOf))
      && (Str("b"), ids(0)) in Bridge(rows, ids, NameOf)
  {
    UspNames();
    SameNameTwoTexts([(Str("a"), "USP"), (Str("b"), "USP.")], ids, NameOf);
  }

  /** An export whose only record has no affiliation (`nao_informado`): as
      written the model raises, corrected it gives two empty tables. */
  lemma NoAffiliationRaises(ids: nat -> string)
    ensures var t := Table(["eid", "affiliations"], [Object, Object], [[Str("a"), Str(Sentinel)]]);
      && AffiliationModelAsWritten(t, ids) == Raises
      && AffiliationModel(t, ids) == Built([], [])
  {
    var t := Table(["eid", "affiliations"], [Object, Object], [[Str("a"), Str(Sentinel)]]);
    var eids, field := Column(t, "eid").value, Column(t, "affiliations").value;
    assert field == [Str(Sentinel)];
    assert field[1..] == [] && eids[1..] == [];
    assert Explode(eids, field, Sentinel, SplitAffiliations) == [] + Explode(eids[1..], field[1..], Sentinel, SplitAffiliations);
    assert Exploded(t) == [];
    assert Values(Exploded(t)) == [];
    assert Distinct(Keys([], NameOf)) == [];
    assert Kept([], NameOf) == [];
    assert Distinct(LinkByName([], [], ids, NameOf)) == [];
  }
}
