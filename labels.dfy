/** Column-label normalisation, in the three variants the pipeline carries:
    accents are folded away (NFKD decomposition, then every non-ASCII code
    point dropped), the label is lower-cased, some separators become `_`, and
    whatever is left outside the allowed characters is deleted. */
module ColumnLabels {
  import opened Text
  import opened Frames

  /** NFKD decomposition of one character followed by dropping every
      non-ASCII code point (`.encode('ascii', 'ignore')`). Exact for
      U+0000..U+00FF; code points above are dropped. */
  function FoldChar(c: char): (r: string)
    ensures forall i :: 0 <= i < |r| ==> r[i] < '\U{80}'
  {
    if c < '\U{80}' then [c]
    else if c == '\U{A0}' || c == '\U{A8}' || c == '\U{AF}' || c == '\U{B4}' || c == '\U{B8}' then " "
    else if c == '\U{AA}' then "a"
    else if c == '\U{BA}' then "o"
    else if c == '\U{B2}' then "2"
    else if c == '\U{B3}' then "3"
    else if c == '\U{B9}' then "1"
    else if c == '\U{BC}' then "14"
    else if c == '\U{BD}' then "12"
    else if c == '\U{BE}' then "34"
    else if '\U{C0}' <= c <= '\U{C5}' then "A"
    else if c == '\U{C7}' then "C"
    else if '\U{C8}' <= c <= '\U{CB}' then "E"
    else if '\U{CC}' <= c <= '\U{CF}' then "I"
    else if c == '\U{D1}' then "N"
    else if '\U{D2}' <= c <= '\U{D6}' then "O"
    else if '\U{D9}' <= c <= '\U{DC}' then "U"
    else if c == '\U{DD}' then "Y"
    else if '\U{E0}' <= c <= '\U{E5}' then "a"
    else if c == '\U{E7}' then "c"
    else if '\U{E8}' <= c <= '\U{EB}' then "e"
    else if '\U{EC}' <= c <= '\U{EF}' then "i"
    else if c == '\U{F1}' then "n"
    else if '\U{F2}' <= c <= '\U{F6}' then "o"
    else if '\U{F9}' <= c <= '\U{FC}' then "u"
    else if c == '\U{FD}' || c == '\U{FF}' then "y"
    else ""
  }

  /** `unicodedata.normalize('NFKD', s).encode('ascii', 'ignore').decode('utf-8')`. */
  function Fold(s: string): (r: string)
    ensures forall i :: 0 <= i < |r| ==> r[i] < '\U{80}'
  {
    if s == [] then [] else FoldChar(s[0]) + Fold(s[1..])
  }

  /** ASCII is left as it is. */
  lemma {:induction false} FoldAscii(s: string)
    requires forall i :: 0 <= i < |s| ==> s[i] < '\U{80}'
    ensures Fold(s) == s
  {
    if s != [] {
      FoldAscii(s[1..]);
    }
  }

  /** The characters every normalised label is made of: `[a-z0-9_]`. */
  predicate IsLabelChar(c: char)
  {
    IsAsciiLower(c) || IsDigit(c) || c == '_'
  }

  /** The characters of `s` that satisfy `keep`, in order (`re.sub('[^...]', '', s)`). */
  function Keep(s: string, keep: char -> bool): (r: string)
    ensures forall i :: 0 <= i < |r| ==> keep(r[i]) && r[i] in s
    ensures |r| <= |s|
  {
    if s == [] then []
    else if keep(s[0]) then [s[0]] + Keep(s[1..], keep)
    else Keep(s[1..], keep)
  }

  /** Nothing is removed when every character is kept. */
  lemma {:induction false} KeepAll(s: string, keep: char -> bool)
    requires forall i :: 0 <= i < |s| ==> keep(s[i])
    ensures Keep(s, keep) == s
  {
    if s != [] {
      KeepAll(s[1..], keep);
    }
  }

  /** Two filters that agree on every character of `s` keep the same characters. */
  lemma {:induction false} KeepAgree(s: string, p: char -> bool, q: char -> bool)
    requires forall i :: 0 <= i < |s| ==> p(s[i]) == q(s[i])
    ensures Keep(s, p) == Keep(s, q)
  {
    if s != [] {
      KeepAgree(s[1..], p, q);
    }
  }

  /** The folded, lower-cased label (steps 1 and 2 of every variant). */
  function FoldLower(col: string): (r: string)
    ensures forall i :: 0 <= i < |r| ==> r[i] < '\U{80}' && !IsAsciiUpper(r[i])
  {
    var f := Fold(col);
    var r := Lower(f);
    assert forall i :: 0 <= i < |r| ==> r[i] == LowerChar(f[i]);
    r
  }

  /** Scopus: spaces and hyphens become `_`, then `[^\w_]` is deleted. */
  function ScopusLabel(col: string): string
  {
    Keep(ReplaceChar(ReplaceChar(FoldLower(col), ' ', '_'), '-', '_'), IsWordChar)
  }

  /** Espacenet: spaces and hyphens become `_`, then `[^a-z0-9_]` is deleted. */
  function EspacenetLabel(col: string): string
  {
    Keep(ReplaceChar(ReplaceChar(FoldLower(col), ' ', '_'), '-', '_'), IsLabelChar)
  }

  /** CNCFlora: spaces and slashes become `_`, then `[^a-z0-9_]` is deleted,
      hyphens included. */
  function CncfloraLabel(col: string): string
  {
    Keep(ReplaceChar(ReplaceChar(FoldLower(col), ' ', '_'), '/', '_'), IsLabelChar)
  }

  /** On folded, lower-cased text `\w` is exactly `[a-z0-9_]`, so the Scopus
      and the Espacenet variants are the same function. */
  lemma ScopusIsEspacenet(col: string)
    ensures ScopusLabel(col) == EspacenetLabel(col)
    ensures forall i :: 0 <= i < |ScopusLabel(col)| ==> IsLabelChar(ScopusLabel(col)[i])
  {
    var s := ReplaceChar(ReplaceChar(FoldLower(col), ' ', '_'), '-', '_');
    assert forall i :: 0 <= i < |s| ==> s[i] < '\U{80}' && !IsAsciiUpper(s[i]);
    KeepAgree(s, IsWordChar, IsLabelChar);
  }

  /** Every variant's output uses only `[a-z0-9_]`. */
  lemma LabelsCanonical(col: string)
    ensures forall i :: 0 <= i < |EspacenetLabel(col)| ==> IsLabelChar(EspacenetLabel(col)[i])
    ensures forall i :: 0 <= i < |CncfloraLabel(col)| ==> IsLabelChar(CncfloraLabel(col)[i])
  {
  }

  /** A label already made of `[a-z0-9_]` is its own normal form, in every variant. */
  lemma CanonicalUnchanged(col: string)
    requires forall i :: 0 <= i < |col| ==> IsLabelChar(col[i])
    ensures ScopusLabel(col) == col && EspacenetLabel(col) == col && CncfloraLabel(col) == col
  {
    FoldAscii(col);
    var l := Lower(col);
    assert l == col;
    assert ReplaceChar(ReplaceChar(col, ' ', '_'), '-', '_') == col;
    assert ReplaceChar(ReplaceChar(col, ' ', '_'), '/', '_') == col;
    KeepAll(col, IsLabelChar);
    ScopusIsEspacenet(col);
  }

  /** Normalising twice is normalising once. */
  lemma LabelsIdempotent(col: string)
    ensures ScopusLabel(ScopusLabel(col)) == ScopusLabel(col)
    ensures EspacenetLabel(EspacenetLabel(col)) == EspacenetLabel(col)
    ensures CncfloraLabel(CncfloraLabel(col)) == CncfloraLabel(col)
  {
    ScopusIsEspacenet(col);
    LabelsCanonical(col);
    CanonicalUnchanged(EspacenetLabel(col));
    CanonicalUnchanged(CncfloraLabel(col));
  }

  /** Folding works character by character. */
  lemma {:induction false} FoldAppend(x: string, y: string)
    ensures Fold(x + y) == Fold(x) + Fold(y)
  {
    if x == [] {
      assert x + y == y;
    } else {
      assert (x + y)[0] == x[0] && (x + y)[1..] == x[1..] + y;
      FoldAppend(x[1..], y);
    }
  }

  /** Filtering works character by character. */
  lemma {:induction false} KeepAppend(x: string, y: string, keep: char -> bool)
    ensures Keep(x + y, keep) == Keep(x, keep) + Keep(y, keep)
  {
    if x == [] {
      assert x + y == y;
    } else {
      assert (x + y)[0] == x[0] && (x + y)[1..] == x[1..] + y;
      KeepAppend(x[1..], y, keep);
    }
  }

  /** Made of `[a-z0-9_]` only. */
  predicate Canonical(s: string)
  {
    forall i :: 0 <= i < |s| ==> IsLabelChar(s[i])
  }

  /** Folding and lower-casing leave lower-case ASCII text as it is. */
  lemma FoldLowerFixed(s: string)
    requires forall i :: 0 <= i < |s| ==> s[i] < '\U{80}' && !IsAsciiUpper(s[i])
    ensures FoldLower(s) == s
  {
    FoldAscii(s);
    assert Lower(s) == s;
  }

  /** Two canonical labels joined by a hyphen hold label characters and that
      one hyphen. */
  lemma HyphenatedChars(a: string, b: string, i: nat)
    requires Canonical(a) && Canonical(b) && i < |a + "-" + b|
    ensures var s := a + "-" + b;
      (i < |a| ==> s[i] == a[i]) && (i == |a| ==> s[i] == '-') && (i > |a| ==> s[i] == b[i - |a| - 1])
  {
  }

  /** Scopus: the hyphen becomes `_` and nothing is deleted. */
  lemma HyphenToUnderscore(a: string, b: string)
    requires Canonical(a) && Canonical(b)
    ensures ReplaceChar(ReplaceChar(a + "-" + b, ' ', '_'), '-', '_') == a + "_" + b
    ensures Canonical(a + "_" + b)
  {
    var s := a + "-" + b;
    var u := a + "_" + b;
    forall i | 0 <= i < |s| ensures ReplaceChar(ReplaceChar(s, ' ', '_'), '-', '_')[i] == u[i] && IsLabelChar(u[i]) {
      HyphenatedChars(a, b, i);
    }
  }

  /** CNCFlora: the replacements leave the hyphenated label as it is. */
  lemma HyphenUnreplaced(a: string, b: string)
    requires Canonical(a) && Canonical(b)
    ensures ReplaceChar(ReplaceChar(a + "-" + b, ' ', '_'), '/', '_') == a + "-" + b
    ensures FoldLower(a + "-" + b) == a + "-" + b
  {
    var s := a + "-" + b;
    forall i | 0 <= i < |s| ensures s[i] < '\U{80}' && !IsAsciiUpper(s[i]) && s[i] != ' ' && s[i] != '/' {
      HyphenatedChars(a, b, i);
    }
    FoldLowerFixed(s);
  }

  /** CNCFlora: `[^a-z0-9_]` deletes the hyphen. */
  lemma HyphenDeleted(a: string, b: string)
    requires Canonical(a) && Canonical(b)
    ensures Keep(a + "-" + b, IsLabelChar) == a + b
  {
    var h := "-";
    assert Keep(h, IsLabelChar) == [] by {
      assert !IsLabelChar(h[0]) && h[1..] == [];
    }
    KeepAll(a, IsLabelChar);
    KeepAll(b, IsLabelChar);
    KeepAppend(a, h, IsLabelChar);
    assert Keep(a + h, IsLabelChar) == a;
    KeepAppend(a + h, b, IsLabelChar);
  }

  /** The variants differ on hyphens: between two canonical labels, Scopus
      turns a hyphen into `_` while CNCFlora deletes it. */
  lemma HyphenDiffers(a: string, b: string)
    requires Canonical(a) && Canonical(b)
    ensures ScopusLabel(a + "-" + b) == a + "_" + b
    ensures CncfloraLabel(a + "-" + b) == a + b
  {
    HyphenUnreplaced(a, b);
    HyphenToUnderscore(a, b);
    var u := a + "_" + b;
    forall i | 0 <= i < |u| ensures IsWordChar(u[i]) {
      assert IsLabelChar(u[i]);
    }
    KeepAll(u, IsWordChar);
    HyphenDeleted(a, b);
  }

  /** Distinct labels can collide: a label that starts with an accented
      letter normalises, in every variant, to the same label as its spelling
      with that letter folded. */
  lemma LabelsCollide(c: char, rest: string)
    requires c >= '\U{80}'
    ensures [c] + rest != FoldChar(c) + rest
    ensures ScopusLabel([c] + rest) == ScopusLabel(FoldChar(c) + rest)
    ensures EspacenetLabel([c] + rest) == EspacenetLabel(FoldChar(c) + rest)
    ensures CncfloraLabel([c] + rest) == CncfloraLabel(FoldChar(c) + rest)
  {
    var s := [c] + rest;
    assert s[0] == c && s[1..] == rest;
    assert Fold(s) == FoldChar(c) + Fold(rest);
    FoldAppend(FoldChar(c), rest);
    FoldAscii(FoldChar(c));
    if |FoldChar(c)| == 0 {
      assert |FoldChar(c) + rest| < |s|;
    } else {
      assert (FoldChar(c) + rest)[0] == FoldChar(c)[0];
    }
  }

  /** `padronizar_nomes_colunas` (Scopus) overwrites the caller's labels. */
  method StandardizeScopusLabels(df: DataFrame)
    modifies df
    ensures |df.columns| == |old(df.columns)|
    ensures forall i :: 0 <= i < |df.columns| ==> df.columns[i] == ScopusLabel(old(df.columns)[i])
    ensures df.dtypes == old(df.dtypes) && df.rows == old(df.rows)
  {
    var labels := [];
    var i := 0;
    while i < |df.columns|
      invariant 0 <= i <= |df.columns|
      invariant |labels| == i
      invariant forall k :: 0 <= k < i ==> labels[k] == ScopusLabel(df.columns[k])
    {
      labels := labels + [ScopusLabel(df.columns[i])];
      i := i + 1;
    }
    df.columns := labels;
  }

  /** `padronizar_colunas_cncflora` overwrites the caller's labels. */
  method StandardizeCncfloraLabels(df: DataFrame)
    modifies df
    ensures |df.columns| == |old(df.columns)|
    ensures forall i :: 0 <= i < |df.columns| ==> df.columns[i] == CncfloraLabel(old(df.columns)[i])
    ensures df.dtypes == old(df.dtypes) && df.rows == old(df.rows)
  {
    var labels := [];
    var i := 0;
    while i < |df.columns|
      invariant 0 <= i <= |df.columns|
      invariant |labels| == i
      invariant forall k :: 0 <= k < i ==> labels[k] == CncfloraLabel(df.columns[k])
    {
      labels := labels + [CncfloraLabel(df.columns[i])];
      i := i + 1;
    }
    df.columns := labels;
  }
}
