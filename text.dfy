/** Characters and strings as Python's `str` methods and the `re` patterns of
    the pipeline see them. Strings are sequences of Unicode scalar values. Case
    mapping, word characters and accent folding are modelled exactly for the
    Basic Latin and Latin-1 Supplement blocks (U+0000..U+00FF). */
module Text {
  import opened Seqs

  /** `str.isspace()`; it is also what `\s` matches in a `str` pattern. */
  predicate IsSpace(c: char)
  {
    c == ' ' || ('\t' <= c <= '\r') || ('\U{1C}' <= c <= '\U{1F}') || c == '\U{85}' || c == '\U{A0}'
    || c == '\U{1680}' || ('\U{2000}' <= c <= '\U{200A}') || c == '\U{2028}' || c == '\U{2029}'
    || c == '\U{202F}' || c == '\U{205F}' || c == '\U{3000}'
  }

  predicate IsAsciiUpper(c: char) { 'A' <= c <= 'Z' }

  predicate IsAsciiLower(c: char) { 'a' <= c <= 'z' }

  predicate IsDigit(c: char) { '0' <= c <= '9' }

  /** What `\w` matches in a `str` pattern (letters, digits, numerals and `_`),
      for code points up to U+00FF. */
  predicate IsWordChar(c: char)
  {
    IsAsciiUpper(c) || IsAsciiLower(c) || IsDigit(c) || c == '_'
    || c == '\U{AA}' || c == '\U{B2}' || c == '\U{B3}' || c == '\U{B5}' || c == '\U{B9}' || c == '\U{BA}'
    || ('\U{BC}' <= c <= '\U{BE}') || ('\U{C0}' <= c <= '\U{FF}' && c != '\U{D7}' && c != '\U{F7}')
  }

  /** `str.upper()` of one character: ASCII and Latin-1 lower-case letters,
      with sharp s becoming "SS" and y-diaeresis and micro sign leaving the block. */
  function UpperChar(c: char): string
  {
    if IsAsciiLower(c) || ('\U{E0}' <= c <= '\U{FE}' && c != '\U{F7}') then [(c as int - 32) as char]
    else if c == '\U{DF}' then "SS"
    else if c == '\U{FF}' then "\U{178}"
    else if c == '\U{B5}' then "\U{39C}"
    else [c]
  }

  /** `str.upper()`. */
  function Upper(s: string): string
  {
    if s == [] then [] else UpperChar(s[0]) + Upper(s[1..])
  }

  /** `str.lower()` of one character, for ASCII and Latin-1 capitals. */
  function LowerChar(c: char): char
  {
    if IsAsciiUpper(c) || ('\U{C0}' <= c <= '\U{DE}' && c != '\U{D7}') then (c as int + 32) as char else c
  }

  /** `str.lower()`. */
  function Lower(s: string): string
  {
    seq(|s|, i requires 0 <= i < |s| => LowerChar(s[i]))
  }

  /** Length of the whitespace run at the start of `s`. */
  function LeadingSpaces(s: string): (n: nat)
    ensures n <= |s|
    ensures forall k {:trigger IsSpace(s[k])} :: 0 <= k < n ==> IsSpace(s[k])
    ensures n < |s| ==> !IsSpace(s[n])
  {
    if s == [] || !IsSpace(s[0]) then 0 else 1 + LeadingSpaces(s[1..])
  }

  /** Length of the whitespace run at the end of `s`. */
  function TrailingSpaces(s: string): (n: nat)
    ensures n <= |s|
    ensures forall k {:trigger IsSpace(s[k])} :: |s| - n <= k < |s| ==> IsSpace(s[k])
    ensures n < |s| ==> !IsSpace(s[|s| - n - 1])
  {
    if s == [] || !IsSpace(s[|s| - 1]) then 0 else 1 + TrailingSpaces(s[..|s| - 1])
  }

  /** `str.lstrip()`. */
  function LStrip(s: string): string
  {
    s[LeadingSpaces(s)..]
  }

  /** `str.rstrip()`. */
  function RStrip(s: string): string
  {
    s[..|s| - TrailingSpaces(s)]
  }

  /** `str.strip()`. */
  function Strip(s: string): string
  {
    RStrip(LStrip(s))
  }

  /** The leading whitespace run is the one that ends at the first non-space. */
  lemma {:induction false} LeadingSpacesUnique(s: string, m: nat)
    requires m <= |s|
    requires forall k :: 0 <= k < m ==> IsSpace(s[k])
    requires m < |s| ==> !IsSpace(s[m])
    ensures LeadingSpaces(s) == m
    decreases m
  {
    if m > 0 {
      var t := s[1..];
      forall k | 0 <= k < m - 1 ensures IsSpace(t[k]) {
        assert t[k] == s[k + 1];
      }
      if m - 1 < |t| {
        assert t[m - 1] == s[m];
      }
      LeadingSpacesUnique(t, m - 1);
    }
  }

  /** The trailing whitespace run is the one that starts after the last non-space. */
  lemma {:induction false} TrailingSpacesUnique(s: string, m: nat)
    requires m <= |s|
    requires forall k :: |s| - m <= k < |s| ==> IsSpace(s[k])
    requires m < |s| ==> !IsSpace(s[|s| - m - 1])
    ensures TrailingSpaces(s) == m
    decreases m
  {
    if m > 0 {
      var t := s[..|s| - 1];
      assert IsSpace(s[|s| - 1]);
      forall k | |t| - (m - 1) <= k < |t| ensures IsSpace(t[k]) {
        assert t[k] == s[k];
      }
      if m - 1 < |t| {
        assert t[|t| - (m - 1) - 1] == s[|s| - m - 1];
      }
      TrailingSpacesUnique(t, m - 1);
    }
  }

  /** The infix `s[i..j]` is the stripped string when everything outside it is
      whitespace and it neither starts nor ends with whitespace. */
  lemma StripUnique(s: string, i: nat, j: nat)
    requires i <= j <= |s|
    requires forall k :: 0 <= k < i ==> IsSpace(s[k])
    requires forall k :: j <= k < |s| ==> IsSpace(s[k])
    requires i < j ==> !IsSpace(s[i]) && !IsSpace(s[j - 1])
    ensures Strip(s) == s[i..j]
  {
    if i < j {
      LeadingSpacesUnique(s, i);
      var l := s[i..];
      var m := |s| - j;
      forall k | |l| - m <= k < |l| ensures IsSpace(l[k]) {
        assert l[k] == s[k + i];
      }
      assert l[|l| - m - 1] == s[j - 1];
      TrailingSpacesUnique(l, m);
      assert l[..|l| - m] == s[i..j];
    } else {
      forall k | 0 <= k < |s| ensures IsSpace(s[k]) {
        if k >= j {
        } else {
          assert k < i;
        }
      }
      LeadingSpacesUnique(s, |s|);
    }
  }

  /** Text with no whitespace at either end is its own strip. */
  lemma StripFixed(s: string)
    requires s == [] || (!IsSpace(s[0]) && !IsSpace(s[|s| - 1]))
    ensures Strip(s) == s
  {
    StripUnique(s, 0, |s|);
    assert s[0..|s|] == s;
  }

  /** Text that does not end in whitespace is its own right strip. */
  lemma RStripFixed(s: string)
    requires s == [] || !IsSpace(s[|s| - 1])
    ensures RStrip(s) == s
  {
    TrailingSpacesUnique(s, 0);
  }

  /** Stripping one space on either side of such text gives it back. */
  lemma StripPadded(s: string)
    requires s != [] && !IsSpace(s[0]) && !IsSpace(s[|s| - 1])
    ensures Strip(" " + s + " ") == s
  {
    var m := " " + s + " ";
    StripUnique(m, 1, |m| - 1);
    assert m[1..|m| - 1] == s;
  }

  /** What `str.strip()` returns is an infix of its argument. */
  lemma StripIsInfix(s: string)
    ensures exists i, j :: 0 <= i <= j <= |s| && Strip(s) == s[i..j]
  {
    var i := LeadingSpaces(s);
    var l := s[i..];
    var j := i + |l| - TrailingSpaces(l);
    assert Strip(s) == s[i..j];
  }

  /** Stripping after a left strip is stripping. */
  lemma StripAfterLStrip(s: string)
    ensures Strip(LStrip(s)) == Strip(s)
  {
    LeadingSpacesUnique(LStrip(s), 0);
    assert LStrip(LStrip(s)) == LStrip(s);
  }

  /** Stripping after a right strip is stripping. */
  lemma StripAfterRStrip(s: string)
    ensures Strip(RStrip(s)) == Strip(s)
  {
    var i := LeadingSpaces(s);
    var j := |s| - TrailingSpaces(s);
    var rs := RStrip(s);
    if i == |s| {
      assert LStrip(s) == [];
      StripUnique(rs, 0, 0);
    } else {
      assert i < j;
      StripUnique(s, i, j);
      forall k | 0 <= k < i ensures IsSpace(rs[k]) {
        assert rs[k] == s[k];
      }
      assert rs[i] == s[i] && rs[j - 1] == s[j - 1];
      StripUnique(rs, i, j);
      assert rs[i..j] == s[i..j];
    }
  }

  /** `str.strip()` leaves no whitespace at either end. */
  lemma StripTrimmed(s: string)
    ensures var r := Strip(s); r == [] || (!IsSpace(r[0]) && !IsSpace(r[|r| - 1]))
  {
    var l := LStrip(s);
    var r := Strip(s);
    if r != [] {
      assert r[0] == l[0] && r[|r| - 1] == l[|l| - TrailingSpaces(l) - 1];
    }
  }

  /** The pattern `pat` occurs in `s` at position `i`. */
  predicate OccursAt(s: string, pat: string, i: nat)
  {
    i + |pat| <= |s| && forall k :: 0 <= k < |pat| ==> s[i + k] == pat[k]
  }

  /** A one-character pattern occurs where that character is. */
  lemma OccursAtChar(s: string, c: char, i: nat)
    ensures OccursAt(s, [c], i) <==> i < |s| && s[i] == c
  {
    if i < |s| {
      assert [c][0] == c;
      assert s[i + 0] == s[i];
    }
  }

  /** The first position at or after `from` where `pat` occurs. */
  function FindFrom(s: string, pat: string, from: nat): (r: Option<nat>)
    ensures r.Some? ==> from <= r.value && OccursAt(s, pat, r.value)
    ensures r.Some? ==> forall i :: from <= i < r.value ==> !OccursAt(s, pat, i)
    ensures r.None? ==> forall i :: from <= i ==> !OccursAt(s, pat, i)
    decreases |s| - from
  {
    if from + |pat| > |s| then None
    else if OccursAt(s, pat, from) then Some(from)
    else FindFrom(s, pat, from + 1)
  }

  /** `str.find()`: the first position where `pat` occurs. */
  function Find(s: string, pat: string): Option<nat>
  {
    FindFrom(s, pat, 0)
  }

  /** Dropping a prefix that holds no occurrence shifts the first occurrence. */
  lemma FindDrop(x: string, pat: string, d: nat)
    requires d <= |x|
    requires forall i :: 0 <= i < d ==> !OccursAt(x, pat, i)
    ensures Find(x[d..], pat).None? <==> Find(x, pat).None?
    ensures Find(x, pat).Some? ==> Find(x[d..], pat).value == Find(x, pat).value - d
  {
    var y := x[d..];
    assert forall i: nat :: OccursAt(y, pat, i) <==> OccursAt(x, pat, i + d) by {
      forall i: nat ensures OccursAt(y, pat, i) <==> OccursAt(x, pat, i + d) {
        if i + |pat| <= |y| {
          forall k | 0 <= k < |pat| ensures y[i + k] == pat[k] <==> x[i + d + k] == pat[k] { }
        }
      }
    }
    if Find(y, pat).Some? {
      assert OccursAt(x, pat, Find(y, pat).value + d);
    }
    if Find(x, pat).Some? {
      assert OccursAt(y, pat, Find(x, pat).value - d);
    }
  }

  /** `s.split(sep)` for a literal separator: every piece, empty ones included. */
  function SplitOn(s: string, sep: string): (r: seq<string>)
    requires sep != []
    ensures |r| >= 1
    decreases |s|
  {
    match Find(s, sep)
    case None => [s]
    case Some(k) => [s[..k]] + SplitOn(s[k + |sep|..], sep)
  }

  /** `sep.join(parts)`. */
  function Join(parts: seq<string>, sep: string): string
  {
    if |parts| == 0 then ""
    else if |parts| == 1 then parts[0]
    else parts[0] + sep + Join(parts[1..], sep)
  }

  /** Splitting then joining with the same separator gives the string back. */
  lemma {:induction false} JoinSplit(s: string, sep: string)
    requires sep != []
    ensures Join(SplitOn(s, sep), sep) == s
    decreases |s|
  {
    match Find(s, sep)
    case None =>
    case Some(k) =>
      var rest := s[k + |sep|..];
      var parts := SplitOn(rest, sep);
      assert SplitOn(s, sep) == [s[..k]] + parts;
      assert ([s[..k]] + parts)[1..] == parts;
      assert Join(SplitOn(s, sep), sep) == s[..k] + sep + Join(parts, sep);
      JoinSplit(rest, sep);
      assert s[k..k + |sep|] == sep;
      assert s == s[..k] + s[k..k + |sep|] + rest;
  }

  /** No piece of a split contains the separator. */
  lemma {:induction false} SplitPiecesAvoidSeparator(s: string, sep: string)
    requires sep != []
    ensures forall p :: p in SplitOn(s, sep) ==> Find(p, sep).None?
    decreases |s|
  {
    match Find(s, sep)
    case None =>
    case Some(k) =>
      SplitPiecesAvoidSeparator(s[k + |sep|..], sep);
      var head := s[..k];
      forall i | 0 <= i <= |head| ensures !OccursAt(head, sep, i) {
        if OccursAt(head, sep, i) {
          assert head[i..i + |sep|] == s[i..i + |sep|];
          assert OccursAt(s, sep, i);
        }
      }
  }

  /** `s.split(sep, 1)`: at most one split, at the first separator. */
  function SplitFirst(s: string, sep: string): (r: seq<string>)
    requires sep != []
    ensures 1 <= |r| <= 2
  {
    match Find(s, sep)
    case None => [s]
    case Some(k) => [s[..k], s[k + |sep|..]]
  }

  /** `re.split(r'\s*;\s*', s)`: the leftmost match of the pattern starts where
      the whitespace run before the first `;` starts, and greedily takes the
      whitespace after it, so each piece loses the whitespace on the side of
      the `;` it touches. */
  function SemicolonSplit(s: string): (r: seq<string>)
    ensures |r| >= 1
    decreases |s|
  {
    match Find(s, ";")
    case None => [s]
    case Some(k) => [RStrip(s[..k])] + SemicolonSplit(LStrip(s[k + 1..]))
  }

  /** Left-stripping skips any prefix made of whitespace. */
  lemma LStripSkip(s: string, d: nat)
    requires d <= |s|
    requires forall i :: 0 <= i < d ==> IsSpace(s[i])
    ensures LStrip(s) == LStrip(s[d..])
  {
    var n := LeadingSpaces(s);
    assert n >= d;
    LeadingSpacesUnique(s[d..], n - d);
    assert s[d..][n - d..] == s[n..];
  }

  /** One step of a literal split that finds its separator. */
  lemma SplitOnFound(s: string, sep: string, k: nat)
    requires sep != [] && Find(s, sep) == Some(k)
    ensures |SplitOn(s, sep)| == 1 + |SplitOn(s[k + |sep|..], sep)|
    ensures SplitOn(s, sep)[0] == s[..k]
    ensures forall i :: 1 <= i < |SplitOn(s, sep)| ==> SplitOn(s, sep)[i] == SplitOn(s[k + |sep|..], sep)[i - 1]
  {
  }

  /** One step of the `\s*;\s*` split that finds a `;`. */
  lemma SemicolonSplitFound(s: string, k: nat)
    requires Find(s, ";") == Some(k)
    ensures SemicolonSplit(s) == [RStrip(s[..k])] + SemicolonSplit(LStrip(s[k + 1..]))
  {
  }

  /** Leading whitespace holds no `;`, so the first `;` moves with the strip. */
  lemma FindAfterLStrip(x: string)
    ensures Find(LStrip(x), ";").None? <==> Find(x, ";").None?
    ensures Find(x, ";").Some? ==>
      Find(x, ";").value >= LeadingSpaces(x) &&
      Find(LStrip(x), ";").value == Find(x, ";").value - LeadingSpaces(x)
  {
    var d := LeadingSpaces(x);
    forall i | 0 <= i < d ensures !OccursAt(x, ";", i) {
      assert IsSpace(x[i]);
      OccursAtChar(x, ';', i);
    }
    FindDrop(x, ";", d);
  }

  /** Leading whitespace never holds a `;`: removing it changes only the
      leading whitespace of the first piece of a literal split. */
  lemma SplitOnLStrip(x: string)
    ensures |SplitOn(LStrip(x), ";")| == |SplitOn(x, ";")|
    ensures LStrip(SplitOn(LStrip(x), ";")[0]) == LStrip(SplitOn(x, ";")[0])
    ensures forall i :: 1 <= i < |SplitOn(LStrip(x), ";")| ==> SplitOn(LStrip(x), ";")[i] == SplitOn(x, ";")[i]
  {
    var d := LeadingSpaces(x);
    var l := x[d..];
    FindAfterLStrip(x);
    if Find(x, ";").None? {
      assert SplitOn(l, ";") == [l];
      assert SplitOn(x, ";") == [x];
      LeadingSpacesUnique(l, 0);
    } else {
      var k := Find(x, ";").value;
      SplitOnDropFound(x, d, k);
      LStripHead(x, d, k);
    }
  }

  /** The first `;` found at the same place before and after dropping `d`
      characters gives the same later pieces. */
  lemma SplitOnDropFound(x: string, d: nat, k: nat)
    requires Find(x, ";") == Some(k) && d <= k
    requires Find(x[d..], ";") == Some(k - d)
    ensures |SplitOn(x[d..], ";")| == |SplitOn(x, ";")|
    ensures SplitOn(x[d..], ";")[0] == x[d..][..k - d] && SplitOn(x, ";")[0] == x[..k]
    ensures forall i :: 1 <= i < |SplitOn(x[d..], ";")| ==> SplitOn(x[d..], ";")[i] == SplitOn(x, ";")[i]
  {
    var l := x[d..];
    assert l[k - d + 1..] == x[k + 1..];
    SplitOnFound(x, ";", k);
    SplitOnFound(l, ";", k - d);
  }

  /** The part before the first `;` loses the same leading whitespace as the string. */
  lemma LStripHead(x: string, d: nat, k: nat)
    requires d == LeadingSpaces(x) && d <= k <= |x|
    ensures LStrip(x[..k]) == LStrip(x[d..][..k - d])
  {
    assert x[..k][d..] == x[d..][..k - d];
    LStripSkip(x[..k], d);
  }

  /** Once pieces are stripped, the regular-expression split on `\s*;\s*`
      and the literal split on `;` agree piece by piece. */
  lemma {:induction false} SemicolonSplitStripped(s: string)
    ensures |SemicolonSplit(s)| == |SplitOn(s, ";")|
    ensures forall i :: 0 <= i < |SemicolonSplit(s)| ==>
      Strip(SemicolonSplit(s)[i]) == Strip(SplitOn(s, ";")[i])
    decreases |s|, 1
  {
    if Find(s, ";").None? {
      assert SemicolonSplit(s) == [s] == SplitOn(s, ";");
    } else {
      SemicolonSplitStrippedFound(s, Find(s, ";").value);
    }
  }

  /** The inductive step of `SemicolonSplitStripped`, at the first `;`. */
  lemma {:induction false} SemicolonSplitStrippedFound(s: string, k: nat)
    requires Find(s, ";") == Some(k)
    ensures |SemicolonSplit(s)| == |SplitOn(s, ";")|
    ensures forall i :: 0 <= i < |SemicolonSplit(s)| ==>
      Strip(SemicolonSplit(s)[i]) == Strip(SplitOn(s, ";")[i])
    decreases |s|, 0
  {
    var x := s[k + 1..];
    var rest := LStrip(x);
    SemicolonSplitStripped(rest);
    SplitOnLStrip(x);
    StripAfterRStrip(s[..k]);
    SemicolonSplitFound(s, k);
    SplitOnFound(s, ";", k);
    StripEqualTail(SemicolonSplit(rest), SplitOn(rest, ";"), SplitOn(x, ";"));
    StripEqualCons(RStrip(s[..k]), s[..k], SemicolonSplit(rest), SplitOn(x, ";"));
  }

  /** Piecewise equality after stripping carries over to a second list whose
      pieces differ from the first only in the leading whitespace of the head. */
  lemma StripEqualTail(a: seq<string>, c: seq<string>, b: seq<string>)
    requires |a| == |c| == |b| && |c| >= 1
    requires forall i :: 0 <= i < |a| ==> Strip(a[i]) == Strip(c[i])
    requires LStrip(c[0]) == LStrip(b[0])
    requires forall i :: 1 <= i < |c| ==> c[i] == b[i]
    ensures forall i :: 0 <= i < |a| ==> Strip(a[i]) == Strip(b[i])
  {
    assert Strip(c[0]) == Strip(b[0]);
  }

  /** Piecewise equality after stripping extends by a pair of equal stripped heads. */
  lemma StripEqualCons(h: string, h': string, a: seq<string>, b: seq<string>)
    requires Strip(h) == Strip(h') && |a| == |b|
    requires forall i :: 0 <= i < |a| ==> Strip(a[i]) == Strip(b[i])
    ensures var a', b' := [h] + a, [h'] + b;
      forall i :: 0 <= i < |a'| ==> Strip(a'[i]) == Strip(b'[i])
  {
    var a', b' := [h] + a, [h'] + b;
    forall i | 0 <= i < |a'| ensures Strip(a'[i]) == Strip(b'[i]) {
      if i > 0 {
        assert a'[i] == a[i - 1] && b'[i] == b[i - 1];
      }
    }
  }

  /** `s.replace(a, b)` for one character. */
  function ReplaceChar(s: string, a: char, b: char): string
  {
    seq(|s|, i requires 0 <= i < |s| => if s[i] == a then b else s[i])
  }

  /** Deletes every character of `cs` (`re.sub('[...]', '', s)`, `s.replace(c, '')`). */
  function RemoveChars(s: string, cs: set<char>): (r: string)
    ensures forall i :: 0 <= i < |r| ==> r[i] !in cs && r[i] in s
  {
    if s == [] then []
    else if s[0] in cs then RemoveChars(s[1..], cs)
    else [s[0]] + RemoveChars(s[1..], cs)
  }

  /** The only whitespace is single spaces: no other whitespace character,
      and no space followed by whitespace. */
  predicate SingleSpaced(s: string)
  {
    forall i :: 0 <= i < |s| && IsSpace(s[i]) ==> s[i] == ' ' && (i + 1 == |s| || !IsSpace(s[i + 1]))
  }

  /** `re.sub(r'\s+', ' ', s)`: every whitespace run becomes one space. */
  function CollapseSpaces(s: string): (r: string)
    ensures SingleSpaced(r)
    ensures forall i :: 0 <= i < |r| ==> r[i] == ' ' || (r[i] in s && !IsSpace(r[i]))
    ensures s != [] && !IsSpace(s[0]) ==> r != [] && r[0] == s[0]
    decreases |s|
  {
    if s == [] then []
    else if IsSpace(s[0]) then
      var l := LStrip(s);
      assert forall c :: c in l ==> c in s;
      " " + CollapseSpaces(l)
    else [s[0]] + CollapseSpaces(s[1..])
  }

  /** Text that is already single-spaced is left as it is. */
  lemma {:induction false} CollapseSingleSpaced(s: string)
    requires SingleSpaced(s)
    ensures CollapseSpaces(s) == s
  {
    if s != [] {
      if IsSpace(s[0]) {
        LeadingSpacesUnique(s, 1);
        assert LStrip(s) == s[1..];
      }
      assert SingleSpaced(s[1..]) by {
        forall i | 0 <= i < |s[1..]| && IsSpace(s[1..][i])
          ensures s[1..][i] == ' ' && (i + 1 == |s[1..]| || !IsSpace(s[1..][i + 1]))
        {
          assert s[1..][i] == s[i + 1];
        }
      }
      CollapseSingleSpaced(s[1..]);
    }
  }

  /** Stripping single-spaced text leaves it single-spaced. */
  lemma StripSingleSpaced(s: string)
    requires SingleSpaced(s)
    ensures SingleSpaced(Strip(s))
  {
    var i := LeadingSpaces(s);
    var l := s[i..];
    var j := i + |l| - TrailingSpaces(l);
    assert Strip(s) == s[i..j];
    var r := s[i..j];
    forall k | 0 <= k < |r| && IsSpace(r[k]) ensures r[k] == ' ' && (k + 1 == |r| || !IsSpace(r[k + 1])) {
      assert r[k] == s[i + k];
      assert k + 1 < |r| ==> r[k + 1] == s[i + k + 1];
    }
  }

  /** Upper-casing ASCII text gives ASCII text with no lower-case letter,
      character by character. */
  lemma {:induction false} UpperAscii(s: string)
    requires forall i :: 0 <= i < |s| ==> s[i] < '\U{80}'
    ensures |Upper(s)| == |s|
    ensures forall i :: 0 <= i < |s| ==> Upper(s)[i] == if IsAsciiLower(s[i]) then (s[i] as int - 32) as char else s[i]
  {
    if s != [] {
      UpperAscii(s[1..]);
      assert Upper(s) == UpperChar(s[0]) + Upper(s[1..]);
      assert forall i :: 1 <= i < |s| ==> Upper(s)[i] == Upper(s[1..])[i - 1] && s[1..][i - 1] == s[i];
    }
  }

  /** Deleting characters that do not occur changes nothing. */
  lemma {:induction false} RemoveAbsent(s: string, cs: set<char>)
    requires forall i :: 0 <= i < |s| ==> s[i] !in cs
    ensures RemoveChars(s, cs) == s
  {
    if s != [] {
      RemoveAbsent(s[1..], cs);
    }
  }

  /** Deleting characters distributes over concatenation. */
  lemma {:induction false} RemoveCharsAppend(a: string, b: string, cs: set<char>)
    ensures RemoveChars(a + b, cs) == RemoveChars(a, cs) + RemoveChars(b, cs)
  {
    if a != [] {
      RemoveCharsAppend(a[1..], b, cs);
      RemoveCharsAppendStep(a, b, cs);
    } else {
      RemoveCharsAppendEmpty(a, b, cs);
    }
  }

  /** Deleting characters from `[] + b`. */
  lemma RemoveCharsAppendEmpty(a: string, b: string, cs: set<char>)
    requires a == []
    ensures RemoveChars(a + b, cs) == RemoveChars(a, cs) + RemoveChars(b, cs)
  {
    assert a + b == b;
    assert RemoveChars(a, cs) == [];
  }

  /** The step of `RemoveCharsAppend` past the first character of `a`. */
  lemma RemoveCharsAppendStep(a: string, b: string, cs: set<char>)
    requires a != []
    requires RemoveChars(a[1..] + b, cs) == RemoveChars(a[1..], cs) + RemoveChars(b, cs)
    ensures RemoveChars(a + b, cs) == RemoveChars(a, cs) + RemoveChars(b, cs)
  {
    var x := if a[0] in cs then [] else [a[0]];
    assert a == [a[0]] + a[1..];
    assert a + b == [a[0]] + (a[1..] + b);
    RemoveCharsCons(a[0], a[1..], cs);
    RemoveCharsCons(a[0], a[1..] + b, cs);
    SeqAssoc(x, RemoveChars(a[1..], cs), RemoveChars(b, cs));
  }

  /** Concatenation is associative. */
  lemma SeqAssoc<T>(a: seq<T>, b: seq<T>, c: seq<T>)
    ensures a + (b + c) == (a + b) + c
  {
  }

  /** Deleting characters from a string with a first character. */
  lemma RemoveCharsCons(c: char, s: string, cs: set<char>)
    ensures RemoveChars([c] + s, cs) == (if c in cs then [] else [c]) + RemoveChars(s, cs)
  {
    assert ([c] + s)[0] == c && ([c] + s)[1..] == s;
  }

  /** A string without `;` is its own only piece. */
  lemma SemicolonSplitPlain(s: string)
    requires forall k :: 0 <= k < |s| ==> s[k] != ';'
    ensures SemicolonSplit(s) == [s]
  {
    FindAbsent(s, ';');
  }

  /** The split at the first `;`: the right-stripped text before it, then
      the pieces of the left-stripped rest. */
  lemma SemicolonSplitChar(a: string, b: string)
    requires forall k :: 0 <= k < |a| ==> a[k] != ';'
    ensures SemicolonSplit(a + [';'] + b) == [RStrip(a)] + SemicolonSplit(LStrip(b))
  {
    var s := a + [';'] + b;
    FindChar(a, ';', b);
    assert s[..|a|] == a;
    assert s[|a| + 1..] == b;
    SemicolonSplitFound(s, |a|);
  }

  /** A trailing `;` after text without one leaves an empty last piece. */
  lemma SemicolonSplitTrailing(a: string)
    requires forall k :: 0 <= k < |a| ==> a[k] != ';'
    requires a != [] && !IsSpace(a[|a| - 1])
    ensures SemicolonSplit(a + ";") == [a, ""]
  {
    SemicolonSplitChar(a, []);
    assert a + [';'] + [] == a + ";";
    RStripFixed(a);
    assert LStrip([]) == [];
    SemicolonSplitPlain([]);
  }

  /** `str.strip()` on every piece. */
  function StripAll(ps: seq<string>): (r: seq<string>)
    ensures |r| == |ps| && forall k :: 0 <= k < |ps| ==> r[k] == Strip(ps[k])
  {
    seq(|ps|, k requires 0 <= k < |ps| => Strip(ps[k]))
  }

  function NonEmpty(s: string): bool { s != "" }

  /** `str.split(sep)`, `explode`, `str.strip()` and `!= ''` on one field:
      the stripped pieces that are not empty, in order. */
  function SplitStrip(s: string, sep: string): seq<string>
    requires sep != []
  {
    Filter(StripAll(SplitOn(s, sep)), NonEmpty)
  }

  /** A kept piece is exactly a non-empty stripped piece of the split. */
  lemma SplitStripExact(s: string, sep: string, v: string)
    requires sep != []
    ensures v in SplitStrip(s, sep) <==> v != "" && exists p :: p in SplitOn(s, sep) && Strip(p) == v
  {
    var ps := SplitOn(s, sep);
    var st := StripAll(ps);
    if v in SplitStrip(s, sep) {
      var k := IndexOf(st, v).value;
      assert ps[k] in ps;
    }
    if v != "" && exists p :: p in ps && Strip(p) == v {
      var p :| p in ps && Strip(p) == v;
      var k := IndexOf(ps, p).value;
      assert NonEmpty(st[k]);
    }
  }

  /** The first occurrence of a character is after the text that lacks it. */
  lemma FindChar(a: string, c: char, b: string)
    requires forall k :: 0 <= k < |a| ==> a[k] != c
    ensures Find(a + [c] + b, [c]) == Some(|a|)
  {
    var s := a + [c] + b;
    OccursAtChar(s, c, |a|);
    forall i | 0 <= i < |a| ensures !OccursAt(s, [c], i) {
      OccursAtChar(s, c, i);
      assert s[i] == a[i];
    }
  }

  /** A character that ends text lacking it first occurs at the end. */
  lemma FindLast(a: string, c: char)
    requires forall k :: 0 <= k < |a| ==> a[k] != c
    ensures Find(a + [c], [c]) == Some(|a|)
  {
    FindChar(a, c, []);
    assert a + [c] + [] == a + [c];
  }

  /** A text that lacks a character has no occurrence of it. */
  lemma FindAbsent(b: string, c: char)
    requires forall k :: 0 <= k < |b| ==> b[k] != c
    ensures Find(b, [c]).None?
  {
    forall i | 0 <= i ensures !OccursAt(b, [c], i) {
      OccursAtChar(b, c, i);
    }
  }

  /** Splitting at the first occurrence of a one-character separator. */
  lemma SplitOnChar(a: string, c: char, b: string)
    requires forall k :: 0 <= k < |a| ==> a[k] != c
    ensures SplitOn(a + [c] + b, [c]) == [a] + SplitOn(b, [c])
  {
    var s := a + [c] + b;
    FindChar(a, c, b);
    assert s[..|a|] == a;
    assert s[|a| + 1..] == b;
  }

  /** A string without the separator is its own only piece. */
  lemma SplitOnAbsent(b: string, c: char)
    requires forall k :: 0 <= k < |b| ==> b[k] != c
    ensures SplitOn(b, [c]) == [b]
  {
    FindAbsent(b, c);
  }

}
