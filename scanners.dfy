/** The regular expressions of the pipeline that pick pieces out of a string,
    written as left-to-right scanners: word runs for `\b...\b`, groups in
    parentheses or brackets, and runs of digits. */
module Scanners {
  import opened Seqs
  import opened Text

  /** Length of the run at the start of `s` whose characters satisfy `p`
      (a greedy `[...]*`). */
  function RunLen(s: string, p: char -> bool): (n: nat)
    ensures n <= |s|
    ensures forall k :: 0 <= k < n ==> p(s[k])
    ensures n < |s| ==> !p(s[n])
  {
    if s == [] || !p(s[0]) then 0 else 1 + RunLen(s[1..], p)
  }

  /** The maximal runs of word characters of `s`, left to right. A match of
      `\b(X)\b` where `X` only matches word characters is exactly such a run
      that `X` matches as a whole. */
  function Words(s: string): (r: seq<string>)
    ensures forall j :: 0 <= j < |r| ==> |r[j]| > 0 && forall k :: 0 <= k < |r[j]| ==> IsWordChar(r[j][k])
    decreases |s|
  {
    if s == [] then []
    else if !IsWordChar(s[0]) then Words(s[1..])
    else
      var n := RunLen(s, IsWordChar);
      [s[..n]] + Words(s[n..])
  }

  /** `w` occurs at `i` in `s` with no word character on either side. */
  ghost predicate MaximalRunAt(s: string, w: string, i: nat)
  {
    && i + |w| <= |s|
    && s[i..i + |w|] == w
    && (i == 0 || !IsWordChar(s[i - 1]))
    && (i + |w| == |s| || !IsWordChar(s[i + |w|]))
  }

  /** A maximal run found in a suffix is a maximal run of the whole string,
      unless it starts the suffix right after a word character. */
  lemma MaximalRunShift(s: string, d: nat, w: string, i: nat)
    requires d <= |s| && MaximalRunAt(s[d..], w, i)
    requires i == 0 && d > 0 ==> !IsWordChar(s[d - 1])
    ensures MaximalRunAt(s, w, i + d)
  {
    var rest := s[d..];
    assert s[i + d..i + d + |w|] == rest[i..i + |w|];
    assert i > 0 ==> s[i + d - 1] == rest[i - 1];
    assert i + d + |w| < |s| ==> s[i + d + |w|] == rest[i + |w|];
  }

  /** Every word is a maximal run of word characters of the string. */
  lemma {:induction false} WordsAreMaximalRuns(s: string, j: nat)
    requires j < |Words(s)|
    ensures exists i :: MaximalRunAt(s, Words(s)[j], i)
    decreases |s|
  {
    var w := Words(s)[j];
    if !IsWordChar(s[0]) {
      WordsAreMaximalRuns(s[1..], j);
      var i: nat :| MaximalRunAt(s[1..], w, i);
      MaximalRunShift(s, 1, w, i);
    } else {
      var n := RunLen(s, IsWordChar);
      if j == 0 {
        assert MaximalRunAt(s, w, 0);
      } else {
        var rest := s[n..];
        assert Words(s)[j] == Words(rest)[j - 1];
        WordsAreMaximalRuns(rest, j - 1);
        var i: nat :| MaximalRunAt(rest, w, i);
        assert rest[i] == w[0];
        assert IsWordChar(rest[i]);
        MaximalRunShift(s, n, w, i);
      }
    }
  }

  /** The characters `[A-Z\.]`. */
  predicate IsCapitalOrDot(c: char)
  {
    IsAsciiUpper(c) || c == '.'
  }

  /** `c not in s`, stated position by position. */
  predicate Lacks(s: string, c: char)
  {
    forall k :: 0 <= k < |s| ==> s[k] != c
  }

  /** Length of a `(`, a non-empty run of characters satisfying `p` and a
      `)` at the start of `s` (the regex `\(P+\)` anchored there), or 0
      when the regex does not match there. */
  function GroupLen(s: string, p: char -> bool): (n: nat)
    requires !p(')')
    ensures n == 0 || (3 <= n <= |s| && s[0] == '(' && s[n - 1] == ')')
  {
    if s == [] || s[0] != '(' then 0
    else
      var d := RunLen(s[1..], p);
      if d >= 1 && d + 1 < |s| && s[d + 1] == ')' then d + 2 else 0
  }

  /** Everything between the parentheses of a match satisfies `p`. */
  lemma GroupLenInside(s: string, p: char -> bool)
    requires !p(')')
    ensures forall k :: 1 <= k < GroupLen(s, p) - 1 ==> p(s[k])
  {
    var n := GroupLen(s, p);
    if n > 0 {
      forall k | 1 <= k < n - 1 ensures p(s[k]) {
        assert s[1..][k - 1] == s[k];
      }
    }
  }

  /** `GroupLen` misses no match: when it finds none, every `(` ... `)` at
      the start of `s` holds a character that fails `p`. */
  lemma GroupLenComplete(s: string, p: char -> bool, m: nat)
    requires !p(')') && 2 <= m < |s| && s[0] == '(' && s[m] == ')'
    requires forall k :: 1 <= k < m ==> p(s[k])
    ensures GroupLen(s, p) == m + 1
  {
    var d := RunLen(s[1..], p);
    assert forall k :: 0 <= k < m - 1 ==> p(s[1..][k]) by {
      forall k | 0 <= k < m - 1 ensures p(s[1..][k]) {
        assert s[1..][k] == s[k + 1];
      }
    }
    assert s[1..][m - 1] == ')';
  }

  /** `re.findall(r'\(([A-Z\.]+)\)', s)`: the captured run of every match,
      left to right. */
  function ParenGroups(s: string): (r: seq<string>)
    ensures forall j :: 0 <= j < |r| ==> |r[j]| > 0 && forall k :: 0 <= k < |r[j]| ==> IsCapitalOrDot(r[j][k])
    decreases |s|
  {
    if s == [] then []
    else
      var n := GroupLen(s, IsCapitalOrDot);
      GroupLenInside(s, IsCapitalOrDot);
      if n > 0 then [s[1..n - 1]] + ParenGroups(s[n..]) else ParenGroups(s[1..])
  }

  /** An occurrence in a suffix is an occurrence in the whole string. */
  lemma OccursInSuffix(s: string, shift: nat, pat: string, i: nat)
    requires shift <= |s| && OccursAt(s[shift..], pat, i)
    ensures OccursAt(s, pat, i + shift)
  {
    forall k | 0 <= k < |pat| ensures s[i + shift + k] == pat[k] {
      assert s[i + shift + k] == s[shift..][i + k];
    }
  }

  /** A match at the start of `s` is an occurrence of its parenthesised run. */
  lemma GroupOccursAtStart(s: string, n: nat)
    requires 3 <= n <= |s| && s[0] == '(' && s[n - 1] == ')'
    ensures OccursAt(s, "(" + s[1..n - 1] + ")", 0)
  {
    var g := s[1..n - 1];
    var pat := "(" + g + ")";
    assert |pat| == n;
    forall k | 0 <= k < n ensures s[k] == pat[k] {
      if 0 < k < n - 1 {
        assert pat[k] == g[k - 1];
      }
    }
  }

  /** Every group is the inside of `(...)` somewhere in the string. */
  lemma {:induction false} ParenGroupsOccur(s: string, j: nat)
    requires j < |ParenGroups(s)|
    ensures exists i :: OccursAt(s, "(" + ParenGroups(s)[j] + ")", i)
    decreases |s|
  {
    var g := ParenGroups(s)[j];
    var n := GroupLen(s, IsCapitalOrDot);
    var shift := if n > 0 then n else 1;
    var rest := s[shift..];
    if n > 0 {
      assert ParenGroups(s) == [s[1..n - 1]] + ParenGroups(rest);
    } else {
      assert ParenGroups(s) == ParenGroups(rest);
    }
    if n > 0 && j == 0 {
      GroupOccursAtStart(s, n);
    } else {
      var j' := if n > 0 then j - 1 else j;
      assert g == ParenGroups(rest)[j'];
      ParenGroupsOccur(rest, j');
      var i: nat :| OccursAt(rest, "(" + g + ")", i);
      OccursInSuffix(s, shift, "(" + g + ")", i);
    }
  }

  /** The first position at or after `from` where `\(P+\)` matches. */
  function GroupFrom(s: string, p: char -> bool, from: nat): (r: Option<nat>)
    requires !p(')') && from <= |s|
    ensures r.Some? ==> from <= r.value <= |s| && GroupLen(s[r.value..], p) > 0
    ensures r.Some? ==> forall i :: from <= i < r.value ==> GroupLen(s[i..], p) == 0
    ensures r.None? ==> forall i :: from <= i <= |s| ==> GroupLen(s[i..], p) == 0
    decreases |s| - from
  {
    if GroupLen(s[from..], p) > 0 then Some(from)
    else if from == |s| then None
    else GroupFrom(s, p, from + 1)
  }

  /** `str.extract(r'\((P+)\)')`: the run inside the leftmost match, or
      nothing (`NaN`) when there is no match. */
  function ExtractGroup(s: string, p: char -> bool): (r: Option<string>)
    requires !p(')')
  {
    match GroupFrom(s, p, 0)
    case None => None
    case Some(i) => Some(s[i + 1..i + GroupLen(s[i..], p) - 1])
  }

  /** `re.sub(r'\s*\(P+\)', '', s)`: scanning left to right, a whitespace
      run followed by a group is removed; otherwise one character is kept. */
  function RemoveSpacedGroups(s: string, p: char -> bool): (r: string)
    requires !p(')')
    ensures |r| <= |s|
    decreases |s|
  {
    if s == [] then []
    else
      var w := LeadingSpaces(s);
      var n := GroupLen(s[w..], p);
      if n > 0 then RemoveSpacedGroups(s[w + n..], p) else [s[0]] + RemoveSpacedGroups(s[1..], p)
  }

  /** A string without `(` has nothing to remove. */
  lemma {:induction false} RemoveSpacedGroupsPlain(s: string, p: char -> bool)
    requires !p(')') && Lacks(s, '(')
    ensures RemoveSpacedGroups(s, p) == s
    decreases |s|
  {
    if s != [] {
      var w := LeadingSpaces(s);
      assert w < |s| ==> s[w..][0] == s[w];
      assert GroupLen(s[w..], p) == 0;
      RemoveSpacedGroupsPlain(s[1..], p);
    }
  }

  /** `x (d)`: the ` (d)` a name carries is removed and `x` is kept, when
      `x` has no `(` and does not end in whitespace. */
  lemma RemoveSpacedGroupsSuffix(x: string, d: string, p: char -> bool)
    requires !p(')') && Lacks(x, '(') && (x == [] || !IsSpace(x[|x| - 1]))
    requires |d| > 0 && forall k :: 0 <= k < |d| ==> p(d[k])
    ensures RemoveSpacedGroups(x + " (" + d + ")", p) == x
  {
    var g := "(" + d + ")";
    var t := [' '] + g;
    TaggedSplit(x, d);
    assert RemoveSpacedGroups(t, p) == [] by {
      Wrapped(d, p);
      RemoveSpacedGroupsId(g, p);
    }
    RemoveSpacedGroupsKeep(x, t, p);
    assert x + [] == x;
  }

  /** `x (d)` is `x` followed by a space and the group `(d)`. */
  lemma TaggedSplit(x: string, d: string)
    ensures x + " (" + d + ")" == x + ([' '] + ("(" + d + ")"))
  {
  }

  /** `(d)` for a non-empty run `d` of characters satisfying `p`. */
  lemma Wrapped(d: string, p: char -> bool)
    requires |d| > 0 && forall k :: 0 <= k < |d| ==> p(d[k])
    ensures var g := "(" + d + ")";
      && |g| == |d| + 2 && g[0] == '(' && g[|g| - 1] == ')'
      && g[1..|g| - 1] == d
      && forall k :: 1 <= k < |g| - 1 ==> p(g[k])
  {
    var g := "(" + d + ")";
    forall k | 1 <= k < |g| - 1 ensures p(g[k]) {
      assert g[k] == d[k - 1];
    }
  }

  /** A prefix with no `(` that does not end in whitespace is kept whole. */
  lemma {:induction false} RemoveSpacedGroupsKeep(x: string, t: string, p: char -> bool)
    requires !p(')') && Lacks(x, '(') && (x == [] || !IsSpace(x[|x| - 1]))
    ensures RemoveSpacedGroups(x + t, p) == x + RemoveSpacedGroups(t, p)
    decreases |x|
  {
    if x == [] {
      assert x + t == t;
    } else {
      RemoveSpacedGroupsKeep(x[1..], t, p);
      RemoveSpacedGroupsStep(x, t, p);
      ConsAppend(x, RemoveSpacedGroups(t, p), RemoveSpacedGroups(x[1..] + t, p), RemoveSpacedGroups(x + t, p));
    }
  }

  /** Putting the head back in front of a tail built from the rest of `x`. */
  lemma ConsAppend(x: string, r: string, b: string, c: string)
    requires x != [] && b == x[1..] + r && c == [x[0]] + b
    ensures c == x + r
  {
    assert x == [x[0]] + x[1..];
  }

  /** A group preceded by one space is removed whole. */
  lemma RemoveSpacedGroupsId(g: string, p: char -> bool)
    requires !p(')') && |g| >= 3 && g[0] == '(' && g[|g| - 1] == ')'
    requires forall k :: 1 <= k < |g| - 1 ==> p(g[k])
    ensures RemoveSpacedGroups([' '] + g, p) == []
  {
    var s := [' '] + g;
    assert LeadingSpaces(s) == 1 by {
      assert s[1] == '(';
      LeadingSpacesUnique(s, 1);
    }
    assert GroupLen(g, p) == |g| by {
      GroupLenComplete(g, p, |g| - 1);
    }
    assert s[1..] == g;
    assert s[|s|..] == [];
  }

  /** Before the end of a prefix that has no `(` and does not end in
      whitespace, the scanner keeps one character at a time. */
  lemma RemoveSpacedGroupsStep(x: string, t: string, p: char -> bool)
    requires !p(')') && x != [] && Lacks(x, '(') && !IsSpace(x[|x| - 1])
    ensures RemoveSpacedGroups(x + t, p) == [x[0]] + RemoveSpacedGroups(x[1..] + t, p)
  {
    var s := x + t;
    var w := LeadingSpaces(s);
    assert s[|x| - 1] == x[|x| - 1];
    assert w < |x|;
    assert s[w] == x[w];
    assert s[w..][0] == s[w];
    assert GroupLen(s[w..], p) == 0;
    assert s[1..] == x[1..] + t;
  }


  /** Length of the run at the end of `s` whose characters satisfy `p`. */
  function TrailRun(s: string, p: char -> bool): (n: nat)
    ensures n <= |s|
    ensures forall k :: |s| - n <= k < |s| ==> p(s[k])
    ensures n < |s| ==> !p(s[|s| - n - 1])
  {
    if s == [] || !p(s[|s| - 1]) then 0 else 1 + TrailRun(s[..|s| - 1], p)
  }

  /** The end of the text that `$` may stand before: the end of the string,
      or just before a final newline. */
  function LineEnd(s: string): (e: nat)
    ensures e <= |s|
  {
    if |s| > 0 && s[|s| - 1] == '\n' then |s| - 1 else |s|
  }

  /** Where the only match of `\s*\(P+\)$` starts: the whitespace run before
      a group that ends at `LineEnd(s)`. */
  function TrailingGroupStart(s: string, p: char -> bool): (r: Option<nat>)
    requires !p(')') && !p('(')
    ensures r.Some? ==> r.value < LineEnd(s)
  {
    var e := LineEnd(s);
    if e < 3 || s[e - 1] != ')' then None
    else
      var d := TrailRun(s[..e - 1], p);
      if d == 0 || d + 2 > e || s[e - 2 - d] != '(' then None
      else
        var g := e - 2 - d;
        Some(g - TrailingSpaces(s[..g]))
  }

  /** `re.sub(r'\s*\(P+\)$', '', s).strip()`. */
  function StripTrailingGroup(s: string, p: char -> bool): string
    requires !p(')') && !p('(')
  {
    match TrailingGroupStart(s, p)
    case None => Strip(s)
    case Some(i) => Strip(s[..i] + s[LineEnd(s)..])
  }

  /** A name written `x (d)`, with `x` stripped and free of `(`, gives back
      both `d` as its extracted group and `x` as its name. */
  lemma GroupRoundTrip(x: string, d: string, p: char -> bool)
    requires !p(')') && !p('(') && Lacks(x, '(') && Strip(x) == x
    requires |d| > 0 && forall k :: 0 <= k < |d| ==> p(d[k])
    ensures ExtractGroup(x + " (" + d + ")", p) == Some(d)
    ensures StripTrailingGroup(x + " (" + d + ")", p) == x
  {
    ExtractRoundTrip(x, d, p);
    StripRoundTrip(x, d, p);
  }

  lemma ExtractRoundTrip(x: string, d: string, p: char -> bool)
    requires !p(')') && !p('(') && Lacks(x, '(')
    requires |d| > 0 && forall k :: 0 <= k < |d| ==> p(d[k])
    ensures ExtractGroup(x + " (" + d + ")", p) == Some(d)
  {
    var s := x + " (" + d + ")";
    var g := |x| + 1;
    assert s[g..] == "(" + d + ")";
    assert GroupLen(s[g..], p) == |d| + 2 by {
      var t := s[g..];
      assert t[0] == '(' && t[|t| - 1] == ')';
      assert forall k :: 1 <= k < |t| - 1 ==> t[k] == d[k - 1];
    }
    forall i | 0 <= i < g ensures GroupLen(s[i..], p) == 0 {
      assert s[i..][0] == s[i];
      if i < |x| {
        assert s[i] == x[i];
      }
    }
    var r := GroupFrom(s, p, 0);
    assert r == Some(g);
    assert s[g + 1..g + |d| + 1] == d;
  }

  lemma StripRoundTrip(x: string, d: string, p: char -> bool)
    requires !p(')') && !p('(') && Strip(x) == x
    requires |d| > 0 && forall k :: 0 <= k < |d| ==> p(d[k])
    ensures StripTrailingGroup(x + " (" + d + ")", p) == x
  {
    var s := x + " (" + d + ")";
    var e := |s|;
    assert LineEnd(s) == e;
    var body := s[..e - 1];
    assert body == x + " (" + d;
    assert TrailRun(body, p) == |d| by {
      TrailRunUnique(body, p, |d|);
    }
    var g := e - 2 - |d|;
    assert g == |x| + 1 && s[g] == '(';
    assert s[..g] == x + " ";
    assert TrailingSpaces(x + " ") == 1 by {
      if x != [] {
        StripTrimmed(x);
      }
      TrailingSpacesUnique(x + " ", 1);
    }
    assert TrailingGroupStart(s, p) == Some(|x|);
    assert s[..|x|] + s[e..] == x;
  }

  /** The trailing run is the one that starts after the last character
      failing `p`. */
  lemma TrailRunUnique(s: string, p: char -> bool, m: nat)
    requires m <= |s|
    requires forall k :: |s| - m <= k < |s| ==> p(s[k])
    requires m < |s| ==> !p(s[|s| - m - 1])
    ensures TrailRun(s, p) == m
  {
  }
}
