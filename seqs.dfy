/** Sequence helpers shared by every table operation of the pipeline: optional
    values (pandas' missing join results), first-occurrence lookup and the
    order-preserving de-duplication behind `unique()` and `drop_duplicates()`. */
module Seqs {

  datatype Option<T> = None | Some(value: T)

  /** No element occurs twice. */
  predicate NoDups<T(==)>(xs: seq<T>)
  {
    forall i, j :: 0 <= i < j < |xs| ==> xs[i] != xs[j]
  }

  /** Position of the first occurrence of `x`, as a left merge on a column
      with unique values finds it. */
  function IndexOf<T(==)>(xs: seq<T>, x: T): (r: Option<nat>)
    ensures r.None? <==> x !in xs
    ensures r.Some? ==> r.value < |xs| && xs[r.value] == x
    ensures r.Some? ==> forall i :: 0 <= i < r.value ==> xs[i] != x
  {
    if |xs| == 0 then None
    else if xs[0] == x then Some(0)
    else
      match IndexOf(xs[1..], x)
      case None => None
      case Some(k) => Some(k + 1)
  }

  /** In a sequence without duplicates the first occurrence is the only one. */
  lemma IndexOfUnique<T>(xs: seq<T>, k: nat)
    requires NoDups(xs) && k < |xs|
    ensures IndexOf(xs, xs[k]) == Some(k)
  {
  }

  /** A value found in a prefix keeps its position when the sequence grows. */
  lemma IndexOfPrefix<T>(ys: seq<T>, zs: seq<T>, x: T)
    requires x in ys
    ensures IndexOf(ys + zs, x) == IndexOf(ys, x)
  {
    var k := IndexOf(ys, x).value;
    assert (ys + zs)[k] == x;
  }

  /** Order-preserving de-duplication: the first occurrence of every value,
      in the order the values are first seen (`Series.unique()`,
      `drop_duplicates(keep='first')`). */
  function Distinct<T(==)>(xs: seq<T>): (r: seq<T>)
    ensures NoDups(r)
    ensures forall i :: 0 <= i < |r| ==> r[i] in xs
    ensures forall i :: 0 <= i < |xs| ==> xs[i] in r
    ensures |r| <= |xs|
  {
    if xs == [] then []
    else
      var init := Distinct(xs[..|xs| - 1]);
      assert xs == xs[..|xs| - 1] + [xs[|xs| - 1]];
      if xs[|xs| - 1] in init then init else init + [xs[|xs| - 1]]
  }

  /** Values in `Distinct(xs)` appear in the order of their first occurrence in `xs`. */
  lemma {:induction false} DistinctFirstSeen<T>(xs: seq<T>, i: nat, j: nat)
    requires i < j < |Distinct(xs)|
    ensures Distinct(xs)[i] in xs && Distinct(xs)[j] in xs
    ensures IndexOf(xs, Distinct(xs)[i]).value < IndexOf(xs, Distinct(xs)[j]).value
  {
    var front := xs[..|xs| - 1];
    var last := xs[|xs| - 1];
    var init := Distinct(front);
    assert xs == front + [last];
    var r := Distinct(xs);
    assert r[i] in xs && r[j] in xs;
    if last in init {
      assert r == init;
      DistinctFirstSeen(front, i, j);
      IndexOfPrefix(front, [last], r[i]);
      IndexOfPrefix(front, [last], r[j]);
    } else {
      assert r == init + [last];
      assert r[i] == init[i] && init[i] in front;
      IndexOfPrefix(front, [last], r[i]);
      if j < |init| {
        assert r[j] == init[j];
        DistinctFirstSeen(front, i, j);
        IndexOfPrefix(front, [last], r[j]);
      } else {
        assert r[j] == last && last !in front;
        assert IndexOf(xs, last).value == |xs| - 1 by {
          assert forall p :: 0 <= p < |xs| - 1 ==> xs[p] == front[p];
        }
      }
    }
  }

  /** De-duplication of a sequence grown by one element. */
  lemma DistinctSnoc<T>(xs: seq<T>, x: T)
    ensures Distinct(xs + [x]) == if x in Distinct(xs) then Distinct(xs) else Distinct(xs) + [x]
  {
    assert (xs + [x])[..|xs + [x]| - 1] == xs;
  }

  /** De-duplicating a prefix-extended sequence extends the de-duplicated
      prefix: the values of `ys` keep their positions. */
  lemma {:induction false} DistinctPrefix<T>(ys: seq<T>, zs: seq<T>)
    ensures |Distinct(ys)| <= |Distinct(ys + zs)|
    ensures forall i :: 0 <= i < |Distinct(ys)| ==> Distinct(ys + zs)[i] == Distinct(ys)[i]
    decreases |zs|
  {
    if zs == [] {
      assert ys + zs == ys;
      assert Distinct(ys + zs) == Distinct(ys);
    } else {
      var front, last := zs[..|zs| - 1], zs[|zs| - 1];
      DistinctPrefix(ys, front);
      assert ys + zs == (ys + front) + [last];
      DistinctSnoc(ys + front, last);
      var a := Distinct(ys + front);
      assert Distinct(ys + zs) == Distinct((ys + front) + [last]);
      assert forall i :: 0 <= i < |a| ==> Distinct(ys + zs)[i] == a[i];
    }
  }

  /** The values of `ys` come first: a value of `ys` is preceded in
      `Distinct(ys + zs)` only by values of `ys`. */
  lemma DistinctPrefixFirst<T>(ys: seq<T>, zs: seq<T>, m: nat, k: nat)
    requires m < k < |Distinct(ys + zs)| && Distinct(ys + zs)[k] in ys
    ensures Distinct(ys + zs)[m] in ys
  {
    var all, front := Distinct(ys + zs), Distinct(ys);
    DistinctPrefix(ys, zs);
    var k' :| 0 <= k' < |front| && front[k'] == all[k];
    assert all[k'] == all[k];
    assert front[m] in ys;
  }

  /** Without duplicates, de-duplication changes nothing. */
  lemma {:induction false} DistinctOfNoDups<T>(xs: seq<T>)
    requires NoDups(xs)
    ensures Distinct(xs) == xs
  {
    if xs != [] {
      var front := xs[..|xs| - 1];
      assert NoDups(front);
      DistinctOfNoDups(front);
      assert xs[|xs| - 1] !in front;
      assert xs == front + [xs[|xs| - 1]];
    }
  }

  /** De-duplication keeps the length exactly when there was nothing to remove
      (`df.duplicated().sum() == 0`). */
  lemma {:induction false} DistinctSameLength<T>(xs: seq<T>)
    requires |Distinct(xs)| == |xs|
    ensures Distinct(xs) == xs
  {
    if xs != [] {
      var front, last := xs[..|xs| - 1], xs[|xs| - 1];
      assert xs == front + [last];
      if last !in Distinct(front) {
        DistinctSameLength(front);
      }
    }
  }

  /** The key of every element, in order. */
  function Keys<T, K>(xs: seq<T>, key: T -> K): (ks: seq<K>)
    ensures |ks| == |xs| && forall i :: 0 <= i < |xs| ==> ks[i] == key(xs[i])
  {
    seq(|xs|, i requires 0 <= i < |xs| => key(xs[i]))
  }

  /** `drop_duplicates(subset=[key])`: the first element for every key, in
      the order the keys are first seen. */
  function DistinctBy<T, K(==)>(xs: seq<T>, key: T -> K): (r: seq<T>)
    ensures forall i :: 0 <= i < |r| ==> r[i] in xs
    ensures forall i, j :: 0 <= i < j < |r| ==> key(r[i]) != key(r[j])
    ensures |r| <= |xs|
  {
    var ks := Keys(xs, key);
    var dk := Distinct(ks);
    var r := seq(|dk|, j requires 0 <= j < |dk| => xs[IndexOf(ks, dk[j]).value]);
    assert forall j :: 0 <= j < |r| ==> key(r[j]) == dk[j];
    r
  }

  /** Every key of `xs` is the key of some kept element, and the first
      element with a given key is kept. */
  lemma DistinctByCovers<T, K>(xs: seq<T>, key: T -> K, p: nat)
    requires p < |xs|
    ensures exists i :: 0 <= i < |DistinctBy(xs, key)| && key(DistinctBy(xs, key)[i]) == key(xs[p])
    ensures (forall q :: 0 <= q < p ==> key(xs[q]) != key(xs[p])) ==> xs[p] in DistinctBy(xs, key)
  {
    var ks := Keys(xs, key);
    var dk := Distinct(ks);
    var r := DistinctBy(xs, key);
    assert ks[p] in dk;
    var i := IndexOf(dk, ks[p]).value;
    assert key(r[i]) == key(xs[p]);
    if forall q :: 0 <= q < p ==> key(xs[q]) != key(xs[p]) {
      assert IndexOf(ks, dk[i]) == Some(p);
      assert r[i] == xs[p];
    }
  }

  /** Each kept element is the first element of `xs` with its key. */
  lemma DistinctByFirst<T, K>(xs: seq<T>, key: T -> K, i: nat)
    requires i < |DistinctBy(xs, key)|
    ensures exists p :: (0 <= p < |xs| && xs[p] == DistinctBy(xs, key)[i]
      && forall q :: 0 <= q < p ==> key(xs[q]) != key(xs[p]))
  {
    var ks := Keys(xs, key);
    var dk := Distinct(ks);
    var p := IndexOf(ks, dk[i]).value;
    assert forall q :: 0 <= q < p ==> ks[q] != ks[p];
  }

  /** The elements that satisfy `p`, in order (a boolean-mask selection). */
  function Filter<T(==)>(xs: seq<T>, p: T -> bool): (r: seq<T>)
    ensures |r| <= |xs|
    ensures forall i :: 0 <= i < |r| ==> r[i] in xs && p(r[i])
    ensures forall i :: 0 <= i < |xs| && p(xs[i]) ==> xs[i] in r
  {
    if xs == [] then []
    else (if p(xs[0]) then [xs[0]] else []) + Filter(xs[1..], p)
  }

  /** No two elements of `xs` share a key. */
  ghost predicate KeysDistinct<T, K>(xs: seq<T>, key: T -> K)
  {
    forall i, j :: 0 <= i < j < |xs| ==> key(xs[i]) != key(xs[j])
  }

  /** Selecting elements keeps keys apart that were apart. */
  lemma {:induction false} FilterKeysDistinct<T, K>(xs: seq<T>, p: T -> bool, key: T -> K)
    requires KeysDistinct(xs, key)
    ensures KeysDistinct(Filter(xs, p), key)
  {
    if xs != [] {
      var ys := xs[1..];
      var tail := Filter(ys, p);
      assert Filter(xs, p) == (if p(xs[0]) then [xs[0]] else []) + tail;
      assert KeysDistinct(ys, key) by {
        forall i, j | 0 <= i < j < |ys| ensures key(ys[i]) != key(ys[j]) {
          assert ys[i] == xs[i + 1] && ys[j] == xs[j + 1];
        }
      }
      FilterKeysDistinct(ys, p, key);
      if p(xs[0]) {
        forall j | 0 <= j < |ys| ensures key(ys[j]) != key(xs[0]) {
          assert ys[j] == xs[j + 1];
        }
        forall i | 0 <= i < |tail| ensures key(tail[i]) != key(xs[0]) {
          KeyOfMember(ys, tail[i], key, key(xs[0]));
        }
        KeysDistinctCons(xs[0], tail, key);
        assert Filter(xs, p) == [xs[0]] + tail;
      } else {
        assert Filter(xs, p) == tail;
      }
    }
  }

  /** A member of a sequence none of whose keys is `k` has a key other than `k`. */
  lemma KeyOfMember<T, K>(ys: seq<T>, x: T, key: T -> K, k: K)
    requires x in ys
    requires forall j :: 0 <= j < |ys| ==> key(ys[j]) != k
    ensures key(x) != k
  {
    assert ys[IndexOf(ys, x).value] == x;
  }

  /** Prepending an element whose key is new keeps the keys pairwise distinct. */
  lemma KeysDistinctCons<T, K>(h: T, tail: seq<T>, key: T -> K)
    requires KeysDistinct(tail, key)
    requires forall i :: 0 <= i < |tail| ==> key(tail[i]) != key(h)
    ensures KeysDistinct([h] + tail, key)
  {
    var r := [h] + tail;
    forall i, j | 0 <= i < j < |r| ensures key(r[i]) != key(r[j]) {
      assert r[j] == tail[j - 1];
      if i > 0 {
        assert r[i] == tail[i - 1];
      }
    }
  }

  lemma {:induction false} FilterNoDups<T>(xs: seq<T>, p: T -> bool)
    requires NoDups(xs)
    ensures NoDups(Filter(xs, p))
  {
    if xs != [] {
      FilterNoDups(xs[1..], p);
    }
  }
}
