/** The dimension-and-bridge shape every extractor of the pipeline produces.
    An extractor first explodes a multi-valued column into rows
    (record, value); the dimension is the distinct values in first-seen order
    (`unique()` or `drop_duplicates()`), each under a key; the bridge maps every
    exploded row back to the key of its value (`merge(how='left')` against the
    dimension). Keys are either the position (`reset_index()`) or an id drawn
    from a supply indexed by position (`uuid4()` per dimension row). */
module Dimension {
  import opened Seqs
  import opened Frames

  /** `df[df[field] != sentinel]`, then `df[field].str.split(...)`, `explode`
      and `dropna`: every string cell other than the sentinel contributes the
      pieces `split` gives it, each paired with the record's key, in order; a
      missing or numeric cell contributes nothing (`.str` makes it `NaN`). */
  function Explode<K>(keys: seq<K>, field: seq<Cell>, sentinel: string, split: string -> seq<string>): (r: seq<(K, string)>)
    requires |keys| == |field|
  {
    if field == [] then []
    else
      (if field[0].Str? && field[0].s != sentinel
       then seq(|split(field[0].s)|, k requires 0 <= k < |split(field[0].s)| => (keys[0], split(field[0].s)[k]))
       else [])
      + Explode(keys[1..], field[1..], sentinel, split)
  }

  /** An exploded row is exactly a piece of some kept record's field, paired
      with that record's key. */
  lemma {:induction false} ExplodeExact<K>(keys: seq<K>, field: seq<Cell>, sentinel: string, split: string -> seq<string>, e: K, v: string)
    requires |keys| == |field|
    ensures (e, v) in Explode(keys, field, sentinel, split) <==>
      exists i :: 0 <= i < |field| && keys[i] == e && field[i].Str? && field[i].s != sentinel && v in split(field[i].s)
  {
    if field != [] {
      ExplodeExact(keys[1..], field[1..], sentinel, split, e, v);
      var head := if field[0].Str? && field[0].s != sentinel
        then seq(|split(field[0].s)|, k requires 0 <= k < |split(field[0].s)| => (keys[0], split(field[0].s)[k]))
        else [];
      var tail := Explode(keys[1..], field[1..], sentinel, split);
      assert Explode(keys, field, sentinel, split) == head + tail;
      if (e, v) in head {
        var k := IndexOf(head, (e, v)).value;
        assert split(field[0].s)[k] == v;
      }
      if (e, v) in tail {
        var i :| 0 <= i < |field| - 1 && keys[1..][i] == e && field[1..][i].Str? && field[1..][i].s != sentinel && v in split(field[1..][i].s);
        assert keys[i + 1] == e && field[i + 1] == field[1..][i];
      }
      if exists i :: 0 <= i < |field| && keys[i] == e && field[i].Str? && field[i].s != sentinel && v in split(field[i].s) {
        var i :| 0 <= i < |field| && keys[i] == e && field[i].Str? && field[i].s != sentinel && v in split(field[i].s);
        if i == 0 {
          var k :| 0 <= k < |split(field[0].s)| && split(field[0].s)[k] == v;
          assert head[k] == (e, v);
        } else {
          assert keys[1..][i - 1] == e && field[1..][i - 1] == field[i];
        }
      }
    }
  }

  /** The value column of exploded rows. */
  function ValueColumn<R, V>(rows: seq<(R, V)>): (vs: seq<V>)
    ensures |vs| == |rows|
    ensures forall i :: 0 <= i < |rows| ==> vs[i] == rows[i].1
  {
    seq(|rows|, i requires 0 <= i < |rows| => rows[i].1)
  }

  /** The value column of concatenated rows is the concatenation. */
  lemma ValueColumnAppend<R, V>(a: seq<(R, V)>, b: seq<(R, V)>)
    ensures ValueColumn(a + b) == ValueColumn(a) + ValueColumn(b)
  {
    assert forall i :: 0 <= i < |a + b| ==> ValueColumn(a + b)[i] == (ValueColumn(a) + ValueColumn(b))[i];
  }

  /** The dimension's value column: the distinct values, in first-seen order. */
  function Values<R, V(==)>(rows: seq<(R, V)>): seq<V>
  {
    Distinct(ValueColumn(rows))
  }

  /** Every exploded row's value is in the dimension, and every dimension
      value comes from some exploded row. */
  lemma ValuesExact<R, V>(rows: seq<(R, V)>, v: V)
    ensures v in Values(rows) <==> exists i :: 0 <= i < |rows| && rows[i].1 == v
  {
    var col := ValueColumn(rows);
    if v in Values(rows) {
      var i := IndexOf(col, v).value;
      assert rows[i].1 == v;
    }
    if exists i :: 0 <= i < |rows| && rows[i].1 == v {
      var i :| 0 <= i < |rows| && rows[i].1 == v;
      assert col[i] == v;
    }
  }

  /** The same, stated on whole rows. */
  lemma ValuesPairs<R, V>(rows: seq<(R, V)>, v: V)
    ensures v in Values(rows) <==> exists r :: (r, v) in rows
  {
    ValuesExact(rows, v);
    if exists r :: (r, v) in rows {
      var r :| (r, v) in rows;
      var i := IndexOf(rows, (r, v)).value;
      assert rows[i].1 == v;
    }
  }

  /** The numbered dimension holds each value once, and exactly the values
      of the exploded rows. */
  lemma NumberedValuesExact<R, V>(rows: seq<(R, V)>, d: seq<(nat, V)>, v: V)
    requires d == Numbered(Values(rows))
    ensures forall i, j :: 0 <= i < j < |d| ==> d[i].1 != d[j].1
    ensures (exists k :: 0 <= k < |d| && d[k].1 == v) <==> exists r :: (r, v) in rows
  {
    var vals := Values(rows);
    ValuesPairs(rows, v);
    if v in vals {
      var k := IndexOf(vals, v).value;
      assert d[k].1 == v;
    }
  }

  /** The left merge of exploded rows against a dimension with unique values:
      each row gets the position of its value. */
  function Link<R, V(==)>(rows: seq<(R, V)>, values: seq<V>): (r: seq<(R, nat)>)
    requires forall i :: 0 <= i < |rows| ==> rows[i].1 in values
    ensures |r| == |rows|
    ensures forall i :: 0 <= i < |r| ==>
      r[i].0 == rows[i].0 && r[i].1 < |values| && values[r[i].1] == rows[i].1
  {
    seq(|rows|, i requires 0 <= i < |rows| => (rows[i].0, IndexOf(values, rows[i].1).value))
  }

  /** Against a dimension without repeated values, a record is linked to a
      position exactly when one of its exploded rows holds the value there. */
  lemma LinkExact<R, V>(rows: seq<(R, V)>, values: seq<V>, r: R, k: nat)
    requires NoDups(values)
    requires forall i :: 0 <= i < |rows| ==> rows[i].1 in values
    ensures (r, k) in Link(rows, values) <==> k < |values| && (r, values[k]) in rows
  {
    var l := Link(rows, values);
    if (r, k) in l {
      var i := IndexOf(l, (r, k)).value;
      assert rows[i] == (r, values[k]);
    }
    if k < |values| && (r, values[k]) in rows {
      var i := IndexOf(rows, (r, values[k])).value;
      IndexOfUnique(values, k);
      assert l[i] == (r, k);
    }
  }

  /** The exploded rows linked to the dimension built from them. */
  function SelfLink<R, V(==)>(rows: seq<(R, V)>): seq<(R, nat)>
  {
    var col := ValueColumn(rows);
    assert forall i :: 0 <= i < |rows| ==> rows[i].1 == col[i];
    Link(rows, Values(rows))
  }

  /** The bridge with keys `key(position)`, de-duplicated (`drop_duplicates()`). */
  function KeyedBridge<R(==), V(==), K(==)>(rows: seq<(R, V)>, key: nat -> K): seq<(R, K)>
  {
    var l := SelfLink(rows);
    Distinct(seq(|l|, i requires 0 <= i < |l| => (l[i].0, key(l[i].1))))
  }

  /** `key` never gives two positions the same key (fresh `uuid4()` values, or
      the position itself). */
  ghost predicate Injective<K>(key: nat -> K)
  {
    forall i: nat, j: nat :: key(i) == key(j) ==> i == j
  }

  /** The undeduplicated bridge links a record to a dimension position
      exactly when one of the record's exploded rows holds the value there. */
  lemma SelfLinkExact<R, V>(rows: seq<(R, V)>, r: R, k: nat)
    ensures (r, k) in SelfLink(rows) <==> k < |Values(rows)| && (r, Values(rows)[k]) in rows
  {
    var l := SelfLink(rows);
    var vals := Values(rows);
    if (r, k) in l {
      var i := IndexOf(l, (r, k)).value;
      assert rows[i] == (r, vals[k]);
    }
    if k < |vals| && (r, vals[k]) in rows {
      var i := IndexOf(rows, (r, vals[k])).value;
      IndexOfUnique(vals, k);
      assert l[i] == (r, k);
    }
  }

  /** The bridge links a record to the key of a dimension value exactly when
      one of the record's exploded rows holds that value. */
  lemma KeyedBridgeExact<R, V, K>(rows: seq<(R, V)>, key: nat -> K, r: R, k: nat)
    requires Injective(key)
    ensures (r, key(k)) in KeyedBridge(rows, key) <==> k < |Values(rows)| && (r, Values(rows)[k]) in rows
  {
    var l := SelfLink(rows);
    var mapped := seq(|l|, i requires 0 <= i < |l| => (l[i].0, key(l[i].1)));
    var vals := Values(rows);
    if (r, key(k)) in KeyedBridge(rows, key) {
      var i := IndexOf(mapped, (r, key(k))).value;
      assert l[i].1 == k;
      assert rows[i] == (r, vals[k]);
    }
    if k < |vals| && (r, vals[k]) in rows {
      var i := IndexOf(rows, (r, vals[k])).value;
      IndexOfUnique(vals, k);
      assert mapped[i] == (r, key(k));
    }
  }

  /** Every key in the bridge is the key of some dimension value. */
  lemma KeyedBridgeClosed<R, V, K>(rows: seq<(R, V)>, key: nat -> K, i: nat)
    requires i < |KeyedBridge(rows, key)|
    ensures exists k :: 0 <= k < |Values(rows)| && KeyedBridge(rows, key)[i].1 == key(k)
  {
    var l := SelfLink(rows);
    var mapped := seq(|l|, j requires 0 <= j < |l| => (l[j].0, key(l[j].1)));
    var p := KeyedBridge(rows, key)[i];
    var j := IndexOf(mapped, p).value;
    assert p.1 == key(l[j].1);
  }

  /** Position keys: `reset_index()` after `unique()`. */
  function Position(k: nat): nat { k }

  lemma PositionInjective()
    ensures Injective(Position)
  {
  }

  /** `dropna()` on (record, key) rows after a left merge that may have found
      no key: the rows with both a record and a key. */
  function Complete<K(==)>(rows: seq<(Cell, Option<K>)>): (r: seq<(Cell, K)>)
    ensures forall i :: 0 <= i < |r| ==> r[i].0 != Null && (r[i].0, Some(r[i].1)) in rows
    ensures NoDups(rows) ==> NoDups(r)
  {
    if rows == [] then []
    else
      var tail := Complete(rows[1..]);
      if rows[0].0 != Null && rows[0].1.Some? then
        assert NoDups(rows) ==> (rows[0].0, rows[0].1.value) !in tail;
        [(rows[0].0, rows[0].1.value)] + tail
      else tail
  }

  /** Every row with a record and a key survives `dropna()`. */
  lemma {:induction false} CompleteKeeps<K>(rows: seq<(Cell, Option<K>)>, e: Cell, k: K)
    ensures (e, k) in Complete(rows) <==> e != Null && (e, Some(k)) in rows
  {
    if rows != [] {
      CompleteKeeps(rows[1..], e, k);
      assert (e, Some(k)) in rows <==> rows[0] == (e, Some(k)) || (e, Some(k)) in rows[1..];
    }
  }

  /** `str.split(...)`, `explode` and `dropna` with no sentinel filter: every
      string cell contributes its pieces, paired with the record's key. */
  function ExplodeAll<K>(keys: seq<K>, field: seq<Cell>, split: string -> seq<string>): (r: seq<(K, string)>)
    requires |keys| == |field|
  {
    if field == [] then []
    else
      (if field[0].Str?
       then seq(|split(field[0].s)|, k requires 0 <= k < |split(field[0].s)| => (keys[0], split(field[0].s)[k]))
       else [])
      + ExplodeAll(keys[1..], field[1..], split)
  }

  /** An exploded row is exactly a piece of some string cell, paired with
      that record's key. */
  lemma {:induction false} ExplodeAllExact<K>(keys: seq<K>, field: seq<Cell>, split: string -> seq<string>, e: K, v: string)
    requires |keys| == |field|
    ensures (e, v) in ExplodeAll(keys, field, split) <==>
      exists i :: 0 <= i < |field| && keys[i] == e && field[i].Str? && v in split(field[i].s)
  {
    if field != [] {
      ExplodeAllExact(keys[1..], field[1..], split, e, v);
      var head := if field[0].Str?
        then seq(|split(field[0].s)|, k requires 0 <= k < |split(field[0].s)| => (keys[0], split(field[0].s)[k]))
        else [];
      var tail := ExplodeAll(keys[1..], field[1..], split);
      assert ExplodeAll(keys, field, split) == head + tail;
      if (e, v) in head {
        var k := IndexOf(head, (e, v)).value;
        assert split(field[0].s)[k] == v;
      }
      if (e, v) in tail {
        var i :| 0 <= i < |field| - 1 && keys[1..][i] == e && field[1..][i].Str? && v in split(field[1..][i].s);
        assert keys[i + 1] == e && field[i + 1] == field[1..][i];
      }
      if exists i :: 0 <= i < |field| && keys[i] == e && field[i].Str? && v in split(field[i].s) {
        var i :| 0 <= i < |field| && keys[i] == e && field[i].Str? && v in split(field[i].s);
        if i == 0 {
          var k :| 0 <= k < |split(field[0].s)| && split(field[0].s)[k] == v;
          assert head[k] == (e, v);
        } else {
          assert keys[1..][i - 1] == e && field[1..][i - 1] == field[i];
        }
      }
    }
  }

  /** A dimension numbered by position (`reset_index()` renamed to the id
      label): row `k` is `(k, vals[k])`. */
  function Numbered<V>(vals: seq<V>): (d: seq<(nat, V)>)
    ensures |d| == |vals| && forall k :: 0 <= k < |vals| ==> d[k] == (k, vals[k])
  {
    seq(|vals|, k requires 0 <= k < |vals| => (k, vals[k]))
  }
}
