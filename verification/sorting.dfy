/** `df.sort_values(keys)`: rows ordered lexicographically by their key cells,
    missing cells last (pandas' `na_position='last'`). */
module Sorting {
  import opened Tables

  /** Lexicographic order on strings by character code. */
  predicate TextLe(a: string, b: string)
    decreases |a|
  {
    if |a| == 0 then true
    else if |b| == 0 then false
    else if a[0] != b[0] then a[0] < b[0]
    else TextLe(a[1..], b[1..])
  }

  lemma {:induction false} TextLeTotal(a: string, b: string)
    ensures TextLe(a, b) || TextLe(b, a)
    decreases |a|
  {
    if |a| > 0 && |b| > 0 && a[0] == b[0] {
      TextLeTotal(a[1..], b[1..]);
    }
  }

  lemma {:induction false} TextLeTrans(a: string, b: string, c: string)
    requires TextLe(a, b) && TextLe(b, c)
    ensures TextLe(a, c)
    decreases |a|
  {
    if |a| > 0 && |b| > 0 && |c| > 0 && a[0] == b[0] && b[0] == c[0] {
      TextLeTrans(a[1..], b[1..], c[1..]);
    }
  }

  /** Values of different kinds are ordered by kind; missing values come
      last. */
  function Rank(v: Value): nat {
    match v
    case Num(_) => 0
    case Text(_) => 1
    case Day(_) => 2
    case Stamp(_) => 3
    case List(_) => 4
    case Dict(_) => 5
    case Null => 6
  }

  /** A total preorder on cells. */
  predicate ValueLe(a: Value, b: Value) {
    if Rank(a) != Rank(b) then Rank(a) < Rank(b)
    else match (a, b)
      case (Num(x), Num(y)) => x <= y
      case (Text(x), Text(y)) => TextLe(x, y)
      case (Day(x), Day(y)) => x <= y
      case (Stamp(x), Stamp(y)) => x <= y
      case _ => true
  }

  lemma ValueLeTotal(a: Value, b: Value)
    ensures ValueLe(a, b) || ValueLe(b, a)
  {
    if a.Text? && b.Text? {
      TextLeTotal(a.s, b.s);
    }
  }

  lemma ValueLeTrans(a: Value, b: Value, c: Value)
    requires ValueLe(a, b) && ValueLe(b, c)
    ensures ValueLe(a, c)
  {
    if a.Text? && b.Text? && c.Text? {
      TextLeTrans(a.s, b.s, c.s);
    }
  }

  /** Lexicographic extension of `ValueLe` to keys of equal length. */
  predicate KeyLe(a: seq<Value>, b: seq<Value>)
    requires |a| == |b|
    decreases |a|
  {
    if |a| == 0 then true
    else if !ValueLe(b[0], a[0]) then true
    else if !ValueLe(a[0], b[0]) then false
    else KeyLe(a[1..], b[1..])
  }

  lemma {:induction false} KeyLeTotal(a: seq<Value>, b: seq<Value>)
    requires |a| == |b|
    ensures KeyLe(a, b) || KeyLe(b, a)
    decreases |a|
  {
    if |a| > 0 {
      ValueLeTotal(a[0], b[0]);
      KeyLeTotal(a[1..], b[1..]);
    }
  }

  lemma {:induction false} KeyLeTrans(a: seq<Value>, b: seq<Value>, c: seq<Value>)
    requires |a| == |b| == |c|
    requires KeyLe(a, b) && KeyLe(b, c)
    ensures KeyLe(a, c)
    decreases |a|
  {
    if |a| > 0 {
      ValueLeTotal(a[0], b[0]);
      ValueLeTotal(b[0], c[0]);
      ValueLeTotal(a[0], c[0]);
      if ValueLe(a[0], b[0]) && ValueLe(b[0], c[0]) {
        ValueLeTrans(a[0], b[0], c[0]);
      }
      if ValueLe(c[0], a[0]) && ValueLe(a[0], b[0]) {
        ValueLeTrans(c[0], a[0], b[0]);
      }
      if ValueLe(b[0], c[0]) && ValueLe(c[0], a[0]) {
        ValueLeTrans(b[0], c[0], a[0]);
      }
      if ValueLe(b[0], a[0]) && ValueLe(a[0], b[0]) && ValueLe(c[0], b[0]) && ValueLe(b[0], c[0]) {
        KeyLeTrans(a[1..], b[1..], c[1..]);
      }
    }
  }

  predicate RowLe(x: Row, y: Row, keys: seq<string>) {
    KeyLe(KeyOf(x, keys), KeyOf(y, keys))
  }

  /** Every earlier row is at most every later row. */
  ghost predicate Sorted(rows: seq<Row>, keys: seq<string>) {
    forall i, j :: 0 <= i < j < |rows| ==> RowLe(rows[i], rows[j], keys)
  }

  /** A row at most every row of a sorted sequence can lead it. */
  lemma SortedCons(x: Row, rows: seq<Row>, keys: seq<string>)
    requires Sorted(rows, keys)
    requires forall j :: 0 <= j < |rows| ==> RowLe(x, rows[j], keys)
    ensures Sorted([x] + rows, keys)
  {
    var r := [x] + rows;
    forall i, j | 0 <= i < j < |r| ensures RowLe(r[i], r[j], keys) {
      if i > 0 {
        assert r[i] == rows[i - 1] && r[j] == rows[j - 1];
      } else {
        assert r[j] == rows[j - 1];
      }
    }
  }

  /** A row at most the head of a sorted sequence is at most all of it. */
  lemma BelowHead(x: Row, rows: seq<Row>, keys: seq<string>)
    requires Sorted(rows, keys) && |rows| > 0 && RowLe(x, rows[0], keys)
    ensures forall j :: 0 <= j < |rows| ==> RowLe(x, rows[j], keys)
  {
    forall j | 0 < j < |rows| ensures RowLe(x, rows[j], keys) {
      KeyLeTrans(KeyOf(x, keys), KeyOf(rows[0], keys), KeyOf(rows[j], keys));
    }
  }

  /** The head of a sorted sequence is at most every row of a permutation of
      its tail with a row not below the head added. */
  lemma HeadBelowAll(x: Row, rows: seq<Row>, tail: seq<Row>, keys: seq<string>)
    requires Sorted(rows, keys) && |rows| > 0 && RowLe(rows[0], x, keys)
    requires multiset(tail) == multiset(rows[1..]) + multiset{x}
    ensures forall j :: 0 <= j < |tail| ==> RowLe(rows[0], tail[j], keys)
  {
    forall j | 0 <= j < |tail| ensures RowLe(rows[0], tail[j], keys) {
      assert tail[j] in multiset(tail);
      if tail[j] != x {
        assert tail[j] in multiset(rows[1..]);
        var k :| 0 <= k < |rows[1..]| && rows[1..][k] == tail[j];
        assert rows[k + 1] == tail[j];
      }
    }
  }

  /** Places `x` before the first row it does not exceed. */
  function Insert(x: Row, rows: seq<Row>, keys: seq<string>): (r: seq<Row>)
    requires Sorted(rows, keys)
    ensures Sorted(r, keys)
    ensures multiset(r) == multiset(rows) + multiset{x}
    decreases |rows|
  {
    if |rows| == 0 then [x]
    else if RowLe(x, rows[0], keys) then
      BelowHead(x, rows, keys);
      SortedCons(x, rows, keys);
      [x] + rows
    else
      KeyLeTotal(KeyOf(x, keys), KeyOf(rows[0], keys));
      assert Sorted(rows[1..], keys);
      var tail := Insert(x, rows[1..], keys);
      HeadBelowAll(x, rows, tail, keys);
      SortedCons(rows[0], tail, keys);
      assert rows == [rows[0]] + rows[1..];
      [rows[0]] + tail
  }

  /** Insertion sort: stable, missing keys last. */
  function SortRows(rows: seq<Row>, keys: seq<string>): (r: seq<Row>)
    ensures Sorted(r, keys)
    ensures multiset(r) == multiset(rows)
    decreases |rows|
  {
    if |rows| == 0 then []
    else
      assert rows == [rows[0]] + rows[1..];
      Insert(rows[0], SortRows(rows[1..], keys), keys)
  }

  /** `df.sort_values(keys)`: the same columns and the same rows, reordered so
      that the keys ascend. */
  function SortValues(t: Table, keys: seq<string>): (r: Table)
    requires WellFormed(t)
    ensures WellFormed(r)
    ensures r.columns == t.columns
    ensures Sorted(r.rows, keys)
    ensures multiset(r.rows) == multiset(t.rows)
  {
    var rows := SortRows(t.rows, keys);
    assert forall i :: 0 <= i < |rows| ==> rows[i] in multiset(t.rows);
    Table(t.columns, rows)
  }
}
