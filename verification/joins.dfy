/** `left.merge(right, on=keys, how='left', suffixes=(lsuf, rsuf))`: every
    left row in order, paired with each right row carrying the same key (in
    right order), or once with missing right cells when there is none. A
    missing key cell matches a missing key cell, as in pandas. */
module Joins {
  import opened Wrappers
  import opened Seqs
  import opened Tables

  /** Non-key columns present on both sides; they take the suffixes. */
  function Overlap(l: Table, r: Table, keys: seq<string>): set<string> {
    set c | c in l.columns && c in r.columns && c !in keys
  }

  /** The right table's columns that are not keys, in order. */
  function RightColumns(r: Table, keys: seq<string>): (rc: seq<string>)
    ensures forall c :: c in rc <==> c in r.columns && c !in keys
  {
    FilterIn(r.columns, set c | c in r.columns && c !in keys)
  }

  function Suffixed(cols: seq<string>, ov: set<string>, suffix: string): (ns: seq<string>)
    ensures |ns| == |cols|
    ensures forall j :: 0 <= j < |cols| ==> ns[j] == if cols[j] in ov then cols[j] + suffix else cols[j]
  {
    seq(|cols|, j requires 0 <= j < |cols| => if cols[j] in ov then cols[j] + suffix else cols[j])
  }

  /** The output column names: the left columns, then the right non-key
      columns, overlapping names suffixed. */
  function JoinNames(l: Table, r: Table, keys: seq<string>, lsuf: string, rsuf: string): (ns: seq<string>)
    ensures |ns| == |l.columns| + |RightColumns(r, keys)|
  {
    var ov := Overlap(l, r, keys);
    Suffixed(l.columns, ov, lsuf) + Suffixed(RightColumns(r, keys), ov, rsuf)
  }

  /** The cell a matched right row contributes, missing without a match. */
  function RightCell(right: Option<Row>, c: string): Value {
    match right
    case Some(m) => Get(m, c)
    case None => Null
  }

  function RightCells(right: Option<Row>, rc: seq<string>): (vs: seq<Value>)
    ensures |vs| == |rc|
    ensures forall j :: 0 <= j < |rc| ==> vs[j] == RightCell(right, rc[j])
  {
    seq(|rc|, j requires 0 <= j < |rc| => RightCell(right, rc[j]))
  }

  /** The left row's cells followed by the matching right row's non-key cells
      (missing when there is no match). */
  function JoinedRow(l: Table, r: Table, keys: seq<string>, names: seq<string>, left: Row, right: Option<Row>): Row
    requires |names| == |l.columns| + |RightColumns(r, keys)|
  {
    Assign(names, KeyOf(left, l.columns) + RightCells(right, RightColumns(r, keys)))
  }

  /** The output rows contributed by one left row. */
  function RowsFor(l: Table, r: Table, keys: seq<string>, names: seq<string>, left: Row): (out: seq<Row>)
    requires |names| == |l.columns| + |RightColumns(r, keys)|
    ensures |out| >= 1
  {
    var ms := Members(r.rows, keys, KeyOf(left, keys));
    if |ms| == 0 then [JoinedRow(l, r, keys, names, left, None)]
    else seq(|ms|, j requires 0 <= j < |ms| => JoinedRow(l, r, keys, names, left, Some(ms[j])))
  }

  function JoinRows(l: Table, r: Table, keys: seq<string>, names: seq<string>, lefts: seq<Row>): (out: seq<Row>)
    requires |names| == |l.columns| + |RightColumns(r, keys)|
    ensures |out| >= |lefts|
    decreases |lefts|
  {
    if |lefts| == 0 then [] else RowsFor(l, r, keys, names, lefts[0]) + JoinRows(l, r, keys, names, lefts[1..])
  }

  /** The merge goes through: every key column exists on both sides,
      overlapping columns get a suffix, and the suffixed names are distinct. */
  predicate Joinable(l: Table, r: Table, keys: seq<string>, lsuf: string, rsuf: string) {
    && (forall c :: c in keys ==> c in l.columns && c in r.columns)
    && (Overlap(l, r, keys) == {} || lsuf != "" || rsuf != "")
    && Distinct(JoinNames(l, r, keys, lsuf, rsuf))
  }

  /** The merge, or the error pandas raises: `KeyError` for a key column
      missing on either side, `ValueError` for overlapping columns with both
      suffixes empty, `MergeError` when the suffixes produce a repeated
      column name. */
  function LeftJoin(l: Table, r: Table, keys: seq<string>, lsuf: string, rsuf: string): (res: Result<Table>)
    requires WellFormed(l) && WellFormed(r)
    ensures res.Success? <==> Joinable(l, r, keys, lsuf, rsuf)
    ensures res.Success? ==> WellFormed(res.value) && res.value.columns == JoinNames(l, r, keys, lsuf, rsuf)
    ensures res.Success? ==> |res.value.rows| >= |l.rows|
  {
    var names := JoinNames(l, r, keys, lsuf, rsuf);
    if exists c :: c in keys && (c !in l.columns || c !in r.columns) then
      Failure("KeyError: merge key missing")
    else if Overlap(l, r, keys) != {} && lsuf == "" && rsuf == "" then
      Failure("ValueError: columns overlap but no suffix specified")
    else if !Distinct(names) then
      Failure("MergeError: suffixes cause duplicate columns")
    else
      var rows := JoinRows(l, r, keys, names, l.rows);
      assert forall i :: 0 <= i < |rows| ==> rows[i].Keys == set c | c in names by {
        JoinRowsKeys(l, r, keys, names, l.rows);
      }
      Success(Table(names, rows))
  }

  lemma {:induction false} JoinRowsKeys(l: Table, r: Table, keys: seq<string>, names: seq<string>, lefts: seq<Row>)
    requires |names| == |l.columns| + |RightColumns(r, keys)|
    ensures forall i :: 0 <= i < |JoinRows(l, r, keys, names, lefts)| ==>
              JoinRows(l, r, keys, names, lefts)[i].Keys == set c | c in names
    decreases |lefts|
  {
    if |lefts| > 0 {
      JoinRowsKeys(l, r, keys, names, lefts[1..]);
    }
  }

  /** The right row matching key `k`, if any. */
  function MatchOf(r: Table, keys: seq<string>, k: seq<Value>): (m: Option<Row>)
    ensures m.Some? ==> m.value in r.rows && KeyOf(m.value, keys) == k
    ensures m.None? ==> forall j :: 0 <= j < |r.rows| ==> KeyOf(r.rows[j], keys) != k
  {
    var ms := Members(r.rows, keys, k);
    if |ms| == 0 then
      assert forall j :: 0 <= j < |r.rows| ==> r.rows[j] in r.rows;
      None
    else
      Some(ms[0])
  }

  /** With at most one right row per key, a left row yields one output row,
      joined with its match. */
  lemma RowsForUnique(l: Table, r: Table, keys: seq<string>, names: seq<string>, left: Row)
    requires |names| == |l.columns| + |RightColumns(r, keys)|
    requires UniqueKeys(r, keys)
    ensures RowsFor(l, r, keys, names, left) == [JoinedRow(l, r, keys, names, left, MatchOf(r, keys, KeyOf(left, keys)))]
  {
    var k := KeyOf(left, keys);
    var ms := Members(r.rows, keys, k);
    if |ms| > 0 {
      var m := ms[0];
      assert m in r.rows;
      var i :| 0 <= i < |r.rows| && r.rows[i] == m;
      assert RowKeys(r.rows, keys)[i] == k;
      MembersOfUnique(r.rows, keys, i);
    }
  }

  /** The rows of a left join against unique right keys, one per left row. */
  function JoinedRows(l: Table, r: Table, keys: seq<string>, names: seq<string>, lefts: seq<Row>): (out: seq<Row>)
    requires |names| == |l.columns| + |RightColumns(r, keys)|
    ensures |out| == |lefts|
    ensures forall i :: 0 <= i < |lefts| ==> out[i] == JoinedRow(l, r, keys, names, lefts[i], MatchOf(r, keys, KeyOf(lefts[i], keys)))
  {
    seq(|lefts|, i requires 0 <= i < |lefts| => JoinedRow(l, r, keys, names, lefts[i], MatchOf(r, keys, KeyOf(lefts[i], keys))))
  }

  lemma {:induction false} JoinRowsUnique(l: Table, r: Table, keys: seq<string>, names: seq<string>, lefts: seq<Row>)
    requires |names| == |l.columns| + |RightColumns(r, keys)|
    requires UniqueKeys(r, keys)
    ensures JoinRows(l, r, keys, names, lefts) == JoinedRows(l, r, keys, names, lefts)
    decreases |lefts|
  {
    if |lefts| > 0 {
      assert JoinRows(l, r, keys, names, lefts)
          == RowsFor(l, r, keys, names, lefts[0]) + JoinRows(l, r, keys, names, lefts[1..]);
      JoinRowsUnique(l, r, keys, names, lefts[1..]);
      RowsForUnique(l, r, keys, names, lefts[0]);
      JoinedRowsCons(l, r, keys, names, lefts);
    }
  }

  lemma JoinedRowsCons(l: Table, r: Table, keys: seq<string>, names: seq<string>, lefts: seq<Row>)
    requires |names| == |l.columns| + |RightColumns(r, keys)|
    requires |lefts| > 0
    ensures JoinedRows(l, r, keys, names, lefts)
         == [JoinedRow(l, r, keys, names, lefts[0], MatchOf(r, keys, KeyOf(lefts[0], keys)))] + JoinedRows(l, r, keys, names, lefts[1..])
  {
    var a := JoinedRows(l, r, keys, names, lefts);
    var b := JoinedRows(l, r, keys, names, lefts[1..]);
    var c := [JoinedRow(l, r, keys, names, lefts[0], MatchOf(r, keys, KeyOf(lefts[0], keys)))] + b;
    forall i | 0 <= i < |a| ensures a[i] == c[i] {
      if i > 0 {
        var x := lefts[i];
        assert lefts[1..][i - 1] == x;
        assert b[i - 1] == JoinedRow(l, r, keys, names, x, MatchOf(r, keys, KeyOf(x, keys)));
      }
    }
    assert |a| == |c|;
  }

  /** A successful merge is the joined rows under the joined names, and
      every key column exists on the left. */
  lemma LeftJoinRows(l: Table, r: Table, keys: seq<string>, lsuf: string, rsuf: string)
    requires WellFormed(l) && WellFormed(r)
    requires Joinable(l, r, keys, lsuf, rsuf)
    ensures LeftJoin(l, r, keys, lsuf, rsuf).value
         == Table(JoinNames(l, r, keys, lsuf, rsuf), JoinRows(l, r, keys, JoinNames(l, r, keys, lsuf, rsuf), l.rows))
    ensures Distinct(JoinNames(l, r, keys, lsuf, rsuf))
    ensures forall c :: c in keys ==> c in l.columns && c in r.columns
  {
  }

  /** The cells of a joined row: the left row's under the left names, the
      match's (or missing ones) under the right names. */
  lemma JoinedRowCells(l: Table, r: Table, keys: seq<string>, names: seq<string>, left: Row, right: Option<Row>)
    requires |names| == |l.columns| + |RightColumns(r, keys)|
    requires Distinct(names)
    ensures forall j :: 0 <= j < |l.columns| ==> JoinedRow(l, r, keys, names, left, right)[names[j]] == Get(left, l.columns[j])
    ensures forall j :: 0 <= j < |RightColumns(r, keys)| ==>
              JoinedRow(l, r, keys, names, left, right)[names[|l.columns| + j]] == RightCell(right, RightColumns(r, keys)[j])
  {
    var rc := RightColumns(r, keys);
    var vals := KeyOf(left, l.columns) + RightCells(right, rc);
    assert forall j :: 0 <= j < |l.columns| ==> vals[j] == Get(left, l.columns[j]);
    assert forall j :: 0 <= j < |rc| ==> vals[|l.columns| + j] == RightCell(right, rc[j]);
  }

  /** A left join against a table with unique keys keeps the left table's row
      count and order: row `i` holds left row `i`'s cells (under their
      possibly suffixed names) and the cells of the right row with the same
      key, or missing cells when no right row has it. */
  lemma LeftJoinUniqueRight(l: Table, r: Table, keys: seq<string>, lsuf: string, rsuf: string)
    requires WellFormed(l) && WellFormed(r)
    requires Joinable(l, r, keys, lsuf, rsuf)
    requires UniqueKeys(r, keys)
    ensures |LeftJoin(l, r, keys, lsuf, rsuf).value.rows| == |l.rows|
    ensures forall i, j :: 0 <= i < |l.rows| && 0 <= j < |l.columns| ==>
              LeftJoin(l, r, keys, lsuf, rsuf).value.rows[i][JoinNames(l, r, keys, lsuf, rsuf)[j]] == Get(l.rows[i], l.columns[j])
    ensures forall i, j :: 0 <= i < |l.rows| && 0 <= j < |RightColumns(r, keys)| ==>
              LeftJoin(l, r, keys, lsuf, rsuf).value.rows[i][JoinNames(l, r, keys, lsuf, rsuf)[|l.columns| + j]]
              == RightCell(MatchOf(r, keys, KeyOf(l.rows[i], keys)), RightColumns(r, keys)[j])
  {
    var names := JoinNames(l, r, keys, lsuf, rsuf);
    LeftJoinRows(l, r, keys, lsuf, rsuf);
    JoinRowsUnique(l, r, keys, names, l.rows);
    JoinedRowsCells(l, r, keys, names, l.rows);
  }

  /** The cells of every joined row, row for row. */
  lemma JoinedRowsCells(l: Table, r: Table, keys: seq<string>, names: seq<string>, lefts: seq<Row>)
    requires |names| == |l.columns| + |RightColumns(r, keys)|
    requires Distinct(names)
    ensures forall i, j :: 0 <= i < |lefts| && 0 <= j < |l.columns| ==>
              JoinedRows(l, r, keys, names, lefts)[i][names[j]] == Get(lefts[i], l.columns[j])
    ensures forall i, j :: 0 <= i < |lefts| && 0 <= j < |RightColumns(r, keys)| ==>
              JoinedRows(l, r, keys, names, lefts)[i][names[|l.columns| + j]]
              == RightCell(MatchOf(r, keys, KeyOf(lefts[i], keys)), RightColumns(r, keys)[j])
  {
    var out := JoinedRows(l, r, keys, names, lefts);
    forall i | 0 <= i < |lefts|
      ensures forall j :: 0 <= j < |l.columns| ==> out[i][names[j]] == Get(lefts[i], l.columns[j])
      ensures forall j :: 0 <= j < |RightColumns(r, keys)| ==>
                out[i][names[|l.columns| + j]] == RightCell(MatchOf(r, keys, KeyOf(lefts[i], keys)), RightColumns(r, keys)[j])
    {
      JoinedRowCells(l, r, keys, names, lefts[i], MatchOf(r, keys, KeyOf(lefts[i], keys)));
    }
  }

  /** A left column that keeps its name (a key, or absent on the right)
      keeps its cells row for row when the right keys are unique. */
  lemma LeftJoinKeepsColumn(l: Table, r: Table, keys: seq<string>, lsuf: string, rsuf: string, j: int)
    requires WellFormed(l) && WellFormed(r)
    requires Joinable(l, r, keys, lsuf, rsuf)
    requires UniqueKeys(r, keys)
    requires 0 <= j < |l.columns| && (l.columns[j] in keys || l.columns[j] !in r.columns)
    ensures |LeftJoin(l, r, keys, lsuf, rsuf).value.rows| == |l.rows|
    ensures forall i :: 0 <= i < |l.rows| ==>
              Get(LeftJoin(l, r, keys, lsuf, rsuf).value.rows[i], l.columns[j]) == Get(l.rows[i], l.columns[j])
  {
    var out := LeftJoin(l, r, keys, lsuf, rsuf).value;
    var names := JoinNames(l, r, keys, lsuf, rsuf);
    LeftJoinUniqueRight(l, r, keys, lsuf, rsuf);
    assert l.columns[j] !in Overlap(l, r, keys);
    assert names[j] == l.columns[j];
    assert names[j] in out.columns;
    forall i | 0 <= i < |l.rows| ensures Get(out.rows[i], names[j]) == Get(l.rows[i], l.columns[j]) {
      assert out.rows[i].Keys == ColumnSet(out);
    }
  }

  /** Key columns keep their names in a merge. */
  lemma JoinNamesKeepKeys(l: Table, r: Table, keys: seq<string>, lsuf: string, rsuf: string)
    ensures forall j :: 0 <= j < |l.columns| && l.columns[j] in keys ==> JoinNames(l, r, keys, lsuf, rsuf)[j] == l.columns[j]
  {
  }

  /** A joined row carries the left row's key. */
  lemma JoinedRowKey(l: Table, r: Table, keys: seq<string>, names: seq<string>, left: Row, right: Option<Row>)
    requires |names| == |l.columns| + |RightColumns(r, keys)|
    requires Distinct(names)
    requires forall c :: c in keys ==> c in l.columns
    requires forall j :: 0 <= j < |l.columns| && l.columns[j] in keys ==> names[j] == l.columns[j]
    ensures KeyOf(JoinedRow(l, r, keys, names, left, right), keys) == KeyOf(left, keys)
  {
    var row := JoinedRow(l, r, keys, names, left, right);
    JoinedRowCells(l, r, keys, names, left, right);
    forall q | 0 <= q < |keys| ensures Get(row, keys[q]) == Get(left, keys[q]) {
      var j := FirstIndex(l.columns, keys[q]);
      assert names[j] == l.columns[j];
      assert row[names[j]] == Get(left, l.columns[j]);
    }
  }

  /** The key columns of a left join hold the left rows' keys, row for row,
      when the right keys are unique. */
  lemma LeftJoinKeys(l: Table, r: Table, keys: seq<string>, lsuf: string, rsuf: string)
    requires WellFormed(l) && WellFormed(r)
    requires Joinable(l, r, keys, lsuf, rsuf)
    requires UniqueKeys(r, keys)
    ensures RowKeys(LeftJoin(l, r, keys, lsuf, rsuf).value.rows, keys) == RowKeys(l.rows, keys)
  {
    var names := JoinNames(l, r, keys, lsuf, rsuf);
    LeftJoinRows(l, r, keys, lsuf, rsuf);
    JoinNamesKeepKeys(l, r, keys, lsuf, rsuf);
    JoinRowsUnique(l, r, keys, names, l.rows);
    JoinedRowsKeys(l, r, keys, names, l.rows);
  }

  /** Joined rows carry their left rows' keys, row for row. */
  lemma JoinedRowsKeys(l: Table, r: Table, keys: seq<string>, names: seq<string>, lefts: seq<Row>)
    requires |names| == |l.columns| + |RightColumns(r, keys)|
    requires Distinct(names)
    requires forall c :: c in keys ==> c in l.columns
    requires forall j :: 0 <= j < |l.columns| && l.columns[j] in keys ==> names[j] == l.columns[j]
    ensures RowKeys(JoinedRows(l, r, keys, names, lefts), keys) == RowKeys(lefts, keys)
  {
    var out := JoinedRows(l, r, keys, names, lefts);
    forall i | 0 <= i < |lefts| ensures KeyOf(out[i], keys) == KeyOf(lefts[i], keys) {
      JoinedRowKey(l, r, keys, names, lefts[i], MatchOf(r, keys, KeyOf(lefts[i], keys)));
    }
  }

  /** Every left row yields its matches: the output is at least as long as
      the left rows with one of them expanded to its matches. */
  lemma {:induction false} JoinRowsExpand(l: Table, r: Table, keys: seq<string>, names: seq<string>, lefts: seq<Row>, i: int)
    requires |names| == |l.columns| + |RightColumns(r, keys)|
    requires 0 <= i < |lefts|
    ensures |JoinRows(l, r, keys, names, lefts)| >= |lefts| - 1 + |RowsFor(l, r, keys, names, lefts[i])|
    decreases |lefts|
  {
    if i > 0 {
      JoinRowsExpand(l, r, keys, names, lefts[1..], i - 1);
    }
  }

  /** A left row whose key two right rows carry is repeated: the merge has
      more rows than its left side. */
  lemma LeftJoinDuplicates(l: Table, r: Table, keys: seq<string>, lsuf: string, rsuf: string, i: int, a: int, b: int)
    requires WellFormed(l) && WellFormed(r)
    requires Joinable(l, r, keys, lsuf, rsuf)
    requires 0 <= i < |l.rows| && 0 <= a < b < |r.rows|
    requires KeyOf(r.rows[a], keys) == KeyOf(l.rows[i], keys) && KeyOf(r.rows[b], keys) == KeyOf(l.rows[i], keys)
    ensures |LeftJoin(l, r, keys, lsuf, rsuf).value.rows| > |l.rows|
  {
    var names := JoinNames(l, r, keys, lsuf, rsuf);
    LeftJoinRows(l, r, keys, lsuf, rsuf);
    var k := KeyOf(l.rows[i], keys);
    var keep := set x | x in r.rows && KeyOf(x, keys) == k;
    FilterInTwo(r.rows, keep, a, b);
    JoinRowsExpand(l, r, keys, names, l.rows, i);
  }
}
