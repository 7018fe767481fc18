/** The tabular data model standing in for pandas data frames: a table is an
    ordered list of distinct column names and a sequence of rows, each row a
    map from column name to a cell value. A missing value (pandas' NaN, NaT or
    None) is `Null`. */
module Tables {
  import opened Wrappers
  import opened Seqs
  import opened Dates

  /** One cell. `Day` is a calendar date as a day number, `Stamp` a date-time
      as seconds since the same epoch; `List` and `Dict` are JSON arrays and
      objects as the hydrology API returns them (an object keeps its key order;
      a repeated key takes the last value, as a Python dict built from JSON
      does). */
  datatype Value =
    | Null
    | Num(n: real)
    | Text(s: string)
    | Day(d: int)
    | Stamp(t: int)
    | List(items: seq<Value>)
    | Dict(entries: seq<(string, Value)>)

  type Row = map<string, Value>

  datatype Table = Table(columns: seq<string>, rows: seq<Row>)

  /** A JSON object: key/value pairs in document order. */
  type Object = seq<(string, Value)>

  /** `pd.DataFrame()`: no columns, no rows. */
  const Empty: Table := Table([], [])

  function ColumnSet(t: Table): set<string> {
    set c | c in t.columns
  }

  /** Column names are distinct and every row has exactly the table's columns. */
  predicate WellFormed(t: Table) {
    && Distinct(t.columns)
    && forall i :: 0 <= i < |t.rows| ==> t.rows[i].Keys == ColumnSet(t)
  }

  /** Two rows read the same in every column, a missing cell as missing. */
  ghost predicate SameCells(x: Row, y: Row) {
    forall c :: Get(x, c) == Get(y, c)
  }

  /** pandas' `df.empty`: no rows or no columns. */
  predicate IsEmpty(t: Table) {
    |t.rows| == 0 || |t.columns| == 0
  }

  /** The cell of `r` in column `c`, missing when the row has no such column. */
  function Get(r: Row, c: string): Value {
    if c in r then r[c] else Null
  }

  /** The cells of a row at the given columns, in order: its key when they
      are the key columns. */
  function KeyOf(r: Row, keys: seq<string>): (k: seq<Value>)
    ensures |k| == |keys|
    ensures forall j :: 0 <= j < |keys| ==> k[j] == Get(r, keys[j])
  {
    seq(|keys|, j requires 0 <= j < |keys| => Get(r, keys[j]))
  }

  /** The key of a row on one column is that column's cell. */
  lemma KeyOfSingle(r: Row, c: string)
    ensures KeyOf(r, [c]) == [Get(r, c)]
  {
  }

  /** Rows that agree on every key column have the same key. */
  lemma KeyOfAgree(a: Row, b: Row, keys: seq<string>)
    requires forall j :: 0 <= j < |keys| ==> Get(a, keys[j]) == Get(b, keys[j])
    ensures KeyOf(a, keys) == KeyOf(b, keys)
  {
  }

  /** Row sequences that agree, row for row, on two columns have the same
      keys over that pair. */
  lemma RowKeysPair(a: seq<Row>, b: seq<Row>, c0: string, c1: string)
    requires |a| == |b|
    requires forall i :: 0 <= i < |a| ==> Get(a[i], c0) == Get(b[i], c0)
    requires forall i :: 0 <= i < |a| ==> Get(a[i], c1) == Get(b[i], c1)
    ensures RowKeys(a, [c0, c1]) == RowKeys(b, [c0, c1])
  {
    forall i | 0 <= i < |a| ensures KeyOf(a[i], [c0, c1]) == KeyOf(b[i], [c0, c1]) {
      KeyOfAgree(a[i], b[i], [c0, c1]);
    }
  }

  /** The cells of column `c` across the given rows. */
  function Cells(rows: seq<Row>, c: string): (vs: seq<Value>)
    ensures |vs| == |rows|
    ensures forall i :: 0 <= i < |rows| ==> vs[i] == Get(rows[i], c)
  {
    seq(|rows|, i requires 0 <= i < |rows| => Get(rows[i], c))
  }

  /** The key of every row, in row order. */
  function RowKeys(rows: seq<Row>, keys: seq<string>): (ks: seq<seq<Value>>)
    ensures |ks| == |rows|
    ensures forall i :: 0 <= i < |rows| ==> ks[i] == KeyOf(rows[i], keys)
  {
    seq(|rows|, i requires 0 <= i < |rows| => KeyOf(rows[i], keys))
  }

  /** The rows whose key is `k`, in their original order. */
  function Members(rows: seq<Row>, keys: seq<string>, k: seq<Value>): (m: seq<Row>)
    ensures IsSubsequence(m, rows)
    ensures forall r :: r in m <==> r in rows && KeyOf(r, keys) == k
  {
    FilterIn(rows, set r | r in rows && KeyOf(r, keys) == k)
  }

  /** No two rows share a key. */
  predicate UniqueKeys(t: Table, keys: seq<string>) {
    Distinct(RowKeys(t.rows, keys))
  }

  /** In rows with pairwise distinct keys, the group of the `i`th row's key is
      that row alone. */
  lemma MembersOfUnique(rows: seq<Row>, keys: seq<string>, i: int)
    requires Distinct(RowKeys(rows, keys))
    requires 0 <= i < |rows|
    ensures Members(rows, keys, KeyOf(rows[i], keys)) == [rows[i]]
  {
    var k := KeyOf(rows[i], keys);
    var keep := set r | r in rows && KeyOf(r, keys) == k;
    forall j | 0 <= j < |rows| ensures rows[j] in keep <==> j == i {
      assert RowKeys(rows, keys)[j] == KeyOf(rows[j], keys);
      assert RowKeys(rows, keys)[i] == k;
    }
    FilterInUnique(rows, keep, i);
  }

  /** The row holding `vals[j]` under `names[j]`; with a repeated name the
      later value wins. */
  function Assign(names: seq<string>, vals: seq<Value>): (r: Row)
    requires |names| == |vals|
    ensures r.Keys == set c | c in names
    ensures Distinct(names) ==> forall j :: 0 <= j < |names| ==> r[names[j]] == vals[j]
    decreases |names|
  {
    if |names| == 0 then map[]
    else
      var n := |names| - 1;
      var prefix := Assign(names[..n], vals[..n]);
      assert forall c :: c in names <==> c in names[..n] || c == names[n];
      assert Distinct(names) ==> Distinct(names[..n]) && forall j :: 0 <= j < n ==> names[j] != names[n] by {
        if Distinct(names) {
          forall i, j | 0 <= i < n && 0 <= j < n && i != j ensures names[..n][i] != names[..n][j] {
            assert names[i] != names[j];
          }
        }
      }
      assert forall j :: 0 <= j < n ==> names[..n][j] == names[j] && vals[..n][j] == vals[j];
      prefix[names[n] := vals[n]]
  }
  /** Past a leading column, the assigned row holds the trailing values. */
  lemma AssignTail(first: string, rest: seq<string>, v: Value, vs: seq<Value>, j: int)
    requires |rest| == |vs| && Distinct([first] + rest) && 0 <= j < |rest|
    ensures Assign([first] + rest, [v] + vs)[rest[j]] == vs[j]
  {
    var names, vals := [first] + rest, [v] + vs;
    assert names[j + 1] == rest[j] && vals[j + 1] == vs[j];
    assert Assign(names, vals)[names[j + 1]] == vals[j + 1];
  }
  /** Past a leading column, the assigned row holds every trailing value. */
  lemma AssignTailAll(first: string, rest: seq<string>, v: Value, vs: seq<Value>)
    requires |rest| == |vs| && Distinct([first] + rest)
    ensures forall j :: 0 <= j < |rest| ==> Assign([first] + rest, [v] + vs)[rest[j]] == vs[j]
  {
    forall j | 0 <= j < |rest| ensures Assign([first] + rest, [v] + vs)[rest[j]] == vs[j] {
      AssignTail(first, rest, v, vs, j);
    }
  }



  // ---------------------------------------------------------------------
  // Value coercions

  /** `pd.to_numeric(v, errors='coerce')`: numbers stay, everything else is
      missing. */
  function ToNumeric(v: Value): (r: Value)
    ensures r.Null? || r.Num?
    ensures v.Num? ==> r == v
  {
    if v.Num? then v else Null
  }

  /** `pd.to_datetime(v, errors='coerce')`: instants stay, a date becomes
      its midnight, a text becomes the instant it spells in the ISO forms
      `ParseStamp` reads, and everything else is missing. */
  function ToStamp(v: Value): (r: Value)
    ensures r.Null? || r.Stamp?
    ensures v.Stamp? ==> r == v
    ensures v.Text? ==> (r.Stamp? <==> ParseStamp(v.s).Some?)
  {
    match v
    case Stamp(_) => v
    case Day(d) => Stamp(d * SecondsPerDay)
    case Text(s) => if ParseStamp(s).Some? then Stamp(ParseStamp(s).value) else Null
    case _ => Null
  }

  /** The calendar day holding the instant `t`. */
  function DayOf(t: int): int {
    t / SecondsPerDay
  }

  /** `pd.to_datetime(v, errors='coerce').dt.date`. */
  function ToDate(v: Value): (r: Value)
    ensures r.Null? || r.Day?
    ensures v.Day? ==> r == v
    ensures v.Stamp? ==> r == Day(DayOf(v.t))
  {
    match ToStamp(v)
    case Stamp(t) => Day(DayOf(t))
    case _ => Null
  }

  /** An instant within a day belongs to that day. */
  lemma DayOfWithin(e: int, s: int)
    requires 0 <= s < SecondsPerDay
    ensures DayOf(e * SecondsPerDay + s) == e
  {
  }

  /** An instant written `YYYY-MM-DDTHH:MM:SS` becomes the calendar day it
      names, whenever it fits a pandas timestamp. */
  lemma ToDateIsoInstant(y: nat, m: nat, d: nat, h: nat, mi: nat, se: nat)
    requires y < 10000 && ValidDate(y, m, d) && h < 24 && mi < 60 && se < 60
    requires InTimestampRange(EpochDay(y, m, d) * SecondsPerDay + h * 3600 + mi * 60 + se)
    ensures ToDate(Text(IsoDate(y, m, d) + "T" + IsoClock(h, mi, se))) == Day(EpochDay(y, m, d))
  {
    IsoStampRoundTrip(y, m, d, h, mi, se);
    DayOfWithin(EpochDay(y, m, d), h * 3600 + mi * 60 + se);
  }

  /** A date written `YYYY-MM-DD` becomes that calendar day, and so does
      any instant written `YYYY-MM-DDTHH:MM:SS` on it, whenever the
      instant fits a pandas timestamp. */
  lemma ToDateIso(y: nat, m: nat, d: nat, h: nat, mi: nat, se: nat)
    requires y < 10000 && ValidDate(y, m, d) && h < 24 && mi < 60 && se < 60
    requires InTimestampRange(EpochDay(y, m, d) * SecondsPerDay + h * 3600 + mi * 60 + se)
    ensures ToDate(Text(IsoDate(y, m, d) + "T" + IsoClock(h, mi, se))) == Day(EpochDay(y, m, d))
    ensures InTimestampRange(EpochDay(y, m, d) * SecondsPerDay) ==> ToDate(Text(IsoDate(y, m, d))) == Day(EpochDay(y, m, d))
  {
    ToDateIsoInstant(y, m, d, h, mi, se);
    IsoDateStamp(y, m, d);
    DayOfWithin(EpochDay(y, m, d), 0);
  }

  // ---------------------------------------------------------------------
  // Column projection

  function Restrict(r: Row, keep: set<string>): (r': Row)
    ensures r'.Keys == r.Keys * keep
    ensures forall c :: c in r' ==> r'[c] == r[c]
  {
    map c | c in r.Keys && c in keep :: r[c]
  }

  /** `df[[c for c in df.columns if c in keep]]`: the kept columns form an
      ordered subset of the original ones and no cell changes. */
  function Select(t: Table, keep: set<string>): (r: Table)
    requires WellFormed(t)
    ensures WellFormed(r)
    ensures IsSubsequence(r.columns, t.columns)
    ensures forall c :: c in r.columns <==> c in t.columns && c in keep
    ensures |r.rows| == |t.rows|
    ensures forall i, c :: 0 <= i < |t.rows| && c in r.columns ==> r.rows[i][c] == t.rows[i][c]
  {
    var cols := FilterIn(t.columns, keep);
    FilterInDistinct(t.columns, keep);
    Table(cols, seq(|t.rows|, i requires 0 <= i < |t.rows| => Restrict(t.rows[i], keep)))
  }

  /** `df.drop(columns=names, errors='ignore')`. */
  function Drop(t: Table, names: set<string>): (r: Table)
    requires WellFormed(t)
    ensures WellFormed(r)
    ensures IsSubsequence(r.columns, t.columns)
    ensures forall c :: c in r.columns <==> c in t.columns && c !in names
    ensures |r.rows| == |t.rows|
    ensures forall i, c :: 0 <= i < |t.rows| && c in r.columns ==> r.rows[i][c] == t.rows[i][c]
  {
    Select(t, ColumnSet(t) - names)
  }

  /** Dropping columns leaves every other cell readable as before. */
  lemma DropGet(t: Table, names: set<string>, i: int, c: string)
    requires WellFormed(t) && 0 <= i < |t.rows| && c !in names
    ensures Get(Drop(t, names).rows[i], c) == Get(t.rows[i], c)
  {
    var r := Drop(t, names);
    assert t.rows[i].Keys == ColumnSet(t) && r.rows[i].Keys == ColumnSet(r);
  }

  /** `df[mask]`: the rows the predicate keeps, in order, same columns. */
  function Where(t: Table, keep: Row -> bool): (r: Table)
    requires WellFormed(t)
    ensures WellFormed(r)
    ensures r.columns == t.columns
    ensures |r.rows| <= |t.rows|
    ensures forall x :: x in r.rows <==> x in t.rows && keep(x)
  {
    var f := (x: Row) => if keep(x) then Some(x) else None;
    var rows := FilterMap(t.rows, f);
    forall x ensures x in rows <==> x in t.rows && keep(x) {
      FilterMapMembers(t.rows, f, x);
      if x in t.rows && keep(x) {
        var i :| 0 <= i < |t.rows| && t.rows[i] == x;
        assert f(t.rows[i]) == Some(x);
      }
    }
    assert forall i :: 0 <= i < |rows| ==> rows[i] in t.rows;
    Table(t.columns, rows)
  }

  // ---------------------------------------------------------------------
  // Column assignment and renaming

  /** `df[name] = values`: an existing column is overwritten in place, a new
      one is appended after the others. */
  function SetColumn(t: Table, name: string, values: seq<Value>): (r: Table)
    requires WellFormed(t)
    requires |values| == |t.rows|
    ensures WellFormed(r)
    ensures name in t.columns ==> r.columns == t.columns
    ensures name !in t.columns ==> r.columns == t.columns + [name]
    ensures |r.rows| == |t.rows|
    ensures forall i :: 0 <= i < |t.rows| ==> r.rows[i] == t.rows[i][name := values[i]]
  {
    var cols := if name in t.columns then t.columns else t.columns + [name];
    assert ColumnSet(Table(cols, [])) == ColumnSet(t) + {name};
    assert Distinct(cols) by {
      if name !in t.columns {
        forall i, j | 0 <= i < |cols| && 0 <= j < |cols| && i != j ensures cols[i] != cols[j] {
          if i < |t.columns| && j < |t.columns| {
            assert cols[i] == t.columns[i] && cols[j] == t.columns[j];
          }
        }
      }
    }
    Table(cols, seq(|t.rows|, i requires 0 <= i < |t.rows| => t.rows[i][name := values[i]]))
  }

  /** `df[name] = v`: one value for the whole column. */
  function WithConstant(t: Table, name: string, v: Value): (r: Table)
    requires WellFormed(t)
    ensures WellFormed(r) && |r.rows| == |t.rows|
    ensures forall c :: c in r.columns <==> c in t.columns || c == name
    ensures forall k :: 0 <= k < |r.rows| ==> Get(r.rows[k], name) == v
    ensures forall k, c :: 0 <= k < |r.rows| && c in t.rows[k] && c != name ==> r.rows[k][c] == t.rows[k][c]
  {
    var r := SetColumn(t, name, seq(|t.rows|, _ => v));
    assert forall k :: 0 <= k < |r.rows| ==> r.rows[k] == t.rows[k][name := v];
    r
  }

  /** Setting one column leaves every other cell reading as before. */
  lemma WithConstantGet(t: Table, name: string, v: Value, k: int, c: string)
    requires WellFormed(t) && 0 <= k < |t.rows| && c != name
    ensures Get(WithConstant(t, name, v).rows[k], c) == Get(t.rows[k], c)
  {
  }

  /** `df[name] = f(df[name])` when the column exists; otherwise nothing. */
  function MapColumn(t: Table, name: string, f: Value -> Value): (r: Table)
    requires WellFormed(t)
    ensures WellFormed(r)
    ensures r.columns == t.columns
    ensures |r.rows| == |t.rows|
    ensures forall i, c :: 0 <= i < |t.rows| && c in t.rows[i] ==>
              r.rows[i][c] == (if c == name then f(t.rows[i][c]) else t.rows[i][c])
  {
    if name in t.columns then
      var vs := seq(|t.rows|, i requires 0 <= i < |t.rows| => f(Get(t.rows[i], name)));
      var r := SetColumn(t, name, vs);
      assert name in ColumnSet(t);
      forall i | 0 <= i < |t.rows| ensures name in t.rows[i] && vs[i] == f(t.rows[i][name]) {
        assert t.rows[i].Keys == ColumnSet(t);
        assert vs[i] == f(Get(t.rows[i], name));
      }
      r
    else
      t
  }

  /** Mapping one column leaves every other cell readable as before. */
  lemma MapColumnGet(t: Table, name: string, f: Value -> Value, i: int, c: string)
    requires WellFormed(t) && 0 <= i < |t.rows| && c != name
    ensures Get(MapColumn(t, name, f).rows[i], c) == Get(t.rows[i], c)
  {
    var r := MapColumn(t, name, f);
    assert t.rows[i].Keys == ColumnSet(t) && r.rows[i].Keys == ColumnSet(r);
  }

  function RenameRow(r: Row, from: string, to: string): (r': Row)
    requires from in r
    ensures r'.Keys == (r.Keys - {from}) + {to}
  {
    map c | c in (r.Keys - {from}) + {to} :: if c == to then r[from] else r[c]
  }

  /** `df.rename(columns={from: to})` for a target name that does not clash
      with another column: the column keeps its position and its cells. */
  function Rename(t: Table, from: string, to: string): (r: Table)
    requires WellFormed(t)
    requires from in t.columns ==> to == from || to !in t.columns
    ensures WellFormed(r)
    ensures |r.columns| == |t.columns| && |r.rows| == |t.rows|
    ensures forall j :: 0 <= j < |t.columns| ==>
              r.columns[j] == (if t.columns[j] == from then to else t.columns[j])
    ensures forall i, c :: 0 <= i < |t.rows| && c in t.rows[i] && c != from ==> r.rows[i][c] == t.rows[i][c]
    ensures from in t.columns ==> forall i :: 0 <= i < |t.rows| ==> r.rows[i][to] == t.rows[i][from]
  {
    if from !in t.columns || to == from then
      t
    else
      var cols := seq(|t.columns|, j requires 0 <= j < |t.columns| =>
                        if t.columns[j] == from then to else t.columns[j]);
      assert ColumnSet(Table(cols, [])) == (ColumnSet(t) - {from}) + {to} by {
        var k := FirstIndex(t.columns, from);
        assert cols[k] == to;
        forall c | c in ColumnSet(t) - {from} ensures c in cols {
          var j := FirstIndex(t.columns, c);
          assert cols[j] == c;
        }
      }
      assert Distinct(cols) by {
        forall i, j | 0 <= i < |cols| && 0 <= j < |cols| && i != j ensures cols[i] != cols[j] {
          assert t.columns[i] != t.columns[j];
        }
      }
      Table(cols, seq(|t.rows|, i requires 0 <= i < |t.rows| => RenameRow(t.rows[i], from, to)))
  }
  /** After a rename the columns are the old ones less `from`, plus `to`
      when `from` was there. */
  lemma RenameMembers(t: Table, from: string, to: string)
    requires WellFormed(t)
    requires from in t.columns ==> to == from || to !in t.columns
    ensures forall c :: c in Rename(t, from, to).columns <==> (c in t.columns && c != from) || (c == to && from in t.columns)
  {
    var r := Rename(t, from, to);
    forall c | c in r.columns ensures (c in t.columns && c != from) || (c == to && from in t.columns) {
      var j :| 0 <= j < |r.columns| && r.columns[j] == c;
      assert t.columns[j] in t.columns;
    }
    forall c | (c in t.columns && c != from) || (c == to && from in t.columns) ensures c in r.columns {
      var j := FirstIndex(t.columns, if c in t.columns && c != from then c else from);
      assert r.columns[j] == c;
    }
  }


  /** `df.rename(columns=f)` for a renaming that keeps the names distinct:
      every column keeps its position and its cells under its new name. */
  function RenameColumns(t: Table, f: string -> string): (r: Table)
    requires WellFormed(t)
    requires forall i, j :: 0 <= i < j < |t.columns| ==> f(t.columns[i]) != f(t.columns[j])
    ensures WellFormed(r)
    ensures |r.columns| == |t.columns| && |r.rows| == |t.rows|
    ensures forall j :: 0 <= j < |t.columns| ==> r.columns[j] == f(t.columns[j])
    ensures forall i, j :: 0 <= i < |t.rows| && 0 <= j < |t.columns| ==> r.rows[i][f(t.columns[j])] == t.rows[i][t.columns[j]]
  {
    var cols := seq(|t.columns|, j requires 0 <= j < |t.columns| => f(t.columns[j]));
    assert Distinct(cols) by {
      forall i, j | 0 <= i < |cols| && 0 <= j < |cols| && i != j ensures cols[i] != cols[j] {
        if i < j {
          assert f(t.columns[i]) != f(t.columns[j]);
        } else {
          assert f(t.columns[j]) != f(t.columns[i]);
        }
      }
    }
    var r := Table(cols, seq(|t.rows|, i requires 0 <= i < |t.rows| => Assign(cols, KeyOf(t.rows[i], t.columns))));
    assert ColumnSet(r) == set c | c in cols;
    forall i, j | 0 <= i < |t.rows| && 0 <= j < |t.columns| ensures r.rows[i][f(t.columns[j])] == t.rows[i][t.columns[j]] {
      assert t.rows[i].Keys == ColumnSet(t);
      assert t.columns[j] in ColumnSet(t);
      assert cols[j] == f(t.columns[j]);
    }
    r
  }

  /** Moves the columns `front` (all present) to the front in the given order,
      the others following in their original order: `df[front + others]`. */
  function Reorder(t: Table, front: seq<string>): (r: Table)
    requires WellFormed(t)
    requires Distinct(front)
    requires forall c :: c in front ==> c in t.columns
    ensures WellFormed(r)
    ensures |front| <= |r.columns| && r.columns[..|front|] == front
    ensures forall c :: c in r.columns <==> c in t.columns
    ensures r.rows == t.rows
  {
    var frontSet := set c | c in front;
    var others := FilterIn(t.columns, ColumnSet(t) - frontSet);
    FilterInDistinct(t.columns, ColumnSet(t) - frontSet);
    var cols := front + others;
    assert cols[..|front|] == front;
    assert Distinct(cols) by {
      forall i, j | 0 <= i < |cols| && 0 <= j < |cols| && i != j ensures cols[i] != cols[j] {
        if i < |front| && j >= |front| {
          assert cols[j] == others[j - |front|];
          assert cols[j] !in frontSet;
        } else if j < |front| && i >= |front| {
          assert cols[i] == others[i - |front|];
          assert cols[i] !in frontSet;
        } else if i >= |front| {
          assert cols[i] == others[i - |front|] && cols[j] == others[j - |front|];
        }
      }
    }
    assert ColumnSet(Table(cols, [])) == ColumnSet(t);
    Table(cols, t.rows)
  }

  // ---------------------------------------------------------------------
  // Building tables

  /** The value of the last pair with key `k` (Python dict semantics), or
      missing. */
  function Lookup(o: Object, k: string): (v: Value)
    ensures (forall j :: 0 <= j < |o| ==> o[j].0 != k) ==> v == Null
  {
    if |o| == 0 then Null
    else if o[|o| - 1].0 == k then o[|o| - 1].1
    else Lookup(o[..|o| - 1], k)
  }

  /** Python's `k in o` for a JSON object. */
  predicate HasKey(o: Object, k: string) {
    exists j :: 0 <= j < |o| && o[j].0 == k
  }

  function KeysOf(o: Object): (ks: seq<string>)
    ensures |ks| == |o|
    ensures forall j :: 0 <= j < |o| ==> ks[j] == o[j].0
  {
    seq(|o|, j requires 0 <= j < |o| => o[j].0)
  }

  function AllKeys(records: seq<Object>): seq<string>
    decreases |records|
  {
    if |records| == 0 then [] else KeysOf(records[0]) + AllKeys(records[1..])
  }

  lemma {:induction false} AllKeysMembers(records: seq<Object>, c: string)
    ensures c in AllKeys(records) <==> exists i, j :: 0 <= i < |records| && 0 <= j < |records[i]| && records[i][j].0 == c
    decreases |records|
  {
    if |records| > 0 {
      AllKeysMembers(records[1..], c);
      if c in KeysOf(records[0]) {
        var j :| 0 <= j < |records[0]| && KeysOf(records[0])[j] == c;
        assert records[0][j].0 == c;
      }
      if exists i, j :: 0 <= i < |records| && 0 <= j < |records[i]| && records[i][j].0 == c {
        var i, j :| 0 <= i < |records| && 0 <= j < |records[i]| && records[i][j].0 == c;
        if i == 0 {
          assert KeysOf(records[0])[j] == c;
        } else {
          assert records[1..][i - 1][j].0 == c;
        }
      }
    }
  }

  /** `pd.DataFrame(records)` for a list of JSON objects: the columns are the
      keys in order of first appearance, one row per object, a key an object
      lacks is missing in its row. */
  function FromRecords(records: seq<Object>): (t: Table)
    ensures WellFormed(t)
    ensures |t.rows| == |records|
    ensures forall c :: c in t.columns <==>
              exists i, j :: 0 <= i < |records| && 0 <= j < |records[i]| && records[i][j].0 == c
    ensures forall i, c :: 0 <= i < |records| && c in t.columns ==> t.rows[i][c] == Lookup(records[i], c)
  {
    var cols := Dedup(AllKeys(records));
    forall c ensures c in cols <==>
      exists i, j :: 0 <= i < |records| && 0 <= j < |records[i]| && records[i][j].0 == c
    {
      AllKeysMembers(records, c);
    }
    var colSet := set c | c in cols;
    Table(cols, seq(|records|, i requires 0 <= i < |records| => map c | c in colSet :: Lookup(records[i], c)))
  }

  /** A column of `DataFrame(records)` holds each record's value for it. */
  lemma FromRecordsCells(records: seq<Object>, c: string)
    ensures c in FromRecords(records).columns ==>
              forall i :: 0 <= i < |records| ==> Get(FromRecords(records).rows[i], c) == Lookup(records[i], c)
  {
    var t := FromRecords(records);
    if c in t.columns {
      forall i | 0 <= i < |records| ensures Get(t.rows[i], c) == Lookup(records[i], c) {
        assert t.rows[i].Keys == ColumnSet(t);
      }
    }
  }
  /** A column of `DataFrame(records)` is a key some record has. */
  lemma FromRecordsColumn(records: seq<Object>, c: string)
    ensures c in FromRecords(records).columns <==> exists i :: 0 <= i < |records| && HasKey(records[i], c)
  {
    if exists i :: 0 <= i < |records| && HasKey(records[i], c) {
      var i :| 0 <= i < |records| && HasKey(records[i], c);
      var j :| 0 <= j < |records[i]| && records[i][j].0 == c;
    }
  }

  /** Every cell of `DataFrame(records)` reads as its record's value, a key
      the record lacks as missing. */
  lemma FromRecordsGet(records: seq<Object>, i: int, c: string)
    requires 0 <= i < |records|
    ensures Get(FromRecords(records).rows[i], c) == Lookup(records[i], c)
  {
    var t := FromRecords(records);
    if c !in t.columns {
      assert forall j :: 0 <= j < |records[i]| ==> records[i][j].0 != c;
      assert t.rows[i].Keys == ColumnSet(t);
    }
  }


  /** A row widened (or narrowed) to the given columns, absent cells missing. */
  function Widen(r: Row, cols: set<string>): (r': Row)
    ensures r'.Keys == cols
    ensures forall c :: c in cols ==> r'[c] == Get(r, c)
  {
    map c | c in cols :: Get(r, c)
  }

  function AllColumns(ts: seq<Table>): seq<string>
    decreases |ts|
  {
    if |ts| == 0 then [] else ts[0].columns + AllColumns(ts[1..])
  }

  function AllRows(ts: seq<Table>): seq<Row>
    decreases |ts|
  {
    if |ts| == 0 then [] else ts[0].rows + AllRows(ts[1..])
  }

  function TotalRows(ts: seq<Table>): nat
    decreases |ts|
  {
    if |ts| == 0 then 0 else |ts[0].rows| + TotalRows(ts[1..])
  }

  lemma {:induction false} AllRowsLength(ts: seq<Table>)
    ensures |AllRows(ts)| == TotalRows(ts)
    decreases |ts|
  {
    if |ts| > 0 {
      AllRowsLength(ts[1..]);
    }
  }

  lemma {:induction false} AllColumnsMembers(ts: seq<Table>, c: string)
    ensures c in AllColumns(ts) <==> exists j :: 0 <= j < |ts| && c in ts[j].columns
    decreases |ts|
  {
    if |ts| > 0 {
      AllColumnsMembers(ts[1..], c);
      if exists j :: 0 <= j < |ts| && c in ts[j].columns {
        var j :| 0 <= j < |ts| && c in ts[j].columns;
        if j > 0 {
          assert ts[1..][j - 1] == ts[j];
        }
      }
    }
  }

  /** A row of the concatenation came from one of the inputs. */
  lemma {:induction false} AllRowsMembers(ts: seq<Table>, r: Row)
    ensures r in AllRows(ts) <==> exists j :: 0 <= j < |ts| && r in ts[j].rows
    decreases |ts|
  {
    if |ts| > 0 {
      AllRowsMembers(ts[1..], r);
      if exists j :: 0 <= j < |ts| && r in ts[j].rows {
        var j :| 0 <= j < |ts| && r in ts[j].rows;
        if j > 0 {
          assert ts[1..][j - 1] == ts[j];
        }
      }
    }
  }

  /** `pd.concat(ts, ignore_index=True)`: rows stacked in order, columns the
      union in order of first appearance, a cell missing where a table lacked
      the column. */
  function Concat(ts: seq<Table>): (r: Table)
    ensures |ts| == 0 ==> r == Empty
    ensures WellFormed(r)
    ensures forall c :: c in r.columns <==> exists j :: 0 <= j < |ts| && c in ts[j].columns
    ensures |r.rows| == TotalRows(ts) == |AllRows(ts)|
    ensures forall i :: 0 <= i < |r.rows| ==> r.rows[i] == Widen(AllRows(ts)[i], ColumnSet(r))
  {
    var cols := Dedup(AllColumns(ts));
    forall c ensures c in cols <==> exists j :: 0 <= j < |ts| && c in ts[j].columns {
      AllColumnsMembers(ts, c);
    }
    var colSet := set c | c in cols;
    var all := AllRows(ts);
    AllRowsLength(ts);
    var t := Table(cols, seq(|all|, i requires 0 <= i < |all| => Widen(all[i], colSet)));
    assert ColumnSet(t) == colSet;
    t
  }

  /** A row of a concatenation is an input row widened to the union of the
      columns. */
  lemma ConcatRowOrigin(ts: seq<Table>, i: int)
    requires 0 <= i < |Concat(ts).rows|
    ensures exists j :: 0 <= j < |ts| && exists r :: r in ts[j].rows && Concat(ts).rows[i] == Widen(r, ColumnSet(Concat(ts)))
  {
    var t := Concat(ts);
    AllRowsLength(ts);
    var r := AllRows(ts)[i];
    AllRowsMembers(ts, r);
  }

  /** Reading a cell of the concatenation reads the input row it came from;
      a column that input row lacks reads as missing. */
  lemma ConcatGet(ts: seq<Table>, i: int, c: string)
    requires forall j :: 0 <= j < |ts| ==> WellFormed(ts[j])
    requires 0 <= i < |Concat(ts).rows|
    ensures Get(Concat(ts).rows[i], c) == Get(AllRows(ts)[i], c)
  {
    var t := Concat(ts);
    var r := AllRows(ts)[i];
    if c !in ColumnSet(t) {
      AllRowsMembers(ts, r);
      var j :| 0 <= j < |ts| && r in ts[j].rows;
      var k :| 0 <= k < |ts[j].rows| && ts[j].rows[k] == r;
      assert r.Keys == ColumnSet(ts[j]);
      assert t.rows[i].Keys == ColumnSet(t);
    }
  }

  /** The non-empty tables, in order: what a loop keeping `if not df.empty`
      results collects. */
  function NonEmpty(ts: seq<Table>): (kept: seq<Table>)
    ensures |kept| <= |ts|
    ensures |kept| == |set j | 0 <= j < |ts| && !IsEmpty(ts[j])|
    ensures forall t :: t in kept <==> t in ts && !IsEmpty(t)
    ensures IsSubsequence(kept, ts)
  {
    var f := (t: Table) => if IsEmpty(t) then None else Some(t);
    var kept := FilterMap(ts, f);
    FilterMapSubsequence(ts, f);
    FilterMapCount(ts, f);
    assert Defined(ts, f) == set j | 0 <= j < |ts| && !IsEmpty(ts[j]);
    forall t ensures t in kept <==> t in ts && !IsEmpty(t) {
      FilterMapMembers(ts, f, t);
      if t in ts && !IsEmpty(t) {
        var i :| 0 <= i < |ts| && ts[i] == t;
        assert f(ts[i]) == Some(t);
      }
    }
    kept
  }

  /** Every row of a concatenation reads, cell for cell, as one row of one
      of the inputs. */
  lemma ConcatRowFrom(ts: seq<Table>, i: int)
    requires forall j :: 0 <= j < |ts| ==> WellFormed(ts[j])
    requires 0 <= i < |Concat(ts).rows|
    ensures exists j, k :: 0 <= j < |ts| && 0 <= k < |ts[j].rows| && SameCells(Concat(ts).rows[i], ts[j].rows[k])
  {
    var r := AllRows(ts)[i];
    AllRowsMembers(ts, r);
    var j :| 0 <= j < |ts| && r in ts[j].rows;
    var k :| 0 <= k < |ts[j].rows| && ts[j].rows[k] == r;
    forall c ensures Get(Concat(ts).rows[i], c) == Get(ts[j].rows[k], c) {
      ConcatGet(ts, i, c);
    }
    assert SameCells(Concat(ts).rows[i], ts[j].rows[k]);
  }

  /** Every row of the stacked non-empty tables reads, cell for cell, as
      one row of one of the inputs. */
  lemma NonEmptyRowFrom(ts: seq<Table>, i: int)
    requires forall j :: 0 <= j < |ts| ==> WellFormed(ts[j])
    requires 0 <= i < |Concat(NonEmpty(ts)).rows|
    ensures exists j, k :: 0 <= j < |ts| && 0 <= k < |ts[j].rows| && SameCells(Concat(NonEmpty(ts)).rows[i], ts[j].rows[k])
  {
    var kept := NonEmpty(ts);
    forall m | 0 <= m < |kept| ensures WellFormed(kept[m]) {
      assert kept[m] in kept;
      var j :| 0 <= j < |ts| && ts[j] == kept[m];
    }
    ConcatRowFrom(kept, i);
    var m, k :| 0 <= m < |kept| && 0 <= k < |kept[m].rows| && SameCells(Concat(kept).rows[i], kept[m].rows[k]);
    assert kept[m] in kept;
    var j :| 0 <= j < |ts| && ts[j] == kept[m];
    assert SameCells(Concat(NonEmpty(ts)).rows[i], ts[j].rows[k]);
  }

  /** A column every non-empty input has, with all its cells in `vals`,
      keeps that property through stacking the non-empty inputs. */
  lemma NonEmptyColumnValues(ts: seq<Table>, c: string, vals: set<Value>)
    requires forall t :: t in ts && !IsEmpty(t) ==> c in t.columns && forall r :: r in t.rows ==> Get(r, c) in vals
    ensures forall i :: 0 <= i < |Concat(NonEmpty(ts)).rows| ==> Get(Concat(NonEmpty(ts)).rows[i], c) in vals
  {
    var kept := NonEmpty(ts);
    if |kept| > 0 {
      assert forall k :: 0 <= k < |kept| ==> kept[k] in kept;
      ConcatColumnValues(kept, c, vals);
    }
  }

  /** A column every input table has and whose cells all lie in `vals` keeps
      that property through the concatenation. */
  lemma ConcatColumnValues(ts: seq<Table>, c: string, vals: set<Value>)
    requires forall j :: 0 <= j < |ts| ==> c in ts[j].columns && forall r :: r in ts[j].rows ==> Get(r, c) in vals
    requires |ts| > 0
    ensures c in Concat(ts).columns
    ensures forall i :: 0 <= i < |Concat(ts).rows| ==> Get(Concat(ts).rows[i], c) in vals
  {
    var t := Concat(ts);
    assert c in ts[0].columns;
    forall i | 0 <= i < |t.rows| ensures Get(t.rows[i], c) in vals {
      ConcatRowOrigin(ts, i);
      var j, r :| 0 <= j < |ts| && r in ts[j].rows && t.rows[i] == Widen(r, ColumnSet(t));
    }
  }

  /** A table with one text column and one row per element. */
  function SingleColumn(name: string, values: seq<Value>): (t: Table)
    ensures WellFormed(t)
    ensures t.columns == [name] && |t.rows| == |values|
    ensures forall i :: 0 <= i < |values| ==> t.rows[i] == map[name := values[i]]
  {
    Table([name], seq(|values|, i requires 0 <= i < |values| => map[name := values[i]]))
  }
}
