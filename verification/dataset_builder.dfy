/** The dataset assembly pipeline: the station attributes, the daily
    groundwater levels and the daily weather of a list of piezometric
    stations, laid out on a (station, day) grid. The three data sources are
    parameters; date-times are seconds since the epoch and calendar days are
    day numbers (`Day`). */
module DatasetBuilder {
  import opened Wrappers
  import opened Seqs
  import opened Strings
  import opened Dates
  import opened Tables
  import opened Grouping
  import opened Joins
  import opened Sorting
  import Era5Local

  // ---------------------------------------------------------------------
  // Input validation

  /** At most this many stations per build. */
  const MaxStations: nat := 500

  const EmptyCodes: string := "codes_bss cannot be empty"
  const TooManyStations: string := "Too many stations"
  const BadRange: string := "date_start must be before date_end"

  /** `_validate_inputs`: the code list must be non-empty and at most
      `MaxStations` long, and the start must come strictly before the end.
      A very long span only warns. */
  function ValidateInputs(codes: seq<string>, start: int, end: int): (r: Result<()>)
    ensures r.Success? <==> 0 < |codes| <= MaxStations && start < end
    ensures |codes| == 0 ==> r == Failure(EmptyCodes)
    ensures 0 < |codes| && |codes| > MaxStations ==> r == Failure(TooManyStations)
    ensures 0 < |codes| <= MaxStations && start >= end ==> r == Failure(BadRange)
  {
    if |codes| == 0 then Failure(EmptyCodes)
    else if |codes| > MaxStations then Failure(TooManyStations)
    else if start >= end then Failure(BadRange)
    else Success(())
  }

  // ---------------------------------------------------------------------
  // Station attributes

  /** `_get_stations_data`: the fetched station table with numeric
      coordinates; nothing when the fetch gives nothing or no `code_bss`. */
  function StationsData(df: Table): (r: Table)
    requires WellFormed(df)
    ensures WellFormed(r)
    ensures IsEmpty(df) || "code_bss" !in df.columns ==> r == Empty
    ensures !IsEmpty(df) && "code_bss" in df.columns ==> r.columns == df.columns && |r.rows| == |df.rows|
    ensures !IsEmpty(df) && "code_bss" in df.columns ==>
              forall i, c :: 0 <= i < |df.rows| && c in df.rows[i] ==>
                r.rows[i][c] == if c == "latitude" || c == "longitude" then ToNumeric(df.rows[i][c]) else df.rows[i][c]
  {
    if IsEmpty(df) || "code_bss" !in df.columns then Empty
    else MapColumn(MapColumn(df, "latitude", ToNumeric), "longitude", ToNumeric)
  }

  /** The station columns to keep: always `code_bss`, the coordinates when
      weather is wanted, and when attributes are wanted either the listed
      fields or every column. An empty list stands for "no list". */
  function StationKeep(columns: seq<string>, includeMeteo: bool, includeStations: bool, fields: seq<string>): set<string> {
    {"code_bss"}
    + (if includeMeteo then {"latitude", "longitude"} else {})
    + (if includeStations then (if |fields| > 0 then set f | f in fields else set c | c in columns) else {})
  }

  /** The station column filter: the kept columns in their original order,
      every cell unchanged. */
  function FilterStations(df: Table, includeMeteo: bool, includeStations: bool, fields: seq<string>): (r: Table)
    requires WellFormed(df)
    ensures WellFormed(r) && |r.rows| == |df.rows|
    ensures IsSubsequence(r.columns, df.columns)
    ensures "code_bss" in df.columns ==> "code_bss" in r.columns
    ensures includeMeteo ==> forall c :: c in df.columns && (c == "latitude" || c == "longitude") ==> c in r.columns
    ensures includeStations && |fields| == 0 ==> r.columns == df.columns
    ensures includeStations && |fields| > 0 ==> forall f :: f in fields && f in df.columns ==> f in r.columns
    ensures forall c :: c in r.columns ==> c == "code_bss" || (includeMeteo && (c == "latitude" || c == "longitude")) || (includeStations && (|fields| == 0 || c in fields))
    ensures forall i, c :: 0 <= i < |df.rows| && c in r.columns ==> r.rows[i][c] == Get(df.rows[i], c)
  {
    var keep := StationKeep(df.columns, includeMeteo, includeStations, fields);
    var r := Select(df, keep);
    if includeStations && |fields| == 0 then
      FilterInAll(df.columns, keep);
      r
    else
      r
  }

  // ---------------------------------------------------------------------
  // Groundwater levels

  /** The user-facing name of the level field and its API name. */
  const UiLevel: string := "niveau_nappe_ngf"
  const ApiLevel: string := "niveau_nappe_eau"

  /** The API column a requested field selects. */
  function ApiName(f: string): string {
    if f == UiLevel then ApiLevel else f
  }

  /** The name a kept API column is exported under. */
  function UiName(c: string): string {
    if c == ApiLevel then UiLevel else c
  }

  /** Every requested field comes back under its own name, except the API
      name of the level itself, which comes back under the user-facing
      one. */
  lemma UiApiRoundTrip(f: string)
    ensures UiName(ApiName(f)) == if f == ApiLevel then UiLevel else f
  {
  }

  /** The level columns to keep: `code_bss`, `date` and the API columns of
      the requested fields that exist. */
  function LevelKeep(columns: seq<string>, fields: seq<string>): (keep: set<string>)
    ensures forall c :: c in keep <==> c == "code_bss" || c == "date" || (c in columns && exists f :: f in fields && ApiName(f) == c)
  {
    {"code_bss", "date"} + set f | f in fields && ApiName(f) in columns :: ApiName(f)
  }

  /** The kept level columns, in their original order. */
  function LevelColumns(df: Table, fields: seq<string>): (cs: seq<string>)
    ensures IsSubsequence(cs, df.columns)
    ensures forall c :: c in cs <==> c in df.columns && (c == "code_bss" || c == "date" || exists f :: f in fields && ApiName(f) == c)
  {
    FilterIn(df.columns, LevelKeep(df.columns, fields))
  }

  /** The level column filter: the kept columns in order, the API level
      column renamed to its user-facing name, every cell unchanged. */
  function FilterLevels(df: Table, fields: seq<string>): (r: Table)
    requires WellFormed(df)
    ensures WellFormed(r) && |r.rows| == |df.rows|
    ensures |r.columns| == |LevelColumns(df, fields)|
    ensures forall j :: 0 <= j < |r.columns| ==> r.columns[j] == UiName(LevelColumns(df, fields)[j])
    ensures forall i, j :: 0 <= i < |df.rows| && 0 <= j < |r.columns| ==> r.rows[i][r.columns[j]] == Get(df.rows[i], LevelColumns(df, fields)[j])
  {
    var s := Select(df, LevelKeep(df.columns, fields));
    assert UiLevel !in s.columns;
    var r := RenameColumns(s, UiName);
    forall i, j | 0 <= i < |df.rows| && 0 <= j < |r.columns| ensures r.rows[i][r.columns[j]] == Get(df.rows[i], s.columns[j]) {
      assert s.columns[j] in s.columns;
    }
    r
  }

  /** What the level filter keeps: the keys, and every requested field the
      table has, under its user-facing name; nothing else. */
  lemma FilterLevelsKeeps(df: Table, fields: seq<string>)
    requires WellFormed(df)
    ensures forall c :: c in df.columns && (c == "code_bss" || c == "date") ==> c in FilterLevels(df, fields).columns
    ensures forall f :: f in fields && ApiName(f) in df.columns ==> UiName(ApiName(f)) in FilterLevels(df, fields).columns
    ensures forall c :: c in FilterLevels(df, fields).columns ==> c == "code_bss" || c == "date" || exists f :: f in fields && UiName(ApiName(f)) == c
  {
    var cs := LevelColumns(df, fields);
    var r := FilterLevels(df, fields);
    forall c | c in cs ensures UiName(c) in r.columns {
      var j :| 0 <= j < |cs| && cs[j] == c;
      assert r.columns[j] == UiName(c);
    }
    forall c | c in df.columns && (c == "code_bss" || c == "date") ensures c in r.columns {
      assert c in cs && UiName(c) == c;
    }
    forall f | f in fields && ApiName(f) in df.columns ensures UiName(ApiName(f)) in r.columns {
      assert ApiName(f) in cs;
    }
    forall c | c in r.columns ensures c == "code_bss" || c == "date" || exists f :: f in fields && UiName(ApiName(f)) == c {
      var j :| 0 <= j < |r.columns| && r.columns[j] == c;
      assert cs[j] in cs;
    }
  }

  /** The columns whose name mentions a date, ignoring case. */
  function DateColumns(columns: seq<string>): (ds: seq<string>)
    ensures IsSubsequence(ds, columns)
    ensures forall c :: c in ds <==> c in columns && Contains(ToLower(c), "date")
  {
    FilterIn(columns, set c | c in columns && Contains(ToLower(c), "date"))
  }

  /** `_get_chroniques_data`: the fetched level table; without a `date`
      column, one is made from the first column whose name mentions a date. */
  function LevelsData(df: Table): (r: Table)
    requires WellFormed(df)
    ensures WellFormed(r)
    ensures IsEmpty(df) ==> r == Empty
    ensures !IsEmpty(df) ==> |r.rows| == |df.rows|
    ensures !IsEmpty(df) && "date" in df.columns ==> r == df
    ensures !IsEmpty(df) && "date" !in df.columns && |DateColumns(df.columns)| == 0 ==> r == df
    ensures !IsEmpty(df) && "date" !in df.columns && |DateColumns(df.columns)| > 0 ==>
              r.columns == df.columns + ["date"] &&
              forall i :: 0 <= i < |df.rows| ==> r.rows[i]["date"] == ToDate(Get(df.rows[i], DateColumns(df.columns)[0]))
  {
    if IsEmpty(df) then Empty
    else if "date" in df.columns then df
    else
      var ds := DateColumns(df.columns);
      if |ds| == 0 then df
      else SetColumn(df, "date", seq(|df.rows|, i requires 0 <= i < |df.rows| => ToDate(Get(df.rows[i], ds[0]))))
  }

  // ---------------------------------------------------------------------
  // The (station, day) grid

  /** `pd.date_range(start, end, freq='D').date`: the days of the instants
      `start`, `start` + one day, ... up to `end`. */
  function DayCount(start: int, end: int): nat {
    if end < start then 0 else (end - start) / SecondsPerDay + 1
  }

  function Days(start: int, end: int): (ds: seq<int>)
    ensures |ds| == DayCount(start, end)
    ensures forall k :: 0 <= k < |ds| ==> ds[k] == DayOf(start) + k
  {
    seq(DayCount(start, end), k requires 0 <= k < DayCount(start, end) => DayOf(start) + k)
  }

  /** A day is in the range exactly when stepping whole days from the start
      instant reaches it without passing the end instant. */
  lemma DaysMembers(start: int, end: int, d: int)
    ensures d in Days(start, end) <==> DayOf(start) <= d && start + (d - DayOf(start)) * SecondsPerDay <= end
  {
    var ds := Days(start, end);
    var k := d - DayOf(start);
    if d in ds {
      var i :| 0 <= i < |ds| && ds[i] == d;
      assert i == k;
      assert k <= (end - start) / SecondsPerDay;
      assert k * SecondsPerDay <= ((end - start) / SecondsPerDay) * SecondsPerDay;
    }
    if 0 <= k && start + k * SecondsPerDay <= end {
      assert k * SecondsPerDay <= end - start;
      assert k <= (end - start) / SecondsPerDay;
      assert ds[k] == d;
    }
  }

  /** The grid's stations: the requested codes, or without any the station
      table's codes; each once. */
  function GridCodes(stations: Table, requested: seq<Value>): (codes: seq<Value>)
    ensures Distinct(codes)
    ensures |requested| > 0 ==> forall c :: c in codes <==> c in requested
    ensures |requested| == 0 ==> forall c :: c in codes <==> c in Cells(stations.rows, "code_bss")
  {
    if |requested| > 0 then Dedup(requested) else Dedup(Cells(stations.rows, "code_bss"))
  }

  /** The grid row of one station on one day. */
  function GridCell(c: Value, d: int): Row {
    map["code_bss" := c, "date" := Day(d)]
  }

  function StationDays(c: Value, days: seq<int>): (rows: seq<Row>)
    ensures |rows| == |days|
    ensures forall k :: 0 <= k < |days| ==> rows[k] == GridCell(c, days[k])
  {
    seq(|days|, k requires 0 <= k < |days| => GridCell(c, days[k]))
  }

  /** The cartesian product `itertools.product(codes, days)`: station-major,
      one row per (station, day). */
  function GridRows(codes: seq<Value>, days: seq<int>): (rows: seq<Row>)
    ensures |rows| == |codes| * |days|
    ensures forall p :: 0 <= p < |rows| ==> IsGridCell(rows[p], codes, days)
    decreases |codes|
  {
    if |codes| == 0 then []
    else
      var rest := GridRows(codes[1..], days);
      assert |codes| * |days| == |days| + |codes[1..]| * |days|;
      var rows := StationDays(codes[0], days) + rest;
      assert forall p :: |days| <= p < |rows| ==> rows[p] == rest[p - |days|];
      rows
  }

  /** A row of the grid over `codes` and `days`. */
  predicate IsGridCell(r: Row, codes: seq<Value>, days: seq<int>) {
    && "code_bss" in r && "date" in r && r["date"].Day?
    && r["code_bss"] in codes && r["date"].d in days
    && r == GridCell(r["code_bss"], r["date"].d)
  }

  /** The grid holds a (station, day) pair exactly when the station and the
      day are among its inputs. */
  lemma {:induction false} GridRowsMembers(codes: seq<Value>, days: seq<int>, c: Value, d: int)
    ensures GridCell(c, d) in GridRows(codes, days) <==> c in codes && d in days
    decreases |codes|
  {
    if |codes| > 0 {
      GridRowsMembers(codes[1..], days, c, d);
      var head := StationDays(codes[0], days);
      assert GridRows(codes, days) == head + GridRows(codes[1..], days);
      if d in days {
        var k :| 0 <= k < |days| && days[k] == d;
        if c == codes[0] {
          assert head[k] == GridCell(c, d);
        }
      }
      if GridCell(c, d) in head {
        var k :| 0 <= k < |days| && head[k] == GridCell(c, d);
        assert GridCell(c, d)["date"] == Day(days[k]);
      }
      assert codes == [codes[0]] + codes[1..];
    }
  }

  /** With distinct stations and distinct days no row repeats. */
  lemma {:induction false} GridRowsDistinct(codes: seq<Value>, days: seq<int>)
    requires Distinct(codes) && Distinct(days)
    ensures Distinct(GridRows(codes, days))
    decreases |codes|
  {
    if |codes| > 0 {
      var head := StationDays(codes[0], days);
      var rest := GridRows(codes[1..], days);
      GridRowsDistinct(codes[1..], days);
      forall a, b | 0 <= a < b < |head| ensures head[a] != head[b] {
        assert head[a]["date"] == Day(days[a]);
        assert head[b]["date"] == Day(days[b]);
      }
      forall x | x in head ensures x !in rest {
        var k :| 0 <= k < |head| && head[k] == x;
        assert codes[0] !in codes[1..];
        GridRowsMembers(codes[1..], days, codes[0], days[k]);
      }
      DistinctConcat(head, rest);
    }
  }

  function Grid(codes: seq<Value>, days: seq<int>): (g: Table)
    ensures WellFormed(g) && g.columns == ["code_bss", "date"]
    ensures |g.rows| == |codes| * |days|
  {
    var rows := GridRows(codes, days);
    assert forall p :: 0 <= p < |rows| ==> IsGridCell(rows[p], codes, days);
    Table(["code_bss", "date"], rows)
  }

  /** The grid holds each (station, day) pair of its inputs once: with
      distinct stations and distinct days no two rows share a key. */
  lemma GridUnique(codes: seq<Value>, days: seq<int>)
    requires Distinct(codes) && Distinct(days)
    ensures UniqueKeys(Grid(codes, days), ["code_bss", "date"])
  {
    var rows := GridRows(codes, days);
    var ks := RowKeys(rows, ["code_bss", "date"]);
    GridRowsDistinct(codes, days);
    forall p, q | 0 <= p < q < |ks| ensures ks[p] != ks[q] {
      assert IsGridCell(rows[p], codes, days) && IsGridCell(rows[q], codes, days);
      assert rows[p] != rows[q];
      assert ks[p] == [rows[p]["code_bss"], rows[p]["date"]];
      assert ks[q] == [rows[q]["code_bss"], rows[q]["date"]];
    }
  }

  const GridKeys: seq<string> := ["code_bss", "date"]

  /** `_create_date_station_grid`: the grid of the chosen stations over the
      days of the range, left-joined with the station attributes when there
      are any. Without requested codes the station table must name its
      stations (`KeyError` otherwise). */
  function CreateGrid(stations: Table, start: int, end: int, requested: seq<Value>): (r: Result<Table>)
    requires WellFormed(stations)
    ensures r.Failure? <==> || (!IsEmpty(stations) && "code_bss" !in stations.columns)
                            || (|requested| == 0 && "code_bss" !in stations.columns)
                            || (!IsEmpty(stations) && !Distinct(JoinNames(Grid(GridCodes(stations, requested), Days(start, end)), stations, ["code_bss"], "_x", "_y")))
    ensures r.Success? ==> WellFormed(r.value) && |r.value.columns| >= 2
    ensures r.Success? && "date" !in stations.columns ==> r.value.columns[..2] == GridKeys
    ensures r.Success? ==> |r.value.rows| >= |GridCodes(stations, requested)| * DayCount(start, end)
    ensures IsEmpty(stations) && |requested| > 0 ==> r == Success(Grid(GridCodes(stations, requested), Days(start, end)))
  {
    if |requested| == 0 && "code_bss" !in stations.columns then Failure("KeyError: code_bss")
    else
      var g := Grid(GridCodes(stations, requested), Days(start, end));
      if IsEmpty(stations) then Success(g)
      else
        JoinNamesKeepKeys(g, stations, ["code_bss"], "_x", "_y");
        var r := LeftJoin(g, stations, ["code_bss"], "_x", "_y");
        assert (exists c :: c in ["code_bss"] && (c !in g.columns || c !in stations.columns)) <==> "code_bss" !in stations.columns by {
          assert "code_bss" in g.columns;
        }
        assert "_x" != "";
        if r.Success? && "date" !in stations.columns then
          assert r.value.columns[..2] == GridKeys;
          r
        else r
  }

  lemma DaysDistinct(start: int, end: int)
    ensures Distinct(Days(start, end))
  {
  }

  /** With one attribute row per station (and no attribute called `date`),
      the joined grid keeps exactly one row per (station, day) pair, with the
      bare grid's keys in the bare grid's order. */
  lemma CreateGridKeys(stations: Table, start: int, end: int, requested: seq<Value>)
    requires WellFormed(stations)
    requires "code_bss" in stations.columns || (IsEmpty(stations) && |requested| > 0)
    requires UniqueKeys(stations, ["code_bss"]) && "date" !in stations.columns
    ensures CreateGrid(stations, start, end, requested).Success?
    ensures |CreateGrid(stations, start, end, requested).value.rows| == |GridCodes(stations, requested)| * DayCount(start, end)
    ensures RowKeys(CreateGrid(stations, start, end, requested).value.rows, GridKeys)
         == RowKeys(Grid(GridCodes(stations, requested), Days(start, end)).rows, GridKeys)
    ensures UniqueKeys(CreateGrid(stations, start, end, requested).value, GridKeys)
  {
    var g := Grid(GridCodes(stations, requested), Days(start, end));
    DaysDistinct(start, end);
    GridUnique(GridCodes(stations, requested), Days(start, end));
    if !IsEmpty(stations) {
      assert CreateGrid(stations, start, end, requested) == LeftJoin(g, stations, ["code_bss"], "_x", "_y");
      GridJoinKeys(g, stations);
    }
  }

  /** Joining station attributes with one row per station onto a grid keeps
      the grid's rows and keys. */
  lemma GridJoinKeys(g: Table, stations: Table)
    requires WellFormed(g) && WellFormed(stations) && g.columns == GridKeys
    requires "code_bss" in stations.columns
    requires UniqueKeys(stations, ["code_bss"]) && "date" !in stations.columns
    ensures LeftJoin(g, stations, ["code_bss"], "_x", "_y").Success?
    ensures |LeftJoin(g, stations, ["code_bss"], "_x", "_y").value.rows| == |g.rows|
    ensures RowKeys(LeftJoin(g, stations, ["code_bss"], "_x", "_y").value.rows, GridKeys) == RowKeys(g.rows, GridKeys)
  {
    GridJoinable(g, stations);
    var r := LeftJoin(g, stations, ["code_bss"], "_x", "_y").value;
    LeftJoinKeepsColumn(g, stations, ["code_bss"], "_x", "_y", 0);
    LeftJoinKeepsColumn(g, stations, ["code_bss"], "_x", "_y", 1);
    RowKeysPair(r.rows, g.rows, "code_bss", "date");
  }

  /** Station attributes without a `date` column merge onto the grid: the
      only shared column is the key, and the attribute names follow the two
      grid keys without repeating them. */
  lemma GridJoinable(g: Table, stations: Table)
    requires WellFormed(stations) && g.columns == GridKeys
    requires "code_bss" in stations.columns && "date" !in stations.columns
    ensures Joinable(g, stations, ["code_bss"], "_x", "_y")
  {
    var keys := ["code_bss"];
    var rc := RightColumns(stations, keys);
    assert Overlap(g, stations, keys) == {};
    FilterInDistinct(stations.columns, set c | c in stations.columns && c !in keys);
    DistinctConcat(GridKeys, rc);
    assert Suffixed(g.columns, {}, "_x") == GridKeys;
    assert Suffixed(rc, {}, "_y") == rc;
  }

  // ---------------------------------------------------------------------
  // Daily collapse of the level readings and their merge into the grid

  /** pandas' `is_numeric_dtype` on a column: every present cell is a number. */
  predicate NumericColumn(t: Table, c: string) {
    forall i :: 0 <= i < |t.rows| ==> Get(t.rows[i], c).Num? || Get(t.rows[i], c).Null?
  }

  /** The columns other than the two keys, in order. */
  function ValueColumns(t: Table): (cs: seq<string>)
    ensures IsSubsequence(cs, t.columns)
    ensures forall c :: c in cs <==> c in t.columns && c != "code_bss" && c != "date"
  {
    FilterIn(t.columns, ColumnSet(t) - {"code_bss", "date"})
  }

  /** The daily aggregate of each value column: the mean of a numeric
      column, the first present value of any other. */
  function CollapseSpecs(t: Table): (specs: seq<AggSpec>)
    ensures SpecColumns(specs) == ValueColumns(t)
    ensures forall j :: 0 <= j < |specs| ==> specs[j].fn == if NumericColumn(t, specs[j].col) then Mean else First
  {
    var cs := ValueColumns(t);
    seq(|cs|, j requires 0 <= j < |cs| => AggSpec(cs[j], if NumericColumn(t, cs[j]) then Mean else First))
  }

  lemma CollapseValid(t: Table)
    requires WellFormed(t) && "code_bss" in t.columns && "date" in t.columns
    ensures ValidGrouping(t, GridKeys, CollapseSpecs(t))
  {
    var cs := ValueColumns(t);
    FilterInDistinct(t.columns, ColumnSet(t) - {"code_bss", "date"});
    DistinctConcat(GridKeys, cs);
  }

  /** `groupby(['code_bss', 'date'], as_index=False).agg(...)`, always
      performed: one row per station and day that has readings. A missing
      key column is pandas' `KeyError`. */
  function Collapse(t: Table): (r: Result<Table>)
    requires WellFormed(t)
    ensures r.Failure? <==> "code_bss" !in t.columns || "date" !in t.columns
    ensures r.Success? ==> WellFormed(r.value) && r.value.columns == GridKeys + ValueColumns(t)
    ensures r.Success? ==> UniqueKeys(r.value, GridKeys)
    ensures r.Success? ==> forall k :: k in RowKeys(r.value.rows, GridKeys) <==> Complete(k) && k in RowKeys(t.rows, GridKeys)
  {
    if "code_bss" !in t.columns || "date" !in t.columns then Failure("KeyError: code_bss, date")
    else
      CollapseValid(t);
      GroupByKeys(t, GridKeys, CollapseSpecs(t));
      Success(GroupBy(t, GridKeys, CollapseSpecs(t)))
  }

  /** Each collapsed cell is its column's daily aggregate over the readings
      of that station and day. */
  lemma CollapseValues(t: Table, i: int, j: int)
    requires WellFormed(t) && "code_bss" in t.columns && "date" in t.columns
    requires 0 <= i < |GroupKeys(t.rows, GridKeys)| && 0 <= j < |ValueColumns(t)|
    ensures |Collapse(t).value.rows| == |GroupKeys(t.rows, GridKeys)|
    ensures var c := ValueColumns(t)[j];
            var day := Members(t.rows, GridKeys, GroupKeys(t.rows, GridKeys)[i]);
            Collapse(t).value.rows[i][c] == Agg(if NumericColumn(t, c) then Mean else First, Cells(day, c))
  {
    CollapseValid(t);
    GroupByValues(t, GridKeys, CollapseSpecs(t), i, j);
  }

  /** The collapse as the builder writes it: skipped when the readings have
      no column besides the keys. */
  function CollapseAsWritten(t: Table): (r: Result<Table>)
    requires WellFormed(t)
    ensures |ValueColumns(t)| == 0 ==> r == Success(t)
    ensures |ValueColumns(t)| > 0 ==> r == Collapse(t)
  {
    if |CollapseSpecs(t)| == 0 then Success(t) else Collapse(t)
  }

  /** `df_base.merge(df_chroniques, on=['code_bss', 'date'], how='left',
      suffixes=('', '_chronique'))`. */
  function MergeLevels(base: Table, levels: Table): (r: Result<Table>)
    requires WellFormed(base) && WellFormed(levels)
    ensures r.Success? ==> WellFormed(r.value) && |r.value.rows| >= |base.rows|
    ensures r.Success? ==> |r.value.columns| >= |base.columns| && r.value.columns[..|base.columns|] == base.columns
    ensures r.Success? <==> Joinable(base, levels, GridKeys, "", "_chronique")
  {
    var r := LeftJoin(base, levels, GridKeys, "", "_chronique");
    if r.Success? then
      assert r.value.columns[..|base.columns|] == base.columns by {
        var ov := Overlap(base, levels, GridKeys);
        forall j | 0 <= j < |base.columns| ensures r.value.columns[j] == base.columns[j] {
          assert base.columns[j] + "" == base.columns[j];
        }
      }
      r
    else r
  }

  /** Against daily-collapsed readings the merge keeps the grid: one output
      row per grid row, with the grid's keys. */
  lemma MergeLevelsKeepsGrid(base: Table, levels: Table)
    requires WellFormed(base) && WellFormed(levels)
    requires Joinable(base, levels, GridKeys, "", "_chronique")
    requires UniqueKeys(levels, GridKeys)
    ensures MergeLevels(base, levels).Success?
    ensures |MergeLevels(base, levels).value.rows| == |base.rows|
    ensures RowKeys(MergeLevels(base, levels).value.rows, GridKeys) == RowKeys(base.rows, GridKeys)
  {
    LeftJoinUniqueRight(base, levels, GridKeys, "", "_chronique");
    LeftJoinKeys(base, levels, GridKeys, "", "_chronique");
  }

  /** As written, readings with only the key columns are merged uncollapsed,
      so two readings of a station on one day repeat that grid row. */
  lemma CollapseAsWrittenRepeatsRows(base: Table, levels: Table, i: int, a: int, b: int)
    requires WellFormed(base) && WellFormed(levels)
    requires levels.columns == GridKeys && "code_bss" in base.columns && "date" in base.columns
    requires 0 <= i < |base.rows| && 0 <= a < b < |levels.rows|
    requires KeyOf(levels.rows[a], GridKeys) == KeyOf(base.rows[i], GridKeys) == KeyOf(levels.rows[b], GridKeys)
    ensures CollapseAsWritten(levels) == Success(levels)
    ensures MergeLevels(base, levels).Success? && |MergeLevels(base, levels).value.rows| > |base.rows|
  {
    assert ValueColumns(levels) == [] by {
      assert forall c :: c in ValueColumns(levels) ==> c in levels.columns && c != "code_bss" && c != "date";
    }
    assert RightColumns(levels, GridKeys) == [] by {
      assert forall c :: c in levels.columns ==> c in GridKeys;
    }
    assert JoinNames(base, levels, GridKeys, "", "_chronique") == Suffixed(base.columns, Overlap(base, levels, GridKeys), "");
    assert Distinct(JoinNames(base, levels, GridKeys, "", "_chronique")) by {
      forall j | 0 <= j < |base.columns| ensures JoinNames(base, levels, GridKeys, "", "_chronique")[j] == base.columns[j] {
        assert base.columns[j] + "" == base.columns[j];
      }
    }
    LeftJoinDuplicates(base, levels, GridKeys, "", "_chronique", i, a, b);
  }

  // ---------------------------------------------------------------------
  // Weather

  const LocationKeys: seq<string> := ["code_bss", "latitude", "longitude"]

  /** The distinct (station, latitude, longitude) triples of the table that
      have both coordinates, in order of first occurrence. */
  predicate HasPosition(k: seq<Value>) {
    |k| == 3 && !k[1].Null? && !k[2].Null?
  }

  function ValidTriples(df: Table): (vt: seq<seq<Value>>)
    ensures Distinct(vt)
    ensures forall k :: k in vt <==> k in RowKeys(df.rows, LocationKeys) && HasPosition(k)
    ensures forall i :: 0 <= i < |vt| ==> |vt[i]| == 3
  {
    var rk := RowKeys(df.rows, LocationKeys);
    var keep := set k | k in rk && HasPosition(k);
    var vt := Dedup(FilterIn(rk, keep));
    assert forall i :: 0 <= i < |vt| ==> vt[i] in rk;
    vt
  }

  /** The location the weather client is asked for. */
  function LocationOf(k: seq<Value>): Object
    requires |k| == 3
  {
    [("code_station", k[0]), ("latitude", k[1]), ("longitude", k[2])]
  }

  /** The locations `_add_meteo_data` asks the weather client for, one per
      distinct station position with both coordinates; reading the station
      code of a table without one is a `KeyError`. */
  function MeteoLocations(df: Table): (r: Result<seq<Object>>)
    requires WellFormed(df)
    ensures r.Failure? <==> |ValidTriples(df)| > 0 && "code_bss" !in df.columns
    ensures r.Success? ==> |r.value| == |ValidTriples(df)|
    ensures r.Success? ==> forall i :: 0 <= i < |r.value| ==> r.value[i] == LocationOf(ValidTriples(df)[i])
  {
    var vt := ValidTriples(df);
    if |vt| > 0 && "code_bss" !in df.columns then Failure("KeyError: code_bss")
    else Success(seq(|vt|, i requires 0 <= i < |vt| => LocationOf(vt[i])))
  }

  /** What the weather client hands back: a table, or the exception it
      raised, which may carry the data fetched before the failure. */
  datatype WeatherResult = Fetched(table: Table) | Raised(msg: string, partial: Option<Table>)

  /** `get_weather_batch(locations, date_start, date_end, variables)`. */
  type WeatherSource = (seq<Object>, int, int, seq<string>) -> WeatherResult

  ghost predicate GoodWeather(weather: WeatherSource) {
    forall locs, start, end, vars ::
      && (weather(locs, start, end, vars).Fetched? ==> WellFormed(weather(locs, start, end, vars).table))
      && (weather(locs, start, end, vars).Raised? && weather(locs, start, end, vars).partial.Some?
          ==> WellFormed(weather(locs, start, end, vars).partial.value))
  }

  /** The weather table made ready for the merge: `code_station` renamed to
      `code_bss`, dates as calendar days, coordinates dropped. Renaming onto
      an existing `code_bss` would leave a repeated merge key, which pandas
      rejects. */
  function PrepareWeather(m: Table): (r: Result<Table>)
    requires WellFormed(m)
    ensures r.Failure? <==> "code_station" in m.columns && "code_bss" in m.columns
    ensures r.Success? ==> WellFormed(r.value) && |r.value.rows| == |m.rows|
    ensures r.Success? ==> "latitude" !in r.value.columns && "longitude" !in r.value.columns
    ensures r.Success? ==> ("code_bss" in r.value.columns <==> "code_station" in m.columns || "code_bss" in m.columns)
    ensures r.Success? ==> ("date" in r.value.columns <==> "date" in m.columns)
  {
    if "code_station" in m.columns && "code_bss" in m.columns then Failure("ValueError: code_bss is not unique")
    else
      var renamed := Rename(m, "code_station", "code_bss");
      RenameMembers(m, "code_station", "code_bss");
      Success(Drop(MapColumn(renamed, "date", ToDate), {"latitude", "longitude"}))
  }

  /** The dataset with its dates as calendar days. */
  function Dated(df: Table): (r: Table)
    requires WellFormed(df)
    ensures WellFormed(r) && r.columns == df.columns && |r.rows| == |df.rows|
    ensures forall i :: 0 <= i < |df.rows| ==> "date" in df.rows[i] ==> r.rows[i]["date"] == ToDate(df.rows[i]["date"])
  {
    MapColumn(df, "date", ToDate)
  }

  /** `df.merge(df_meteo.drop(columns=['latitude', 'longitude']),
      on=['code_bss', 'date'], how='left')` after the preparation above. */
  function MergeWeather(df: Table, m: Table): (r: Result<Table>)
    requires WellFormed(df) && WellFormed(m)
    ensures r.Success? ==> PrepareWeather(m).Success?
    ensures PrepareWeather(m).Success? ==> r == LeftJoin(Dated(df), PrepareWeather(m).value, GridKeys, "_x", "_y")
    ensures r.Success? ==> WellFormed(r.value) && |r.value.rows| >= |df.rows|
  {
    match PrepareWeather(m)
    case Failure(e) => Failure(e)
    case Success(w) => LeftJoin(Dated(df), w, GridKeys, "_x", "_y")
  }

  /** With one weather row per station and day, the merge keeps every row of
      the dataset, in order and with its keys, and gives it the weather of
      its own station and day (missing when there is none). */
  lemma MergeWeatherKeepsRows(df: Table, m: Table)
    requires WellFormed(df) && WellFormed(m)
    requires MergeWeather(df, m).Success?
    requires UniqueKeys(PrepareWeather(m).value, GridKeys)
    ensures |MergeWeather(df, m).value.rows| == |df.rows|
    ensures RowKeys(MergeWeather(df, m).value.rows, GridKeys) == RowKeys(Dated(df).rows, GridKeys)
    ensures var w := PrepareWeather(m).value;
            var names := JoinNames(Dated(df), w, GridKeys, "_x", "_y");
            forall i, j :: 0 <= i < |df.rows| && 0 <= j < |RightColumns(w, GridKeys)| ==>
              MergeWeather(df, m).value.rows[i][names[|df.columns| + j]]
              == RightCell(MatchOf(w, GridKeys, KeyOf(Dated(df).rows[i], GridKeys)), RightColumns(w, GridKeys)[j])
  {
    var w := PrepareWeather(m).value;
    var d := Dated(df);
    var r := LeftJoin(d, w, GridKeys, "_x", "_y");
    assert MergeWeather(df, m) == r;
    assert |r.value.rows| == |df.rows| && RowKeys(r.value.rows, GridKeys) == RowKeys(d.rows, GridKeys) by {
      LeftJoinUniqueRight(d, w, GridKeys, "_x", "_y");
      LeftJoinKeys(d, w, GridKeys, "_x", "_y");
    }
    MergeWeatherCells(df, m);
  }

  /** Each merged row carries the weather of its own station and day. */
  lemma MergeWeatherCells(df: Table, m: Table)
    requires WellFormed(df) && WellFormed(m)
    requires MergeWeather(df, m).Success?
    requires UniqueKeys(PrepareWeather(m).value, GridKeys)
    ensures var w := PrepareWeather(m).value;
            var names := JoinNames(Dated(df), w, GridKeys, "_x", "_y");
            forall i, j :: 0 <= i < |df.rows| && 0 <= j < |RightColumns(w, GridKeys)| ==>
              MergeWeather(df, m).value.rows[i][names[|df.columns| + j]]
              == RightCell(MatchOf(w, GridKeys, KeyOf(Dated(df).rows[i], GridKeys)), RightColumns(w, GridKeys)[j])
  {
    LeftJoinUniqueRight(Dated(df), PrepareWeather(m).value, GridKeys, "_x", "_y");
  }

  /** The weather step's outcome: the merged table, or the exception the
      step ends in, with any partial weather data it carries. */
  datatype MeteoOutcome = Merged(table: Table) | MeteoError(msg: string, partial: Option<Table>)

  /** `_add_meteo_data`: the dataset unchanged when it has no coordinates,
      no located station or no weather came back; otherwise merged with the
      weather. */
  function AddMeteo(df: Table, start: int, end: int, vars: seq<string>, weather: WeatherSource): (r: MeteoOutcome)
    requires WellFormed(df) && GoodWeather(weather)
    ensures "latitude" !in df.columns || "longitude" !in df.columns ==> r == Merged(df)
    ensures "latitude" in df.columns && "longitude" in df.columns && |ValidTriples(df)| == 0 ==> r == Merged(df)
    ensures r.Merged? ==> WellFormed(r.table) && |r.table.rows| >= |df.rows|
    ensures "latitude" in df.columns && "longitude" in df.columns && "code_bss" in df.columns && |ValidTriples(df)| > 0 ==>
              var w := weather(MeteoLocations(df).value, start, end, vars);
              && (w.Raised? ==> r == MeteoError(w.msg, w.partial))
              && (w.Fetched? && IsEmpty(w.table) ==> r == Merged(df))
              && (w.Fetched? && !IsEmpty(w.table) ==> (r.Merged? <==> MergeWeather(df, w.table).Success?))
              && (w.Fetched? && !IsEmpty(w.table) && r.Merged? ==> r.table == MergeWeather(df, w.table).value)
    ensures r.MeteoError? && r.partial.Some? ==> WellFormed(r.partial.value)
  {
    if "latitude" !in df.columns || "longitude" !in df.columns then Merged(df)
    else if |ValidTriples(df)| == 0 then Merged(df)
    else
      match MeteoLocations(df)
      case Failure(e) => MeteoError(e, None)
      case Success(locs) =>
        match weather(locs, start, end, vars)
        case Raised(msg, partial) => MeteoError(msg, partial)
        case Fetched(m) =>
          if IsEmpty(m) then Merged(df)
          else
            match MergeWeather(df, m)
            case Failure(e) => MeteoError(e, None)
            case Success(t) => Merged(t)
  }

  /** The local ERA5 extraction as the builder's weather source: its errors
      carry no partial data. */
  function LocalWeather(f: Era5Local.LocalFile, show: Value -> string, sat: real -> real): (w: WeatherSource)
    requires Era5Local.GoodFile(f)
    ensures GoodWeather(w)
    ensures forall locs, start, end, vars ::
              w(locs, start, end, vars) == match Era5Local.GetWeatherBatch(f, locs, Some(vars), DayOf(start), DayOf(end), show, sat)
                                           case Success(t) => Fetched(t)
                                           case Failure(e) => Raised(e, None)
  {
    (locs: seq<Object>, start: int, end: int, vars: seq<string>) =>
      match Era5Local.GetWeatherBatch(f, locs, Some(vars), DayOf(start), DayOf(end), show, sat)
      case Success(t) => Fetched(t)
      case Failure(e) => Raised(e, None)
  }

  lemma LocationLocated(k: seq<Value>)
    requires |k| == 3 && k[1].Num? && k[2].Num?
    ensures Era5Local.Located(LocationOf(k))
  {
    var l := LocationOf(k);
    assert l[1].0 == "latitude" && l[2].0 == "longitude";
    assert l[..2][..1] == [("code_station", k[0])];
  }

  /** Stations whose coordinates went through `to_numeric` are asked for at
      numeric positions, so every location passes the local client's
      coordinate check. */
  lemma MeteoLocationsLocated(df: Table)
    requires WellFormed(df) && MeteoLocations(df).Success?
    requires forall i :: 0 <= i < |df.rows| ==> NumericOrMissing(Get(df.rows[i], "latitude")) && NumericOrMissing(Get(df.rows[i], "longitude"))
    ensures forall l :: l in MeteoLocations(df).value ==> Era5Local.Located(l)
  {
    var locs := MeteoLocations(df).value;
    var vt := ValidTriples(df);
    var rk := RowKeys(df.rows, LocationKeys);
    forall l: Object | l in locs ensures Era5Local.Located(l) {
      var i :| 0 <= i < |locs| && locs[i] == l;
      var k := vt[i];
      assert k in rk && HasPosition(k);
      var p :| 0 <= p < |df.rows| && rk[p] == k;
      assert k[1] == Get(df.rows[p], "latitude") && k[2] == Get(df.rows[p], "longitude");
      LocationLocated(k);
    }
  }

  /** A cell `pd.to_numeric(errors='coerce')` can produce. */
  predicate NumericOrMissing(v: Value) {
    v.Num? || v.Null?
  }

  // ---------------------------------------------------------------------
  // Station table when no attributes are fetched

  function Texts(codes: seq<string>): (vs: seq<Value>)
    ensures |vs| == |codes|
    ensures forall i :: 0 <= i < |codes| ==> vs[i] == Text(codes[i])
  {
    seq(|codes|, i requires 0 <= i < |codes| => Text(codes[i]))
  }

  /** `pd.DataFrame({'code_bss': codes_bss})` as the builder writes it: one
      row per requested code, repeats included. */
  function StationFrameAsWritten(codes: seq<string>): (t: Table)
    ensures WellFormed(t) && t.columns == ["code_bss"] && |t.rows| == |codes|
    ensures forall i :: 0 <= i < |codes| ==> t.rows[i] == map["code_bss" := Text(codes[i])]
    ensures Cells(t.rows, "code_bss") == Texts(codes)
  {
    var t := SingleColumn("code_bss", Texts(codes));
    assert forall i :: 0 <= i < |codes| ==> Get(t.rows[i], "code_bss") == Text(codes[i]);
    t
  }

  /** The station table with each requested code once, as the grid has it. */
  function StationFrame(codes: seq<string>): (t: Table)
    ensures WellFormed(t) && t.columns == ["code_bss"]
    ensures forall v :: v in Cells(t.rows, "code_bss") <==> v in Texts(codes)
    ensures UniqueKeys(t, ["code_bss"])
  {
    var vs := Dedup(Texts(codes));
    var t := SingleColumn("code_bss", vs);
    assert forall i :: 0 <= i < |vs| ==> RowKeys(t.rows, ["code_bss"])[i] == [vs[i]];
    assert forall i :: 0 <= i < |vs| ==> Cells(t.rows, "code_bss")[i] == vs[i];
    t
  }

  /** The grid merge against a table holding only station codes succeeds. */
  lemma CodesOnlyJoin(st: Table, start: int, end: int, requested: seq<Value>)
    requires WellFormed(st) && st.columns == ["code_bss"] && |st.rows| > 0 && |requested| > 0
    ensures CreateGrid(st, start, end, requested)
         == LeftJoin(Grid(GridCodes(st, requested), Days(start, end)), st, ["code_bss"], "_x", "_y")
    ensures CreateGrid(st, start, end, requested).Success?
  {
    var g := Grid(GridCodes(st, requested), Days(start, end));
    assert RightColumns(st, ["code_bss"]) == [] by {
      assert forall c :: c in st.columns ==> c in ["code_bss"];
    }
    assert JoinNames(g, st, ["code_bss"], "_x", "_y") == ["code_bss", "date"];
  }

  /** Every chosen station has a grid row on the first day. */
  lemma GridHasStation(codes: seq<Value>, days: seq<int>, c: Value)
    requires c in codes && |days| > 0
    ensures exists i :: 0 <= i < |Grid(codes, days).rows| && KeyOf(Grid(codes, days).rows[i], ["code_bss"]) == [c]
  {
    var g := Grid(codes, days);
    GridRowsMembers(codes, days, c, days[0]);
    var i :| 0 <= i < |g.rows| && g.rows[i] == GridCell(c, days[0]);
    assert KeyOf(g.rows[i], ["code_bss"]) == [c];
  }

  /** As written, a code requested twice has two station rows, so the grid
      merge gives each of its days twice. */
  lemma StationFrameAsWrittenRepeatsRows(codes: seq<string>, start: int, end: int, a: int, b: int)
    requires 0 <= a < b < |codes| && codes[a] == codes[b]
    requires start <= end
    ensures var g := CreateGrid(StationFrameAsWritten(codes), start, end, Texts(codes));
            g.Success? && |g.value.rows| > |GridCodes(StationFrameAsWritten(codes), Texts(codes))| * DayCount(start, end)
  {
    var st := StationFrameAsWritten(codes);
    var codesG := GridCodes(st, Texts(codes));
    var days := Days(start, end);
    var g := Grid(codesG, days);
    CodesOnlyJoin(st, start, end, Texts(codes));
    var c := Text(codes[a]);
    assert c in codesG by {
      assert Texts(codes)[a] == c;
    }
    assert |days| > 0 by {
      assert (end - start) / SecondsPerDay >= 0;
    }
    GridHasStation(codesG, days, c);
    var i :| 0 <= i < |g.rows| && KeyOf(g.rows[i], ["code_bss"]) == [c];
    KeyOfSingle(st.rows[a], "code_bss");
    KeyOfSingle(st.rows[b], "code_bss");
    LeftJoinDuplicates(g, st, ["code_bss"], "_x", "_y", i, a, b);
    assert |g.rows| == |codesG| * DayCount(start, end);
  }

  /** With each code once the grid merge keeps one row per (station, day). */
  lemma StationFrameKeepsGrid(codes: seq<string>, start: int, end: int)
    ensures var g := CreateGrid(StationFrame(codes), start, end, Texts(codes));
            && g.Success?
            && |g.value.rows| == |Dedup(Texts(codes))| * DayCount(start, end)
            && UniqueKeys(g.value, GridKeys)
  {
    var st := StationFrame(codes);
    var keys := ["code_bss"];
    assert RightColumns(st, keys) == [] by {
      assert forall c :: c in st.columns ==> c in keys;
    }
    if |codes| > 0 {
      assert Texts(codes)[0] in Cells(st.rows, "code_bss");
    }
    if !IsEmpty(st) {
      assert JoinNames(Grid(GridCodes(st, Texts(codes)), Days(start, end)), st, keys, "_x", "_y") == ["code_bss", "date"];
    }
    CreateGridKeys(st, start, end, Texts(codes));
  }

  // ---------------------------------------------------------------------
  // The pipeline

  /** Which builder is meant: the code as written, or the code with both
      repeated-row defects fixed (each requested code once in the bare
      station table, the readings always collapsed to one row per station
      and day). */
  datatype Variant = AsWritten | Corrected

  /** The station table when no attributes are fetched: every requested
      code, repeats included as written, each once when corrected. */
  function CodesFrame(codes: seq<string>, v: Variant): (t: Table)
    ensures WellFormed(t) && t.columns == ["code_bss"]
    ensures forall x :: x in Cells(t.rows, "code_bss") <==> x in Texts(codes)
    ensures v == AsWritten ==> |t.rows| == |codes|
    ensures v == Corrected ==> UniqueKeys(t, ["code_bss"])
  {
    if v == AsWritten then StationFrameAsWritten(codes) else StationFrame(codes)
  }

  /** The daily collapse of the readings: skipped without value columns as
      written, always performed when corrected. */
  function CollapseWith(t: Table, v: Variant): (r: Result<Table>)
    requires WellFormed(t)
    ensures v == Corrected || |ValueColumns(t)| > 0 ==> r == Collapse(t)
    ensures v == AsWritten && |ValueColumns(t)| == 0 ==> r == Success(t)
  {
    if v == AsWritten then CollapseAsWritten(t) else Collapse(t)
  }

  /** The arguments of `build_dataset`; dates are instants in seconds, an
      absent list is the empty list. */
  datatype BuildRequest = BuildRequest(
    codes: seq<string>, start: int, end: int,
    includeStations: bool, includeLevels: bool, includeMeteo: bool,
    meteoVars: seq<string>, stationFields: seq<string>, levelFields: seq<string>)

  /** The data sources: station attributes and level readings from the
      hydrology API, weather from the reanalysis client. */
  datatype Sources = Sources(
    stations: seq<string> -> Table,
    levels: (seq<string>, int, int) -> Table,
    weather: WeatherSource)

  ghost predicate GoodSources(src: Sources) {
    && (forall codes :: WellFormed(src.stations(codes)))
    && (forall codes, start, end :: WellFormed(src.levels(codes, start, end)))
    && GoodWeather(src.weather)
  }

  /** How a build ends: the dataset; the `ValueError` of a rejected request;
      an exception before the weather step; or an exception of the weather
      step, with the dataset saved for recovery up to that point. */
  datatype Outcome =
    | Built(table: Table)
    | Rejected(msg: string)
    | Failed(msg: string)
    | WeatherFailed(msg: string, checkpoint: Table)

  /** Stations are fetched when their attributes or their coordinates are
      needed. */
  predicate NeedStations(req: BuildRequest) {
    req.includeStations || req.includeMeteo
  }

  /** Step 1: the station table, empty when the API knows none of them. */
  function StationStage(req: BuildRequest, src: Sources, v: Variant): (t: Table)
    requires WellFormed(src.stations(req.codes))
    ensures WellFormed(t)
    ensures NeedStations(req) && IsEmpty(StationsData(src.stations(req.codes))) ==> t == Empty
    ensures !NeedStations(req) ==> t == CodesFrame(req.codes, v)
    ensures NeedStations(req) && !IsEmpty(StationsData(src.stations(req.codes))) ==>
              t == FilterStations(StationsData(src.stations(req.codes)), req.includeMeteo, req.includeStations, req.stationFields)
  {
    if NeedStations(req) then
      var st := StationsData(src.stations(req.codes));
      if IsEmpty(st) then Empty else FilterStations(st, req.includeMeteo, req.includeStations, req.stationFields)
    else CodesFrame(req.codes, v)
  }

  /** Step 2a: the level readings with a `date` column, restricted to the
      requested fields when there are any. */
  function LevelStage(req: BuildRequest, src: Sources): (t: Table)
    requires WellFormed(src.levels(req.codes, req.start, req.end))
    ensures WellFormed(t)
    ensures var lv := LevelsData(src.levels(req.codes, req.start, req.end));
            && |t.rows| == |lv.rows|
            && (|req.levelFields| == 0 || IsEmpty(lv) ==> t == lv)
            && (|req.levelFields| > 0 && !IsEmpty(lv) ==>
                  && (forall c :: c in lv.columns && (c == "code_bss" || c == "date") ==> c in t.columns)
                  && (forall c :: c in t.columns ==> c == "code_bss" || c == "date" || exists f :: f in req.levelFields && UiName(ApiName(f)) == c))
  {
    var lv := LevelsData(src.levels(req.codes, req.start, req.end));
    if !IsEmpty(lv) && |req.levelFields| > 0 then
      FilterLevelsKeeps(lv, req.levelFields);
      FilterLevels(lv, req.levelFields)
    else lv
  }

  /** Step 2: the grid, with the daily level readings merged in when they
      are requested and there are any. */
  function BaseStage(req: BuildRequest, src: Sources, stations: Table, v: Variant): (r: Result<Table>)
    requires WellFormed(stations) && WellFormed(src.levels(req.codes, req.start, req.end))
    ensures r.Success? ==> WellFormed(r.value)
    ensures CreateGrid(stations, req.start, req.end, Texts(req.codes)).Failure? ==> r.Failure?
    ensures !req.includeLevels || IsEmpty(LevelStage(req, src)) ==> r == CreateGrid(stations, req.start, req.end, Texts(req.codes))
    ensures req.includeLevels && !IsEmpty(LevelStage(req, src)) && CreateGrid(stations, req.start, req.end, Texts(req.codes)).Success? ==>
              var c := CollapseWith(LevelStage(req, src), v);
              r == if c.Failure? then Failure(c.error)
                   else MergeLevels(CreateGrid(stations, req.start, req.end, Texts(req.codes)).value, c.value)
  {
    var grid := CreateGrid(stations, req.start, req.end, Texts(req.codes));
    if !req.includeLevels then grid
    else
      var lv := LevelStage(req, src);
      if IsEmpty(lv) then grid
      else
        match grid
        case Failure(e) => Failure(e)
        case Success(g) =>
          match CollapseWith(lv, v)
          case Failure(e) => Failure(e)
          case Success(c) => MergeLevels(g, c)
  }

  /** The variables asked of the weather client: the requested ones, or
      precipitation, temperature and evapotranspiration. */
  function MeteoVars(req: BuildRequest): seq<string> {
    if |req.meteoVars| > 0 then req.meteoVars else ["precipitation", "temperature", "evapotranspiration"]
  }

  /** The dataset saved when the weather step fails: the dataset before the
      step, merged with the partial weather data when the exception carries
      some and that merge goes through. */
  function Checkpoint(base: Table, partial: Option<Table>): (t: Table)
    requires WellFormed(base) && (partial.Some? ==> WellFormed(partial.value))
    ensures WellFormed(t) && |t.rows| >= |base.rows|
    ensures partial.None? || IsEmpty(partial.value) ==> t == base
    ensures partial.Some? && !IsEmpty(partial.value) && MergeWeather(base, partial.value).Success? ==>
              t == MergeWeather(base, partial.value).value
    ensures partial.Some? && !IsEmpty(partial.value) && MergeWeather(base, partial.value).Failure? ==> t == Dated(base)
  {
    if partial.Some? && !IsEmpty(partial.value) then
      match MergeWeather(base, partial.value)
      case Success(t) => t
      case Failure(_) => Dated(base)
    else base
  }

  /** With one weather row per station and day in the partial data, the
      checkpoint holds exactly the rows of the dataset, in order, each with
      its own station code. */
  lemma CheckpointKeepsRows(base: Table, partial: Option<Table>)
    requires WellFormed(base) && (partial.Some? ==> WellFormed(partial.value))
    requires partial.Some? && !IsEmpty(partial.value) && MergeWeather(base, partial.value).Success? ==>
               UniqueKeys(PrepareWeather(partial.value).value, GridKeys)
    ensures |Checkpoint(base, partial).rows| == |base.rows|
    ensures forall i :: 0 <= i < |base.rows| ==> Get(Checkpoint(base, partial).rows[i], "code_bss") == Get(base.rows[i], "code_bss")
  {
    var t := Checkpoint(base, partial);
    var d := Dated(base);
    assert forall i :: 0 <= i < |base.rows| ==> Get(d.rows[i], "code_bss") == Get(base.rows[i], "code_bss") by {
      forall i | 0 <= i < |base.rows| ensures Get(d.rows[i], "code_bss") == Get(base.rows[i], "code_bss") {
        assert d.rows[i].Keys == ColumnSet(d) && base.rows[i].Keys == ColumnSet(base);
      }
    }
    if partial.Some? && !IsEmpty(partial.value) && MergeWeather(base, partial.value).Success? {
      MergeWeatherKeepsRows(base, partial.value);
      forall i | 0 <= i < |base.rows| ensures Get(t.rows[i], "code_bss") == Get(d.rows[i], "code_bss") {
        assert KeyOf(t.rows[i], GridKeys)[0] == KeyOf(d.rows[i], GridKeys)[0] by {
          assert RowKeys(t.rows, GridKeys)[i] == RowKeys(d.rows, GridKeys)[i];
        }
      }
    }
  }

  /** When the partial weather data has one row per station and day and
      merges, each checkpoint row carries the partial weather of its own
      station and day, and is missing it when the partial data has none. */
  lemma CheckpointWeather(base: Table, partial: Table)
    requires WellFormed(base) && WellFormed(partial) && !IsEmpty(partial)
    requires MergeWeather(base, partial).Success? && UniqueKeys(PrepareWeather(partial).value, GridKeys)
    ensures var w := PrepareWeather(partial).value;
            var names := JoinNames(Dated(base), w, GridKeys, "_x", "_y");
            forall i, j :: 0 <= i < |base.rows| && 0 <= j < |RightColumns(w, GridKeys)| ==>
              Checkpoint(base, Some(partial)).rows[i][names[|base.columns| + j]]
              == RightCell(MatchOf(w, GridKeys, KeyOf(Dated(base).rows[i], GridKeys)), RightColumns(w, GridKeys)[j])
  {
    assert Checkpoint(base, Some(partial)) == MergeWeather(base, partial).value;
    MergeWeatherKeepsRows(base, partial);
  }

  /** Step 3: the weather, when requested and the dataset has coordinates. */
  function WeatherStage(req: BuildRequest, src: Sources, base: Table): (r: Outcome)
    requires WellFormed(base) && GoodWeather(src.weather)
    ensures r.Built? || r.WeatherFailed?
    ensures r.Built? ==> WellFormed(r.table) && |r.table.rows| >= |base.rows|
    ensures !req.includeMeteo || "latitude" !in base.columns ==> r == Built(base)
    ensures r.WeatherFailed? ==> req.includeMeteo && WellFormed(r.checkpoint) && |r.checkpoint.rows| >= |base.rows|
  {
    if req.includeMeteo && "latitude" in base.columns then
      match AddMeteo(base, req.start, req.end, MeteoVars(req), src.weather)
      case Merged(t) => Built(t)
      case MeteoError(msg, partial) => WeatherFailed(msg, Checkpoint(base, partial))
    else Built(base)
  }

  /** The coordinates were fetched only for the weather and are not wanted:
      some field list was given, weather was requested, and either no
      station attributes were or their list leaves out `latitude`. */
  predicate DropsCoordinates(req: BuildRequest) {
    && (|req.stationFields| > 0 || |req.levelFields| > 0 || |req.meteoVars| > 0)
    && req.includeMeteo
    && (!req.includeStations || (|req.stationFields| > 0 && "latitude" !in req.stationFields))
  }

  /** Which requests drop the coordinates: none without a field list or
      without weather, none when all station attributes are kept, none when
      the station fields name `latitude` (which then keeps `longitude` too);
      weather without station attributes and with some field list always
      drops them. */
  lemma DropsCoordinatesCases(req: BuildRequest)
    ensures |req.stationFields| == 0 && |req.levelFields| == 0 && |req.meteoVars| == 0 ==> !DropsCoordinates(req)
    ensures !req.includeMeteo ==> !DropsCoordinates(req)
    ensures req.includeStations && |req.stationFields| == 0 ==> !DropsCoordinates(req)
    ensures req.includeStations && "latitude" in req.stationFields ==> !DropsCoordinates(req)
    ensures req.includeMeteo && !req.includeStations && |req.meteoVars| > 0 ==> DropsCoordinates(req)
  {
  }

  /** Steps 4 and 5: sorted by station and date, coordinates dropped when
      they were fetched only for the weather. The rows are those of the
      input, sorted when there is a date column. */
  function Finish(req: BuildRequest, t: Table): (r: Table)
    requires WellFormed(t)
    ensures WellFormed(r) && |r.rows| == |t.rows|
    ensures multiset(RowKeys(r.rows, GridKeys)) == multiset(RowKeys(t.rows, GridKeys))
    ensures "date" in t.columns ==> Sorted(r.rows, GridKeys)
    ensures DropsCoordinates(req) ==> "latitude" !in r.columns && "longitude" !in r.columns
    ensures forall c :: c in r.columns <==> c in t.columns && !(DropsCoordinates(req) && (c == "latitude" || c == "longitude"))
  {
    var sorted := if !IsEmpty(t) && "date" in t.columns then SortValues(t, GridKeys) else t;
    SortedKeys(t, sorted);
    if DropsCoordinates(req) then
      var r := Drop(sorted, {"latitude", "longitude"});
      DropKeepsKeys(sorted, r);
      r
    else sorted
  }

  /** Reordering rows reorders their keys. */
  lemma RowKeysPermutation(a: seq<Row>, b: seq<Row>, keys: seq<string>)
    requires multiset(a) == multiset(b)
    ensures multiset(RowKeys(a, keys)) == multiset(RowKeys(b, keys))
  {
    var f := (r: Row) => KeyOf(r, keys);
    assert RowKeys(a, keys) == Image(a, f);
    assert RowKeys(b, keys) == Image(b, f);
    ImagePermutation(a, b, f);
  }

  /** The sort of step 4 only reorders, and orders when there is a date. */
  lemma SortedKeys(t: Table, sorted: Table)
    requires WellFormed(t)
    requires sorted == if !IsEmpty(t) && "date" in t.columns then SortValues(t, GridKeys) else t
    ensures WellFormed(sorted) && sorted.columns == t.columns && |sorted.rows| == |t.rows|
    ensures multiset(RowKeys(sorted.rows, GridKeys)) == multiset(RowKeys(t.rows, GridKeys))
    ensures "date" in t.columns ==> Sorted(sorted.rows, GridKeys)
  {
    assert multiset(sorted.rows) == multiset(t.rows);
    assert |sorted.rows| == |multiset(sorted.rows)| == |multiset(t.rows)| == |t.rows|;
    RowKeysPermutation(sorted.rows, t.rows, GridKeys);
  }

  /** Dropping the coordinates leaves every row's key, hence the order. */
  lemma DropKeepsKeys(t: Table, r: Table)
    requires WellFormed(t) && r == Drop(t, {"latitude", "longitude"})
    ensures RowKeys(r.rows, GridKeys) == RowKeys(t.rows, GridKeys)
    ensures Sorted(t.rows, GridKeys) ==> Sorted(r.rows, GridKeys)
  {
    forall i | 0 <= i < |t.rows| ensures KeyOf(r.rows[i], GridKeys) == KeyOf(t.rows[i], GridKeys) {
      forall c | c in GridKeys ensures Get(r.rows[i], c) == Get(t.rows[i], c) {
        assert t.rows[i].Keys == ColumnSet(t) && r.rows[i].Keys == ColumnSet(r);
      }
    }
  }

  /** Steps 1 to 5 of `build_dataset`, once the inputs are valid. */
  function RunStages(req: BuildRequest, src: Sources, v: Variant): (r: Outcome)
    requires GoodSources(src)
    ensures !r.Rejected?
    ensures NeedStations(req) && IsEmpty(StationsData(src.stations(req.codes))) ==> r == Built(Empty)
    ensures r.Built? ==> WellFormed(r.table)
    ensures r.Built? && "date" in r.table.columns ==> Sorted(r.table.rows, GridKeys)
    ensures r.Built? && r.table != Empty && DropsCoordinates(req) ==> "latitude" !in r.table.columns && "longitude" !in r.table.columns
    ensures r.WeatherFailed? ==> req.includeMeteo
    ensures r.Failed? ==> req.includeLevels || NeedStations(req)
  {
    var stations := StationStage(req, src, v);
    if IsEmpty(stations) then Built(Empty)
    else LaterStages(req, src, stations, v)
  }

  /** Without stations fetched and without levels, step 2 cannot fail: the
      station table holds the requested codes only. */
  lemma BareBaseSucceeds(req: BuildRequest, src: Sources, stations: Table, v: Variant)
    requires WellFormed(stations) && WellFormed(src.levels(req.codes, req.start, req.end))
    requires !IsEmpty(stations) && (!NeedStations(req) ==> stations == CodesFrame(req.codes, v))
    ensures !NeedStations(req) && !req.includeLevels ==> BaseStage(req, src, stations, v).Success?
  {
    if !NeedStations(req) && !req.includeLevels {
      var v := Cells(stations.rows, "code_bss")[0];
      assert v in Texts(req.codes);
      CodesOnlyJoin(stations, req.start, req.end, Texts(req.codes));
    }
  }

  /** Steps 2 to 5, from a non-empty station table. */
  function LaterStages(req: BuildRequest, src: Sources, stations: Table, v: Variant): (r: Outcome)
    requires WellFormed(stations) && WellFormed(src.levels(req.codes, req.start, req.end)) && GoodWeather(src.weather)
    requires !IsEmpty(stations) && (!NeedStations(req) ==> stations == CodesFrame(req.codes, v))
    ensures !r.Rejected?
    ensures r.Built? ==> WellFormed(r.table)
    ensures r.Built? && "date" in r.table.columns ==> Sorted(r.table.rows, GridKeys)
    ensures r.Built? && DropsCoordinates(req) ==> "latitude" !in r.table.columns && "longitude" !in r.table.columns
    ensures r.WeatherFailed? ==> req.includeMeteo
    ensures r.Failed? ==> req.includeLevels || NeedStations(req)
  {
    BareBaseSucceeds(req, src, stations, v);
    match BaseStage(req, src, stations, v)
    case Failure(e) => Failed(e)
    case Success(base) =>
      match WeatherStage(req, src, base)
      case Built(t) => Built(Finish(req, t))
      case other => other
  }

  /** `build_dataset`: as written with `AsWritten`, fixed with
      `Corrected`. */
  function BuildDataset(req: BuildRequest, src: Sources, v: Variant): (r: Outcome)
    requires GoodSources(src)
    ensures r.Rejected? <==> ValidateInputs(req.codes, req.start, req.end).Failure?
    ensures r.Rejected? ==> r.msg == ValidateInputs(req.codes, req.start, req.end).error
    ensures ValidateInputs(req.codes, req.start, req.end).Success? && NeedStations(req) && IsEmpty(StationsData(src.stations(req.codes))) ==> r == Built(Empty)
    ensures r.Built? ==> WellFormed(r.table)
    ensures r.Built? && "date" in r.table.columns ==> Sorted(r.table.rows, GridKeys)
    ensures r.Built? && r.table != Empty && DropsCoordinates(req) ==> "latitude" !in r.table.columns && "longitude" !in r.table.columns
    ensures r.WeatherFailed? ==> req.includeMeteo
    ensures r.Failed? ==> req.includeLevels || NeedStations(req)
  {
    match ValidateInputs(req.codes, req.start, req.end)
    case Failure(e) => Rejected(e)
    case Success(_) => RunStages(req, src, v)
  }

  /** Filtering the station columns keeps the station codes, so it keeps
      them unique. */
  lemma FilterStationsUnique(df: Table, includeMeteo: bool, includeStations: bool, fields: seq<string>)
    requires WellFormed(df) && "code_bss" in df.columns && UniqueKeys(df, ["code_bss"])
    ensures UniqueKeys(FilterStations(df, includeMeteo, includeStations, fields), ["code_bss"])
  {
    var r := FilterStations(df, includeMeteo, includeStations, fields);
    forall i | 0 <= i < |df.rows| ensures KeyOf(r.rows[i], ["code_bss"]) == KeyOf(df.rows[i], ["code_bss"]) {
      assert df.rows[i].Keys == ColumnSet(df);
    }
    assert RowKeys(r.rows, ["code_bss"]) == RowKeys(df.rows, ["code_bss"]);
  }

  /** The corrected station table of step 1, when not empty, names each station once
      and has no `date` column, given that the API returns each station once
      and no `date` attribute. */
  lemma StationStageUnique(req: BuildRequest, src: Sources)
    requires WellFormed(src.stations(req.codes))
    requires NeedStations(req) ==> UniqueKeys(StationsData(src.stations(req.codes)), ["code_bss"])
                                   && "date" !in StationsData(src.stations(req.codes)).columns
    requires !IsEmpty(StationStage(req, src, Corrected))
    ensures "code_bss" in StationStage(req, src, Corrected).columns && "date" !in StationStage(req, src, Corrected).columns
    ensures UniqueKeys(StationStage(req, src, Corrected), ["code_bss"])
  {
    if NeedStations(req) {
      var st := StationsData(src.stations(req.codes));
      assert "code_bss" in st.columns;
      FilterStationsUnique(st, req.includeMeteo, req.includeStations, req.stationFields);
      var r := FilterStations(st, req.includeMeteo, req.includeStations, req.stationFields);
      if "date" in r.columns {
        SubsequenceElements(r.columns, st.columns);
      }
    }
  }

  /** Corrected, step 2 keeps the grid: one row per requested station and
      day, the daily level readings merged in alongside. */
  lemma BaseStageKeepsGrid(req: BuildRequest, src: Sources, stations: Table)
    requires WellFormed(stations) && WellFormed(src.levels(req.codes, req.start, req.end))
    requires UniqueKeys(stations, ["code_bss"]) && "date" !in stations.columns && |req.codes| > 0
    requires BaseStage(req, src, stations, Corrected).Success?
    ensures |BaseStage(req, src, stations, Corrected).value.rows| == |Dedup(Texts(req.codes))| * DayCount(req.start, req.end)
    ensures RowKeys(BaseStage(req, src, stations, Corrected).value.rows, GridKeys)
         == RowKeys(Grid(Dedup(Texts(req.codes)), Days(req.start, req.end)).rows, GridKeys)
  {
    var grid := CreateGrid(stations, req.start, req.end, Texts(req.codes));
    assert GridCodes(stations, Texts(req.codes)) == Dedup(Texts(req.codes));
    CreateGridKeys(stations, req.start, req.end, Texts(req.codes));
    if req.includeLevels && !IsEmpty(LevelStage(req, src)) {
      var c := CollapseWith(LevelStage(req, src), Corrected);
      MergeLevelsKeepsGrid(grid.value, c.value);
    }
  }

  /** Without weather, a dataset built by the corrected builder holds one
      row per requested station
      and day of the range, each (station, day) pair once, sorted, given
      that the station API returns each station once and no `date`
      attribute. */
  lemma BuildDatasetOneRowPerStationDay(req: BuildRequest, src: Sources)
    requires GoodSources(src) && !req.includeMeteo
    requires NeedStations(req) ==> UniqueKeys(StationsData(src.stations(req.codes)), ["code_bss"])
                                   && "date" !in StationsData(src.stations(req.codes)).columns
    ensures var r := BuildDataset(req, src, Corrected);
            r.Built? && r.table != Empty ==>
              && |r.table.rows| == |Dedup(Texts(req.codes))| * DayCount(req.start, req.end)
              && multiset(RowKeys(r.table.rows, GridKeys))
                 == multiset(RowKeys(Grid(Dedup(Texts(req.codes)), Days(req.start, req.end)).rows, GridKeys))
  {
    var r := BuildDataset(req, src, Corrected);
    if ValidateInputs(req.codes, req.start, req.end).Success? && r.Built? && r.table != Empty {
      var stations := StationStage(req, src, Corrected);
      assert !IsEmpty(stations);
      StationStageUnique(req, src);
      var base := BaseStage(req, src, stations, Corrected);
      assert base.Success?;
      BaseStageKeepsGrid(req, src, stations);
      assert r.table == Finish(req, base.value);
    }
  }

  /** One station, one day, two readings of that day with no other column:
      as written the grid row comes out twice. */
  lemma CollapseAsWrittenExample()
    ensures var base := Grid([Text("A")], [0]);
            var levels := Table(GridKeys, [GridCell(Text("A"), 0), GridCell(Text("A"), 0)]);
            && WellFormed(levels)
            && CollapseAsWritten(levels) == Success(levels)
            && |base.rows| == 1
            && MergeLevels(base, levels).Success? && |MergeLevels(base, levels).value.rows| >= 2
  {
    var base := Grid([Text("A")], [0]);
    var levels := Table(GridKeys, [GridCell(Text("A"), 0), GridCell(Text("A"), 0)]);
    assert ColumnSet(levels) == {"code_bss", "date"};
    GridRowsMembers([Text("A")], [0], Text("A"), 0);
    assert base.rows[0] == GridCell(Text("A"), 0);
    CollapseAsWrittenRepeatsRows(base, levels, 0, 0, 1);
  }

  /** Station "A" requested twice over two days: as written the grid has
      more than the two (station, day) rows. */
  lemma StationFrameAsWrittenExample()
    ensures var g := CreateGrid(StationFrameAsWritten(["A", "A"]), 0, SecondsPerDay, Texts(["A", "A"]));
            g.Success? && |g.value.rows| > 2
  {
    var vs := Texts(["A", "A"]);
    var d := Dedup(vs);
    assert Text("A") in d;
    assert |d| == 1;
    assert DayCount(0, SecondsPerDay) == 2;
    StationFrameAsWrittenRepeatsRows(["A", "A"], 0, SecondsPerDay, 0, 1);
  }

  /** As written, the same code requested twice with neither attributes,
      levels nor weather builds a dataset with more rows than the one
      station has days. */
  lemma BuildDatasetAsWrittenRepeats(src: Sources)
    requires GoodSources(src)
    ensures var req := BuildRequest(["A", "A"], 0, SecondsPerDay, false, false, false, [], [], []);
            var r := BuildDataset(req, src, AsWritten);
            && r.Built?
            && |Dedup(Texts(req.codes))| * DayCount(req.start, req.end) == 2
            && |r.table.rows| > 2
  {
    var req := BuildRequest(["A", "A"], 0, SecondsPerDay, false, false, false, [], [], []);
    var st := StationStage(req, src, AsWritten);
    assert st == StationFrameAsWritten(["A", "A"]);
    StationFrameAsWrittenExample();
    var g := CreateGrid(st, 0, SecondsPerDay, Texts(["A", "A"]));
    assert BaseStage(req, src, st, AsWritten) == g;
    assert WeatherStage(req, src, g.value) == Built(g.value);
    assert |Finish(req, g.value).rows| == |g.value.rows|;
    assert Text("A") in Dedup(Texts(["A", "A"]));
    assert DayCount(0, SecondsPerDay) == 2;
  }

  /** Each code requested once, the two station tables of step 1 coincide. */
  lemma StationStageAgree(req: BuildRequest, src: Sources)
    requires WellFormed(src.stations(req.codes)) && Distinct(req.codes)
    ensures StationStage(req, src, AsWritten) == StationStage(req, src, Corrected)
  {
    var vs := Texts(req.codes);
    assert Distinct(vs) by {
      forall i, j | 0 <= i < |vs| && 0 <= j < |vs| && i != j ensures vs[i] != vs[j] {
        assert req.codes[i] != req.codes[j];
      }
    }
    DedupOfDistinct(vs);
  }

  /** With a value column in the readings, the two collapses of step 2
      coincide, hence so do the two results of step 2. */
  lemma BaseStageAgree(req: BuildRequest, src: Sources, stations: Table)
    requires WellFormed(stations) && WellFormed(src.levels(req.codes, req.start, req.end))
    requires req.includeLevels && !IsEmpty(LevelStage(req, src)) ==> |ValueColumns(LevelStage(req, src))| > 0
    ensures BaseStage(req, src, stations, AsWritten) == BaseStage(req, src, stations, Corrected)
  {
  }

  /** Each requested code once, and a day of readings with some value
      column whenever levels are merged: the builder as written and the
      corrected one build the same dataset. The two differ only on repeated
      codes or on readings without a value column. */
  lemma BuildDatasetVariantsAgree(req: BuildRequest, src: Sources)
    requires GoodSources(src) && Distinct(req.codes)
    requires req.includeLevels && !IsEmpty(LevelStage(req, src)) ==> |ValueColumns(LevelStage(req, src))| > 0
    ensures BuildDataset(req, src, AsWritten) == BuildDataset(req, src, Corrected)
  {
    StationStageAgree(req, src);
    var stations := StationStage(req, src, AsWritten);
    if ValidateInputs(req.codes, req.start, req.end).Success? && !IsEmpty(stations) {
      BaseStageAgree(req, src, stations);
    }
  }
}
