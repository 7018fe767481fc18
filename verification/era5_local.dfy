/** The ERA5 client that reads an already downloaded NetCDF file: for each
    location the series of the nearest grid cell over the requested days,
    renamed, shifted back one day, converted and aggregated per station and
    day. The file is abstract: its time dimension's name, its grid axes, and
    the table `to_dataframe` gives for a grid cell. */
module Era5Local {
  import opened Wrappers
  import opened Seqs
  import opened Dates
  import opened Tables
  import opened Grouping

  // ---------------------------------------------------------------------
  // Variables

  /** The user-facing variable names and the ERA5 names. */
  const Available: map<string, string> := map[
    "precipitation" := "total_precipitation",
    "temperature" := "2m_temperature",
    "evapotranspiration" := "potential_evaporation",
    "humidity" := "2m_dewpoint_temperature",
    "wind" := "10m_wind_speed",
    "radiation" := "surface_solar_radiation_downwards"
  ]

  /** The NetCDF short names and the ERA5 long names. */
  const ShortToLong: map<string, string> := map[
    "tp" := "total_precipitation",
    "t2m" := "2m_temperature",
    "pev" := "potential_evaporation",
    "d2m" := "2m_dewpoint_temperature",
    "si10" := "10m_wind_speed",
    "ssrd" := "surface_solar_radiation_downwards"
  ]

  const DefaultVariables: seq<string> := ["precipitation", "temperature", "evapotranspiration"]

  function Known(v: string): Option<string> {
    if v in Available then Some(Available[v]) else None
  }

  /** The ERA5 names of the requested variables the client knows, each once,
      in order of first request. */
  function MapVariables(vars: Option<seq<string>>): (vs: seq<string>)
    ensures Distinct(vs)
    ensures forall e :: e in vs <==> exists v :: v in vars.GetOr(DefaultVariables) && v in Available && Available[v] == e
  {
    var requested := vars.GetOr(DefaultVariables);
    var vs := Dedup(FilterMap(requested, Known));
    forall e ensures e in vs <==> exists v :: v in requested && v in Available && Available[v] == e {
      FilterMapMembers(requested, Known, e);
      if exists v :: v in requested && v in Available && Available[v] == e {
        var v :| v in requested && v in Available && Available[v] == e;
        var i :| 0 <= i < |requested| && requested[i] == v;
        assert Known(requested[i]) == Some(e);
      }
    }
    vs
  }

  // ---------------------------------------------------------------------
  // The file

  /** An opened NetCDF file: the name of its time dimension, its latitude
      and longitude axes, and the table of the grid cell at a pair of axis
      indices (one row per instant, the time dimension as a column of
      instants, the variables under their short names). */
  datatype LocalFile = LocalFile(timeDim: string, lats: seq<real>, lons: seq<real>, point: (nat, nat) -> Table)

  /** The names the pipeline creates or reads itself. */
  const Reserved: set<string> := {
    "date", "time", "lat", "lon",
    "total_precipitation", "2m_temperature", "potential_evaporation", "2m_dewpoint_temperature",
    "10m_wind_speed", "surface_solar_radiation_downwards",
    "precipitation", "temperature", "evapotranspiration", "humidity", "wind", "radiation"
  }

  /** A column a cell table may carry: the time dimension, a short variable
      name, or a name the pipeline does not use. */
  predicate Allowed(timeDim: string, c: string) {
    c == timeDim || c in ShortToLong || c !in Reserved
  }

  /** What opening the file guarantees: a time dimension named `valid_time`
      or `time`, present in every cell table. */
  ghost predicate GoodFile(f: LocalFile) {
    && (f.timeDim == "valid_time" || f.timeDim == "time")
    && forall i: nat, j: nat :: GoodCell(f, i, j)
  }

  /** The table of one grid cell has the time dimension and only allowed
      columns. */
  ghost predicate GoodCell(f: LocalFile, i: nat, j: nat) {
    && WellFormed(f.point(i, j)) && f.timeDim in f.point(i, j).columns
    && forall c :: c in f.point(i, j).columns ==> Allowed(f.timeDim, c)
  }

  function Abs(x: real): real {
    if x < 0.0 then -x else x
  }

  /** numpy's `argmin(abs(axis - x))`: the closest axis entry, the first
      one on a tie. */
  function NearestIndex(axis: seq<real>, x: real): (k: nat)
    requires |axis| > 0
    ensures k < |axis|
    ensures forall j :: 0 <= j < |axis| ==> Abs(axis[k] - x) <= Abs(axis[j] - x)
    ensures forall j :: 0 <= j < k ==> Abs(axis[j] - x) > Abs(axis[k] - x)
    decreases |axis|
  {
    if |axis| == 1 then 0
    else
      var n := |axis| - 1;
      var k := NearestIndex(axis[..n], x);
      assert forall j :: 0 <= j < n ==> axis[..n][j] == axis[j];
      if Abs(axis[n] - x) < Abs(axis[k] - x) then n else k
  }

  function MinOf(xs: seq<real>): (m: real)
    requires |xs| > 0
    ensures m in xs && forall x :: x in xs ==> m <= x
  {
    if |xs| == 1 then xs[0]
    else
      var m := MinOf(xs[1..]);
      assert forall x :: x in xs ==> x == xs[0] || x in xs[1..];
      if xs[0] <= m then xs[0] else m
  }

  function MaxOf(xs: seq<real>): (m: real)
    requires |xs| > 0
    ensures m in xs && forall x :: x in xs ==> x <= m
  {
    if |xs| == 1 then xs[0]
    else
      var m := MaxOf(xs[1..]);
      assert forall x :: x in xs ==> x == xs[0] || x in xs[1..];
      if xs[0] >= m then xs[0] else m
  }

  /** Within the axis's range, ends included. */
  predicate InRange(axis: seq<real>, x: real)
    requires |axis| > 0
  {
    MinOf(axis) <= x <= MaxOf(axis)
  }

  // ---------------------------------------------------------------------
  // Locations

  /** Both coordinates present and numeric. */
  predicate Located(loc: Object) {
    HasKey(loc, "latitude") && HasKey(loc, "longitude")
    && Lookup(loc, "latitude").Num? && Lookup(loc, "longitude").Num?
  }

  /** What the extraction loop does with one location. */
  datatype Pick = Raises | Skipped | Taken

  /** The loop body's checks in their order: reading both coordinates
      raises when one is absent; the latitude is compared with the grid's
      range first (raising when it is not a number or the axis is empty) and
      a location outside it is skipped before the longitude is looked at;
      then the same for the longitude. */
  function Classify(f: LocalFile, loc: Object): (p: Pick)
    ensures p == Taken <==> Located(loc) && |f.lats| > 0 && |f.lons| > 0
                            && InRange(f.lats, Lookup(loc, "latitude").n) && InRange(f.lons, Lookup(loc, "longitude").n)
    ensures p == Skipped ==> HasKey(loc, "longitude") && Lookup(loc, "latitude").Num? && |f.lats| > 0
  {
    if !HasKey(loc, "latitude") || !HasKey(loc, "longitude") then Raises
    else
      var lat := Lookup(loc, "latitude");
      var lon := Lookup(loc, "longitude");
      if !lat.Num? || |f.lats| == 0 then Raises
      else if !InRange(f.lats, lat.n) then Skipped
      else if !lon.Num? || |f.lons| == 0 then Raises
      else if !InRange(f.lons, lon.n) then Skipped
      else Taken
  }

  /** With numeric coordinates and a non-empty grid nothing raises. */
  lemma LocatedNeverRaises(f: LocalFile, loc: Object)
    requires Located(loc) && |f.lats| > 0 && |f.lons| > 0
    ensures Classify(f, loc) != Raises
  {
  }

  /** A latitude outside the grid is skipped whatever its longitude holds,
      even a text the comparison would reject, and however empty the
      longitude axis is. */
  lemma LatitudeCheckedFirst(f: LocalFile, lat: real)
    requires |f.lats| > 0 && !InRange(f.lats, lat)
    ensures Classify(f, [("latitude", Num(lat)), ("longitude", Text("east"))]) == Skipped
  {
    var loc := [("latitude", Num(lat)), ("longitude", Text("east"))];
    assert loc[0].0 == "latitude" && loc[1].0 == "longitude";
    assert Lookup(loc, "latitude") == Num(lat) by {
      assert loc[..1] == [("latitude", Num(lat))];
    }
  }

  /** The station code: the location's own, or the two coordinates written
      out with an underscore between them. */
  function StationCode(loc: Object, show: Value -> string): Value {
    if HasKey(loc, "code_station") then Lookup(loc, "code_station")
    else Text(show(Lookup(loc, "latitude")) + "_" + show(Lookup(loc, "longitude")))
  }

  /** The instants on the requested calendar days, both ends included. */
  predicate OnDays(x: Row, timeDim: string, firstDay: int, lastDay: int) {
    Get(x, timeDim).Stamp? && firstDay <= DayOf(Get(x, timeDim).t) <= lastDay
  }

  /** The rows tagged with the cell's coordinates and the station code. */
  function Tag(w: Table, lat: real, lon: real, code: Value): (r: Table)
    requires WellFormed(w)
    ensures WellFormed(r) && |r.rows| == |w.rows|
    ensures forall c :: c in r.columns <==> c in w.columns || c == "latitude" || c == "longitude" || c == "code_station"
    ensures forall k :: 0 <= k < |r.rows| ==>
              Get(r.rows[k], "latitude") == Num(lat) && Get(r.rows[k], "longitude") == Num(lon) && Get(r.rows[k], "code_station") == code
    ensures forall k, c :: 0 <= k < |r.rows| && c in w.rows[k] && c != "latitude" && c != "longitude" && c != "code_station" ==>
              r.rows[k][c] == w.rows[k][c]
  {
    WithConstant(WithConstant(WithConstant(w, "latitude", Num(lat)), "longitude", Num(lon)), "code_station", code)
  }

  /** The nearest cell's rows on the requested days. */
  function Window(f: LocalFile, i: nat, j: nat, firstDay: int, lastDay: int): (w: Table)
    requires GoodFile(f)
    ensures WellFormed(w) && w.columns == f.point(i, j).columns && f.timeDim in w.columns
    ensures forall c :: c in w.columns ==> Allowed(f.timeDim, c)
    ensures forall k :: 0 <= k < |w.rows| ==> OnDays(w.rows[k], f.timeDim, firstDay, lastDay)
  {
    assert GoodCell(f, i, j);
    var cell := f.point(i, j);
    var w := Where(cell, x => OnDays(x, f.timeDim, firstDay, lastDay));
    assert forall k :: 0 <= k < |w.rows| ==> w.rows[k] in w.rows;
    w
  }

  /** The tagged table of one location that does not raise: `None` when it
      is skipped; otherwise the nearest cell's rows on the requested days,
      with the cell's coordinates and the station code. */
  function PointFrame(f: LocalFile, loc: Object, firstDay: int, lastDay: int, show: Value -> string): (r: Option<Table>)
    requires GoodFile(f) && Classify(f, loc) != Raises
    ensures r.None? <==> Classify(f, loc) == Skipped
    ensures r.Some? ==> WellFormed(r.value)
    ensures r.Some? ==> "latitude" in r.value.columns && "longitude" in r.value.columns && "code_station" in r.value.columns
    ensures r.Some? ==> forall c :: c in r.value.columns ==> Allowed(f.timeDim, c) || c == "latitude" || c == "longitude" || c == "code_station"
    ensures r.Some? ==> f.timeDim in r.value.columns
    ensures r.Some? ==>
              var i := NearestIndex(f.lats, Lookup(loc, "latitude").n);
              var j := NearestIndex(f.lons, Lookup(loc, "longitude").n);
              forall k :: 0 <= k < |r.value.rows| ==>
                && Get(r.value.rows[k], "code_station") == StationCode(loc, show)
                && Get(r.value.rows[k], "latitude") == Num(f.lats[i])
                && Get(r.value.rows[k], "longitude") == Num(f.lons[j])
  {
    if Classify(f, loc) == Skipped then None
    else
      var i := NearestIndex(f.lats, Lookup(loc, "latitude").n);
      var j := NearestIndex(f.lons, Lookup(loc, "longitude").n);
      Some(Tag(Window(f, i, j, firstDay, lastDay), f.lats[i], f.lons[j], StationCode(loc, show)))
  }

  /** The tagged rows keep their instants, all on the requested days. */
  lemma PointFrameDays(f: LocalFile, loc: Object, firstDay: int, lastDay: int, show: Value -> string)
    requires GoodFile(f) && Classify(f, loc) == Taken
    ensures PointFrame(f, loc, firstDay, lastDay, show).Some?
    ensures forall k :: 0 <= k < |PointFrame(f, loc, firstDay, lastDay, show).value.rows| ==>
              OnDays(PointFrame(f, loc, firstDay, lastDay, show).value.rows[k], f.timeDim, firstDay, lastDay)
  {
    var i := NearestIndex(f.lats, Lookup(loc, "latitude").n);
    var j := NearestIndex(f.lons, Lookup(loc, "longitude").n);
    var w := Window(f, i, j, firstDay, lastDay);
    forall k | 0 <= k < |w.rows| ensures f.timeDim in w.rows[k] {
      assert w.rows[k].Keys == ColumnSet(w);
    }
  }

  /** Each location's outcome, position by position. */
  function Picked(f: LocalFile, locations: seq<Object>, firstDay: int, lastDay: int, show: Value -> string): (ps: seq<Option<Table>>)
    requires GoodFile(f)
    requires forall l :: l in locations ==> Classify(f, l) != Raises
    ensures |ps| == |locations|
    ensures forall i :: 0 <= i < |locations| ==> ps[i] == PointFrame(f, locations[i], firstDay, lastDay, show)
    ensures forall i :: 0 <= i < |locations| ==> (ps[i].None? <==> Classify(f, locations[i]) == Skipped)
  {
    seq(|locations|, i requires 0 <= i < |locations| => PointFrame(f, locations[i], firstDay, lastDay, show))
  }

  /** The outcomes of a prefix of the locations are a prefix of the
      outcomes. */
  lemma PickedPrefix(f: LocalFile, locations: seq<Object>, n: nat, firstDay: int, lastDay: int, show: Value -> string)
    requires GoodFile(f) && n <= |locations|
    requires forall l :: l in locations ==> Classify(f, l) != Raises
    ensures Picked(f, locations[..n], firstDay, lastDay, show) == Picked(f, locations, firstDay, lastDay, show)[..n]
  {
    var all := Picked(f, locations, firstDay, lastDay, show);
    var front := Picked(f, locations[..n], firstDay, lastDay, show);
    forall k | 0 <= k < n ensures front[k] == all[k] {
      assert locations[..n][k] == locations[k];
    }
  }

  lemma PickedSnoc(f: LocalFile, locations: seq<Object>, firstDay: int, lastDay: int, show: Value -> string)
    requires GoodFile(f) && |locations| > 0
    requires forall l :: l in locations ==> Classify(f, l) != Raises
    ensures var n := |locations| - 1;
            Picked(f, locations, firstDay, lastDay, show)
              == Picked(f, locations[..n], firstDay, lastDay, show) + [PointFrame(f, locations[n], firstDay, lastDay, show)]
  {
    var n := |locations| - 1;
    var all := Picked(f, locations, firstDay, lastDay, show);
    PickedPrefix(f, locations, n, firstDay, lastDay, show);
    FrontLast(all, n);
  }

  /** The extraction loop: the tagged tables of the locations it does not
      skip, in the order of the locations. */
  function Frames(f: LocalFile, locations: seq<Object>, firstDay: int, lastDay: int, show: Value -> string): (ts: seq<Table>)
    requires GoodFile(f)
    requires forall l :: l in locations ==> Classify(f, l) != Raises
    ensures ts == Values(Picked(f, locations, firstDay, lastDay, show))
    ensures |ts| <= |locations|
    decreases |locations|
  {
    if |locations| == 0 then []
    else
      var n := |locations| - 1;
      var prefix := Frames(f, locations[..n], firstDay, lastDay, show);
      PickedSnoc(f, locations, firstDay, lastDay, show);
      ValuesSnoc(Picked(f, locations[..n], firstDay, lastDay, show), PointFrame(f, locations[n], firstDay, lastDay, show));
      match PointFrame(f, locations[n], firstDay, lastDay, show)
      case None => prefix
      case Some(t) => prefix + [t]
  }

  /** Every extracted table has the time dimension, the coordinates and the
      station code, and only columns the renaming accepts. */
  lemma FramesShape(f: LocalFile, locations: seq<Object>, firstDay: int, lastDay: int, show: Value -> string)
    requires GoodFile(f)
    requires forall l :: l in locations ==> Classify(f, l) != Raises
    ensures Extracted(f, Frames(f, locations, firstDay, lastDay, show))
  {
    var ps := Picked(f, locations, firstDay, lastDay, show);
    var ts := Frames(f, locations, firstDay, lastDay, show);
    forall t | t in ts
      ensures WellFormed(t) && f.timeDim in t.columns
      ensures "latitude" in t.columns && "longitude" in t.columns && "code_station" in t.columns
      ensures forall c :: c in t.columns ==> Allowed(f.timeDim, c) || c == "latitude" || c == "longitude" || c == "code_station"
    {
      ValuesMembers(ps, t);
      var i :| 0 <= i < |ps| && ps[i] == Some(t);
    }
  }

  /** With no location skipped there is one table per location. */
  lemma FramesAllTaken(f: LocalFile, locations: seq<Object>, firstDay: int, lastDay: int, show: Value -> string)
    requires GoodFile(f)
    requires forall l :: l in locations ==> Classify(f, l) == Taken
    ensures |Frames(f, locations, firstDay, lastDay, show)| == |locations|
  {
    ValuesAllDefined(Picked(f, locations, firstDay, lastDay, show));
  }

  // ---------------------------------------------------------------------
  // Renaming

  /** The combined renaming: the time dimension becomes `date`, a short
      variable name its long name. */
  function LongName(timeDim: string, c: string): string {
    if c == timeDim then "date" else if c in ShortToLong then ShortToLong[c] else c
  }

  /** The renaming never merges two columns. */
  lemma LongNameInjective(timeDim: string, a: string, b: string)
    requires timeDim == "valid_time" || timeDim == "time"
    requires Allowed(timeDim, a) || a == "latitude" || a == "longitude" || a == "code_station"
    requires Allowed(timeDim, b) || b == "latitude" || b == "longitude" || b == "code_station"
    requires a != b
    ensures LongName(timeDim, a) != LongName(timeDim, b)
  {
  }

  /** One day back: an instant at midnight closes the previous day. */
  function DayBefore(v: Value): (r: Value)
    ensures v.Stamp? ==> r == Stamp(v.t - SecondsPerDay)
  {
    match ToStamp(v)
    case Stamp(t) => Stamp(t - SecondsPerDay)
    case _ => Null
  }

  /** The shifted instant falls on the calendar day before. */
  lemma DayBeforeDate(t: int)
    ensures ToDate(DayBefore(Stamp(t))) == Day(DayOf(t) - 1)
  {
    var q := t / SecondsPerDay;
    var m := t % SecondsPerDay;
    assert t - SecondsPerDay == (q - 1) * SecondsPerDay + m;
    assert (t - SecondsPerDay) / SecondsPerDay == q - 1;
  }

  // ---------------------------------------------------------------------
  // Conversions and daily aggregation

  /** `df[dst] = g(df)` then `df.drop(columns=[src])`, when `src` exists. */
  function Step(t: Table, src: string, dst: string, g: Row -> Value): (r: Table)
    requires WellFormed(t) && src != dst
    ensures WellFormed(r)
    ensures forall c :: c in r.columns <==> (c in t.columns && c != src) || (src in t.columns && c == dst)
    ensures |r.rows| == |t.rows|
    ensures forall i :: 0 <= i < |t.rows| ==> Get(r.rows[i], dst) == if src in t.columns then g(t.rows[i]) else Get(t.rows[i], dst)
    ensures forall i, c :: 0 <= i < |t.rows| && c != src && c != dst ==> Get(r.rows[i], c) == Get(t.rows[i], c)
  {
    if src !in t.columns then t
    else
      var s := SetColumn(t, dst, seq(|t.rows|, i requires 0 <= i < |t.rows| => g(t.rows[i])));
      assert forall i :: 0 <= i < |t.rows| ==> s.rows[i].Keys == ColumnSet(s);
      var r := Drop(s, {src});
      forall i, c | 0 <= i < |t.rows| && c != src
        ensures Get(r.rows[i], c) == Get(s.rows[i], c)
      {
        assert r.rows[i].Keys == ColumnSet(r);
      }
      r
  }

  /** A number scaled; missing stays missing. */
  function Scale(v: Value, k: real): (r: Value)
    ensures v.Num? ==> r == Num(v.n * k)
    ensures !v.Num? ==> r == Null
  {
    if v.Num? then Num(v.n * k) else Null
  }

  function Shift(v: Value, k: real): (r: Value)
    ensures v.Num? ==> r == Num(v.n + k)
    ensures !v.Num? ==> r == Null
  {
    if v.Num? then Num(v.n + k) else Null
  }

  /** Relative humidity in percent from the dew point and the temperature,
      both in degrees Celsius: the ratio of the saturation terms `sat` of the
      Magnus formula. */
  function Humidity(dewK: Value, tempC: Value, sat: real -> real): (r: Value)
    ensures dewK.Num? && tempC.Num? && sat(tempC.n) != 0.0 ==> r == Num(100.0 * sat(dewK.n - 273.15) / sat(tempC.n))
    ensures !dewK.Num? || !tempC.Num? ==> r == Null
  {
    if dewK.Num? && tempC.Num? && sat(tempC.n) != 0.0 then Num(100.0 * sat(dewK.n - 273.15) / sat(tempC.n)) else Null
  }

  const Sources: set<string> := {
    "total_precipitation", "2m_temperature", "potential_evaporation", "2m_dewpoint_temperature",
    "10m_wind_speed", "surface_solar_radiation_downwards"
  }

  /** The source column each output column is computed from. */
  const SourceOf: map<string, string> := map[
    "precipitation" := "total_precipitation",
    "temperature" := "2m_temperature",
    "evapotranspiration" := "potential_evaporation",
    "humidity" := "2m_dewpoint_temperature",
    "wind" := "10m_wind_speed",
    "radiation" := "surface_solar_radiation_downwards"
  ]

  const FirstOutputs: set<string> := {"precipitation", "temperature", "evapotranspiration"}
  const FirstSources: set<string> := {"total_precipitation", "2m_temperature", "potential_evaporation"}
  const RestOutputs: set<string> := {"humidity", "wind", "radiation"}
  const RestSources: set<string> := {"2m_dewpoint_temperature", "10m_wind_speed", "surface_solar_radiation_downwards"}

  /** The column `c` of a conversion's result: kept when it is not a
      source of the converted `outputs`, produced when it is one of them and
      its source is there. */
  predicate ConvertedColumn(cols: seq<string>, sources: set<string>, outputs: set<string>, c: string)
    requires outputs <= SourceOf.Keys
  {
    (c in cols && c !in sources) || (c in outputs && SourceOf[c] in cols)
  }

  /** The temperature in degrees Celsius the humidity formula reads: the
      converted 2 m temperature, or the `temperature` column already there. */
  function TempC(cols: seq<string>, x: Row): Value {
    if "2m_temperature" in cols then Shift(Get(x, "2m_temperature"), -273.15) else Get(x, "temperature")
  }

  /** Precipitation from metres to millimetres, temperature from kelvin to
      degrees Celsius, evaporation from negative metres to positive
      millimetres; each source column is dropped. */
  function ConvertFirst(t: Table): (r: Table)
    requires WellFormed(t)
    ensures WellFormed(r) && |r.rows| == |t.rows|
    ensures forall c :: c in r.columns <==> ConvertedColumn(t.columns, FirstSources, FirstOutputs, c)
    ensures forall i :: 0 <= i < |t.rows| ==> FirstRow(t, r, i)
    ensures forall i, c :: 0 <= i < |t.rows| && c !in FirstOutputs && c !in FirstSources ==>
              Get(r.rows[i], c) == Get(t.rows[i], c)
  {
    var d2 := Step(t, "total_precipitation", "precipitation", x => Scale(Get(x, "total_precipitation"), 1000.0));
    var d3 := Step(d2, "2m_temperature", "temperature", x => Shift(Get(x, "2m_temperature"), -273.15));
    var r := Step(d3, "potential_evaporation", "evapotranspiration", x => Scale(Get(x, "potential_evaporation"), -1000.0));
    forall i | 0 <= i < |t.rows| ensures FirstRow(t, r, i) {
      FirstRowHolds(t, d2, d3, r, i);
    }
    FirstColumns(t, d2, d3, r);
    r
  }

  lemma FirstColumns(t: Table, d2: Table, d3: Table, r: Table)
    requires WellFormed(t)
    requires d2 == Step(t, "total_precipitation", "precipitation", x => Scale(Get(x, "total_precipitation"), 1000.0))
    requires d3 == Step(d2, "2m_temperature", "temperature", x => Shift(Get(x, "2m_temperature"), -273.15))
    requires r == Step(d3, "potential_evaporation", "evapotranspiration", x => Scale(Get(x, "potential_evaporation"), -1000.0))
    ensures forall c :: c in r.columns <==> ConvertedColumn(t.columns, FirstSources, FirstOutputs, c)
  {
    assert "2m_temperature" in d2.columns <==> "2m_temperature" in t.columns;
    assert "potential_evaporation" in d3.columns <==> "potential_evaporation" in t.columns;
    forall c ensures c in r.columns <==> ConvertedColumn(t.columns, FirstSources, FirstOutputs, c) {
      if c == "precipitation" {
        assert c in r.columns <==> c in d2.columns;
      } else if c == "temperature" {
        assert c in r.columns <==> c in d3.columns;
      } else if c == "evapotranspiration" {
      } else if c in FirstSources {
        assert c !in r.columns;
      } else {
        assert c in r.columns <==> c in d3.columns;
        assert c in d3.columns <==> c in d2.columns;
        assert c in d2.columns <==> c in t.columns;
      }
    }
  }

  predicate FirstRow(t: Table, r: Table, i: int)
    requires 0 <= i < |t.rows| && |r.rows| == |t.rows|
  {
    && Get(r.rows[i], "precipitation")
         == (if "total_precipitation" in t.columns then Scale(Get(t.rows[i], "total_precipitation"), 1000.0) else Get(t.rows[i], "precipitation"))
    && Get(r.rows[i], "temperature") == TempC(t.columns, t.rows[i])
    && Get(r.rows[i], "evapotranspiration")
         == (if "potential_evaporation" in t.columns then Scale(Get(t.rows[i], "potential_evaporation"), -1000.0) else Get(t.rows[i], "evapotranspiration"))
  }

  lemma FirstRowHolds(t: Table, d2: Table, d3: Table, r: Table, i: int)
    requires WellFormed(t)
    requires d2 == Step(t, "total_precipitation", "precipitation", x => Scale(Get(x, "total_precipitation"), 1000.0))
    requires d3 == Step(d2, "2m_temperature", "temperature", x => Shift(Get(x, "2m_temperature"), -273.15))
    requires r == Step(d3, "potential_evaporation", "evapotranspiration", x => Scale(Get(x, "potential_evaporation"), -1000.0))
    requires 0 <= i < |t.rows|
    ensures FirstRow(t, r, i)
  {
    var x := t.rows[i];
    assert Get(d2.rows[i], "precipitation") == if "total_precipitation" in t.columns then Scale(Get(x, "total_precipitation"), 1000.0) else Get(x, "precipitation");
    assert Get(d2.rows[i], "2m_temperature") == Get(x, "2m_temperature");
    assert Get(d2.rows[i], "temperature") == Get(x, "temperature");
    assert Get(d2.rows[i], "potential_evaporation") == Get(x, "potential_evaporation");
    assert Get(d2.rows[i], "evapotranspiration") == Get(x, "evapotranspiration");
    assert Get(d3.rows[i], "precipitation") == Get(d2.rows[i], "precipitation");
    assert Get(d3.rows[i], "temperature") == TempC(t.columns, x);
    assert Get(d3.rows[i], "potential_evaporation") == Get(x, "potential_evaporation");
    assert Get(d3.rows[i], "evapotranspiration") == Get(x, "evapotranspiration");
  }

  /** Humidity from the dew point and the temperature already in degrees
      Celsius, wind copied, radiation from joules to megajoules per square
      metre; each source column is dropped. */
  function ConvertRest(t: Table, sat: real -> real): (r: Table)
    requires WellFormed(t)
    ensures WellFormed(r) && |r.rows| == |t.rows|
    ensures forall c :: c in r.columns <==> ConvertedColumn(t.columns, RestSources, RestOutputs, c)
    ensures forall i :: 0 <= i < |t.rows| ==> RestRow(t, r, i, sat)
    ensures forall i, c :: 0 <= i < |t.rows| && c !in RestOutputs && c !in RestSources ==>
              Get(r.rows[i], c) == Get(t.rows[i], c)
  {
    var d5 := Step(t, "2m_dewpoint_temperature", "humidity", x => Humidity(Get(x, "2m_dewpoint_temperature"), Get(x, "temperature"), sat));
    var d6 := Step(d5, "10m_wind_speed", "wind", x => Get(x, "10m_wind_speed"));
    var r := Step(d6, "surface_solar_radiation_downwards", "radiation", x => Scale(Get(x, "surface_solar_radiation_downwards"), 0.000001));
    forall i | 0 <= i < |t.rows| ensures RestRow(t, r, i, sat) {
      RestRowHolds(t, d5, d6, r, i, sat);
    }
    RestColumns(t, d5, d6, r, sat);
    r
  }

  predicate RestRow(t: Table, r: Table, i: int, sat: real -> real)
    requires 0 <= i < |t.rows| && |r.rows| == |t.rows|
  {
    && Get(r.rows[i], "humidity")
         == (if "2m_dewpoint_temperature" in t.columns
             then Humidity(Get(t.rows[i], "2m_dewpoint_temperature"), Get(t.rows[i], "temperature"), sat)
             else Get(t.rows[i], "humidity"))
    && Get(r.rows[i], "wind") == (if "10m_wind_speed" in t.columns then Get(t.rows[i], "10m_wind_speed") else Get(t.rows[i], "wind"))
    && Get(r.rows[i], "radiation")
         == (if "surface_solar_radiation_downwards" in t.columns
             then Scale(Get(t.rows[i], "surface_solar_radiation_downwards"), 0.000001)
             else Get(t.rows[i], "radiation"))
  }

  lemma RestRowHolds(t: Table, d5: Table, d6: Table, r: Table, i: int, sat: real -> real)
    requires WellFormed(t)
    requires d5 == Step(t, "2m_dewpoint_temperature", "humidity", x => Humidity(Get(x, "2m_dewpoint_temperature"), Get(x, "temperature"), sat))
    requires d6 == Step(d5, "10m_wind_speed", "wind", x => Get(x, "10m_wind_speed"))
    requires r == Step(d6, "surface_solar_radiation_downwards", "radiation", x => Scale(Get(x, "surface_solar_radiation_downwards"), 0.000001))
    requires 0 <= i < |t.rows|
    ensures RestRow(t, r, i, sat)
  {
    var x := t.rows[i];
    assert Get(d5.rows[i], "10m_wind_speed") == Get(x, "10m_wind_speed");
    assert Get(d5.rows[i], "wind") == Get(x, "wind");
    assert Get(d5.rows[i], "surface_solar_radiation_downwards") == Get(x, "surface_solar_radiation_downwards");
    assert Get(d5.rows[i], "radiation") == Get(x, "radiation");
    assert Get(d6.rows[i], "humidity") == Get(d5.rows[i], "humidity");
    assert Get(d6.rows[i], "surface_solar_radiation_downwards") == Get(x, "surface_solar_radiation_downwards");
    assert Get(d6.rows[i], "radiation") == Get(x, "radiation");
  }

  lemma RestColumns(t: Table, d5: Table, d6: Table, r: Table, sat: real -> real)
    requires WellFormed(t)
    requires d5 == Step(t, "2m_dewpoint_temperature", "humidity", x => Humidity(Get(x, "2m_dewpoint_temperature"), Get(x, "temperature"), sat))
    requires d6 == Step(d5, "10m_wind_speed", "wind", x => Get(x, "10m_wind_speed"))
    requires r == Step(d6, "surface_solar_radiation_downwards", "radiation", x => Scale(Get(x, "surface_solar_radiation_downwards"), 0.000001))
    ensures forall c :: c in r.columns <==> ConvertedColumn(t.columns, RestSources, RestOutputs, c)
  {
    assert "10m_wind_speed" in d5.columns <==> "10m_wind_speed" in t.columns;
    assert "surface_solar_radiation_downwards" in d6.columns <==> "surface_solar_radiation_downwards" in t.columns;
    forall c ensures c in r.columns <==> ConvertedColumn(t.columns, RestSources, RestOutputs, c) {
      if c == "humidity" {
        assert c in r.columns <==> c in d5.columns;
      } else if c == "wind" {
        assert c in r.columns <==> c in d6.columns;
      } else if c == "radiation" {
      } else if c in RestSources {
        assert c !in r.columns;
      } else {
        assert c in r.columns <==> c in d6.columns;
        assert c in d6.columns <==> c in d5.columns;
        assert c in d5.columns <==> c in t.columns;
      }
    }
  }

  /** Converted to the output units, each source column replaced by its
      output column; `Failure` when the dew point is there but the
      temperature is not (the humidity formula reads it). */
  function Convert(t: Table, sat: real -> real): (r: Result<Table>)
    requires WellFormed(t)
    ensures r.Failure? <==> "2m_dewpoint_temperature" in t.columns && "temperature" !in t.columns && "2m_temperature" !in t.columns
    ensures r.Success? ==> WellFormed(r.value) && |r.value.rows| == |t.rows|
    ensures r.Success? ==> forall c :: c in r.value.columns <==> ConvertedColumn(t.columns, Sources, SourceOf.Keys, c)
    ensures r.Success? ==> ConvertedRows(t, r.value, sat)
  {
    var d4 := ConvertFirst(t);
    if "2m_dewpoint_temperature" in d4.columns && "temperature" !in d4.columns then
      Failure("KeyError: temperature")
    else
      var r := ConvertRest(d4, sat);
      assert FirstHalf(t, d4) && RestHalf(d4, r, sat);
      ConvertComposed(t, d4, r, sat);
      Success(r)
  }

  /** Every converted cell in terms of the input row: the six output
      columns by their formulas, every other column untouched. */
  ghost predicate ConvertedRows(t: Table, r: Table, sat: real -> real)
    requires |r.rows| == |t.rows|
  {
    forall i :: 0 <= i < |t.rows| ==> ConvertedRow(t, r, i, sat)
  }

  ghost predicate ConvertedRow(t: Table, r: Table, i: int, sat: real -> real)
    requires 0 <= i < |t.rows| && |r.rows| == |t.rows|
  {
    && Get(r.rows[i], "precipitation")
         == (if "total_precipitation" in t.columns then Scale(Get(t.rows[i], "total_precipitation"), 1000.0) else Get(t.rows[i], "precipitation"))
    && Get(r.rows[i], "temperature") == TempC(t.columns, t.rows[i])
    && Get(r.rows[i], "evapotranspiration")
         == (if "potential_evaporation" in t.columns then Scale(Get(t.rows[i], "potential_evaporation"), -1000.0) else Get(t.rows[i], "evapotranspiration"))
    && Get(r.rows[i], "humidity")
         == (if "2m_dewpoint_temperature" in t.columns
             then Humidity(Get(t.rows[i], "2m_dewpoint_temperature"), TempC(t.columns, t.rows[i]), sat)
             else Get(t.rows[i], "humidity"))
    && Get(r.rows[i], "wind") == (if "10m_wind_speed" in t.columns then Get(t.rows[i], "10m_wind_speed") else Get(t.rows[i], "wind"))
    && Get(r.rows[i], "radiation")
         == (if "surface_solar_radiation_downwards" in t.columns
             then Scale(Get(t.rows[i], "surface_solar_radiation_downwards"), 0.000001)
             else Get(t.rows[i], "radiation"))
    && forall c :: c !in SourceOf && c !in Sources ==> Get(r.rows[i], c) == Get(t.rows[i], c)
  }

  /** What the first half of the conversion guarantees, row by row. */
  ghost predicate FirstHalf(t: Table, d4: Table)
  {
    && WellFormed(d4) && |d4.rows| == |t.rows|
    && (forall c :: c in d4.columns <==> ConvertedColumn(t.columns, FirstSources, FirstOutputs, c))
    && (forall i :: 0 <= i < |t.rows| ==> FirstRow(t, d4, i))
    && (forall i, c :: 0 <= i < |t.rows| && c !in FirstOutputs && c !in FirstSources ==>
          Get(d4.rows[i], c) == Get(t.rows[i], c))
  }

  /** What the second half of the conversion guarantees, row by row. */
  ghost predicate RestHalf(d4: Table, r: Table, sat: real -> real)
  {
    && |r.rows| == |d4.rows|
    && (forall c :: c in r.columns <==> ConvertedColumn(d4.columns, RestSources, RestOutputs, c))
    && (forall i :: 0 <= i < |d4.rows| ==> RestRow(d4, r, i, sat))
    && (forall i, c :: 0 <= i < |d4.rows| && c !in RestOutputs && c !in RestSources ==>
          Get(r.rows[i], c) == Get(d4.rows[i], c))
  }

  /** The two halves of the conversion compose into the whole. */
  lemma ConvertComposed(t: Table, d4: Table, r: Table, sat: real -> real)
    requires FirstHalf(t, d4) && RestHalf(d4, r, sat)
    ensures forall c :: c in r.columns <==> ConvertedColumn(t.columns, Sources, SourceOf.Keys, c)
    ensures ConvertedRows(t, r, sat)
  {
    assert "2m_dewpoint_temperature" in d4.columns <==> "2m_dewpoint_temperature" in t.columns;
    assert "10m_wind_speed" in d4.columns <==> "10m_wind_speed" in t.columns;
    assert "surface_solar_radiation_downwards" in d4.columns <==> "surface_solar_radiation_downwards" in t.columns;
    forall c ensures c in r.columns <==> ConvertedColumn(t.columns, Sources, SourceOf.Keys, c) {
      assert c in r.columns <==> ConvertedColumn(d4.columns, RestSources, RestOutputs, c);
      if c in RestOutputs || c in RestSources {
      } else {
        assert c in d4.columns <==> ConvertedColumn(t.columns, FirstSources, FirstOutputs, c);
      }
    }
    forall i | 0 <= i < |t.rows| ensures ConvertedRow(t, r, i, sat) {
      ConvertedRowHolds(t, d4, r, i, sat);
    }
  }

  /** The conversion's names: the second half's columns are out of the
      first half's way and the other way round. */
  lemma ConversionNames()
    ensures SourceOf.Keys == FirstOutputs + RestOutputs && Sources == FirstSources + RestSources
    ensures forall c :: c in RestOutputs || c in RestSources ==> c !in FirstOutputs && c !in FirstSources
    ensures forall c :: c in FirstOutputs || c in FirstSources ==> c !in RestOutputs && c !in RestSources
  {
  }

  lemma ConvertedRowHolds(t: Table, d4: Table, r: Table, i: int, sat: real -> real)
    requires FirstHalf(t, d4) && RestHalf(d4, r, sat)
    requires 0 <= i < |t.rows|
    ensures ConvertedRow(t, r, i, sat)
  {
    var x := t.rows[i];
    ConversionNames();
    assert FirstRow(t, d4, i) && RestRow(d4, r, i, sat);
    assert forall c :: c !in FirstOutputs && c !in FirstSources ==> Get(d4.rows[i], c) == Get(x, c);
    assert forall c :: c !in RestOutputs && c !in RestSources ==> Get(r.rows[i], c) == Get(d4.rows[i], c);
    forall c | c in RestSources ensures (c in d4.columns <==> c in t.columns) && Get(d4.rows[i], c) == Get(x, c) {
    }
    forall c | c in RestOutputs ensures Get(d4.rows[i], c) == Get(x, c) {
    }
    forall c | c in FirstOutputs ensures Get(r.rows[i], c) == Get(d4.rows[i], c) {
    }
    forall c | c !in SourceOf && c !in Sources ensures Get(r.rows[i], c) == Get(x, c) {
      assert Get(r.rows[i], c) == Get(d4.rows[i], c);
    }
  }

  const SumNames: seq<string> := ["precipitation", "evapotranspiration", "radiation"]

  /** The output columns that are aggregated, in aggregation order: sums
      first, then means. */
  const AggNames: seq<string> := SumNames + ["temperature", "wind", "humidity"]

  /** The group columns: one output row per station, day and grid cell. */
  const GroupCols: seq<string> := ["code_station", "date", "latitude", "longitude"]

  lemma GroupColsDistinct()
    ensures Distinct(GroupCols)
  {
  }

  lemma AggNamesDistinct()
    ensures Distinct(AggNames) && Distinct(GroupCols)
    ensures forall c :: c in AggNames ==> c !in GroupCols && c !in Sources
  {
  }

  /** The conversions leave the group columns alone. */
  lemma GroupColsKept(t: Table, r: Table)
    requires forall c :: c in r.columns <==> ConvertedColumn(t.columns, Sources, SourceOf.Keys, c)
    requires forall c :: c in GroupCols ==> c in t.columns
    ensures forall c :: c in GroupCols ==> c in r.columns
  {
    forall c | c in GroupCols ensures c in r.columns {
      assert c == "code_station" || c == "date" || c == "latitude" || c == "longitude";
      assert c !in Sources;
      assert ConvertedColumn(t.columns, Sources, SourceOf.Keys, c);
    }
  }

  /** The aggregation of a column: a daily sum for precipitation,
      evapotranspiration and radiation, a daily mean otherwise. */
  function FnOf(c: string): AggFn {
    if c in SumNames then Sum else Mean
  }

  /** The aggregated output columns present, in aggregation order. */
  function AggSpecs(cols: seq<string>): (ss: seq<AggSpec>)
    ensures IsSubsequence(SpecColumns(ss), AggNames)
    ensures forall c :: c in SpecColumns(ss) <==> c in cols && c in AggNames
    ensures forall j :: 0 <= j < |ss| ==> (ss[j].fn == Sum <==> ss[j].col in SumNames) && ss[j].fn != First
    ensures Distinct(GroupCols + SpecColumns(ss))
  {
    var names := FilterIn(AggNames, set c | c in cols);
    AggNamesDistinct();
    FilterInDistinct(AggNames, set c | c in cols);
    var ss := seq(|names|, j requires 0 <= j < |names| => AggSpec(names[j], FnOf(names[j])));
    assert SpecColumns(ss) == names;
    DistinctConcat(GroupCols, names);
    ss
  }

  /** `df.groupby(GroupCols, as_index=False).agg(...)` over the aggregated
      columns present. */
  function Aggregate(conv: Table): (r: Table)
    requires WellFormed(conv)
    requires forall c :: c in GroupCols ==> c in conv.columns
    requires |AggSpecs(conv.columns)| > 0
    ensures WellFormed(r)
    ensures r.columns == GroupCols + SpecColumns(AggSpecs(conv.columns))
    ensures UniqueKeys(r, GroupCols)
    ensures RowKeys(r.rows, GroupCols) == GroupKeys(conv.rows, GroupCols)
    ensures forall i, j :: 0 <= i < |r.rows| && 0 <= j < |AggSpecs(conv.columns)| ==>
              var s := AggSpecs(conv.columns)[j];
              r.rows[i][s.col] == Agg(s.fn, Cells(Members(conv.rows, GroupCols, GroupKeys(conv.rows, GroupCols)[i]), s.col))
  {
    var specs := AggSpecs(conv.columns);
    assert ValidGrouping(conv, GroupCols, specs) by {
      forall j | 0 <= j < |specs| ensures specs[j].col in conv.columns {
        assert specs[j].col in SpecColumns(specs);
      }
    }
    GroupByKeys(conv, GroupCols, specs);
    var g := GroupBy(conv, GroupCols, specs);
    forall i, j | 0 <= i < |g.rows| && 0 <= j < |specs|
      ensures g.rows[i][specs[j].col] == Agg(specs[j].fn, Cells(Members(conv.rows, GroupCols, GroupKeys(conv.rows, GroupCols)[i]), specs[j].col))
    {
      GroupByValues(conv, GroupCols, specs, i, j);
    }
    g
  }

  /** The ensemble columns dropped and `date` reduced to its day. */
  function Prepare(df: Table): (r: Table)
    requires WellFormed(df)
    requires forall c :: c in GroupCols ==> c in df.columns
    ensures WellFormed(r) && |r.rows| == |df.rows|
    ensures forall c :: c in r.columns <==> c in df.columns && c != "expver" && c != "number"
    ensures forall i :: 0 <= i < |r.rows| ==> r.rows[i]["date"] == ToDate(df.rows[i]["date"])
    ensures forall i, c :: 0 <= i < |r.rows| && c != "date" && c != "expver" && c != "number" ==> Get(r.rows[i], c) == Get(df.rows[i], c)
  {
    var d0 := Drop(df, {"expver", "number"});
    assert "date" in d0.columns;
    forall i | 0 <= i < |d0.rows| ensures "date" in d0.rows[i] {
      assert d0.rows[i].Keys == ColumnSet(d0);
    }
    var r := MapColumn(d0, "date", ToDate);
    forall i, c | 0 <= i < |r.rows| && c != "date" && c != "expver" && c != "number" ensures Get(r.rows[i], c) == Get(df.rows[i], c) {
      DropGet(df, {"expver", "number"}, i, c);
      MapColumnGet(d0, "date", ToDate, i, c);
    }
    r
  }

  /** `_process_era5_data`: drop the ensemble columns, keep only the day of
      `date`, convert, then aggregate per station, day and cell when some
      aggregated column is present; otherwise the rows stay as they are. A
      dew point without any temperature fails. */
  function Process(df: Table, sat: real -> real): (r: Result<Table>)
    requires WellFormed(df)
    requires forall c :: c in GroupCols ==> c in df.columns
    ensures r.Success? ==> WellFormed(r.value)
    ensures r.Success? ==> forall c :: c in GroupCols ==> c in r.value.columns
    ensures r.Success? && (exists c :: c in r.value.columns && c in AggNames) ==> UniqueKeys(r.value, GroupCols)
  {
    var d1 := Prepare(df);
    AggNamesDistinct();
    var conv :- Convert(d1, sat);
    GroupColsKept(d1, conv);
    var specs := AggSpecs(conv.columns);
    if |specs| == 0 then
      assert forall c :: c in conv.columns && c in AggNames ==> c in SpecColumns(specs);
      Success(conv)
    else
      Success(Aggregate(conv))
  }

  /** Processing fails exactly when the dew point is there and neither
      temperature column is. */
  lemma ProcessFails(df: Table, sat: real -> real)
    requires WellFormed(df)
    requires forall c :: c in GroupCols ==> c in df.columns
    ensures Process(df, sat).Failure? <==> "2m_dewpoint_temperature" in df.columns && "temperature" !in df.columns && "2m_temperature" !in df.columns
  {
    var d1 := Prepare(df);
    assert "2m_dewpoint_temperature" in d1.columns <==> "2m_dewpoint_temperature" in df.columns;
    assert "temperature" in d1.columns <==> "temperature" in df.columns;
    assert "2m_temperature" in d1.columns <==> "2m_temperature" in df.columns;
  }

  /** Without any aggregated column the processed table is the converted
      one; with one, it is their grouping, one row per complete key of the
      converted rows. */
  lemma ProcessShape(df: Table, sat: real -> real)
    requires WellFormed(df)
    requires forall c :: c in GroupCols ==> c in df.columns
    requires Process(df, sat).Success?
    ensures Convert(Prepare(df), sat).Success?
    ensures var conv := Convert(Prepare(df), sat).value;
            var out := Process(df, sat).value;
            && (|AggSpecs(conv.columns)| == 0 ==> out == conv)
            && (|AggSpecs(conv.columns)| > 0 ==> RowKeys(out.rows, GroupCols) == GroupKeys(conv.rows, GroupCols))
  {
  }

  /** One processed cell: the daily sum or mean, over the converted rows of
      the row's station, day and cell, of its aggregated column. */
  lemma ProcessCell(df: Table, sat: real -> real, i: int, c: string)
    requires WellFormed(df)
    requires forall c :: c in GroupCols ==> c in df.columns
    requires Process(df, sat).Success?
    requires 0 <= i < |Process(df, sat).value.rows|
    requires Convert(Prepare(df), sat).Success? && c in Convert(Prepare(df), sat).value.columns && c in AggNames
    ensures var conv := Convert(Prepare(df), sat).value;
            Process(df, sat).value.rows[i][c] == Agg(FnOf(c), Cells(Members(conv.rows, GroupCols, GroupKeys(conv.rows, GroupCols)[i]), c))
  {
    var conv := Convert(Prepare(df), sat).value;
    var specs := AggSpecs(conv.columns);
    assert c in SpecColumns(specs);
    var j :| 0 <= j < |specs| && SpecColumns(specs)[j] == c;
    assert specs[j].fn == FnOf(c);
  }

  // ---------------------------------------------------------------------
  // The batch

  /** Each group column comes out of the renaming under its own name; `date`
      comes from the time dimension. */
  lemma GroupSourceName(timeDim: string, c: string)
    requires timeDim == "valid_time" || timeDim == "time"
    requires c in GroupCols
    ensures LongName(timeDim, if c == "date" then timeDim else c) == c
  {
    if c != "date" {
      assert c != timeDim by { assert c == "code_station" || c == "latitude" || c == "longitude"; }
      assert c !in ShortToLong;
    }
  }

  /** What the extracted tables look like: the time dimension, the
      coordinates and the code in each, and only names the renaming
      accepts. */
  ghost predicate Extracted(f: LocalFile, frames: seq<Table>) {
    && GoodFile(f)
    && (forall t :: t in frames ==> WellFormed(t) && f.timeDim in t.columns)
    && (forall t :: t in frames ==> "latitude" in t.columns && "longitude" in t.columns && "code_station" in t.columns)
    && (forall t, c :: t in frames && c in t.columns ==> Allowed(f.timeDim, c) || c == "latitude" || c == "longitude" || c == "code_station")
  }

  /** Some extracted table has the column. */
  predicate HasColumn(frames: seq<Table>, c: string) {
    exists k :: 0 <= k < |frames| && c in frames[k].columns
  }

  /** Every column of the concatenation is one the renaming accepts. */
  lemma ConcatColumnAllowed(f: LocalFile, frames: seq<Table>, a: string)
    requires Extracted(f, frames)
    requires a in Concat(frames).columns
    ensures Allowed(f.timeDim, a) || a == "latitude" || a == "longitude" || a == "code_station"
  {
    var k :| 0 <= k < |frames| && a in frames[k].columns;
    assert frames[k] in frames;
  }

  /** The renaming keeps the names of the concatenated frames distinct, and
      the group columns are there afterwards. */
  lemma Renamable(f: LocalFile, frames: seq<Table>)
    requires Extracted(f, frames) && |frames| > 0
    ensures var all := Concat(frames);
            forall i, j :: 0 <= i < j < |all.columns| ==> LongName(f.timeDim, all.columns[i]) != LongName(f.timeDim, all.columns[j])
    ensures forall c :: c in GroupCols ==> exists j :: 0 <= j < |Concat(frames).columns| && LongName(f.timeDim, Concat(frames).columns[j]) == c
  {
    var all := Concat(frames);
    forall i, j | 0 <= i < j < |all.columns| ensures LongName(f.timeDim, all.columns[i]) != LongName(f.timeDim, all.columns[j]) {
      var a, b := all.columns[i], all.columns[j];
      ConcatColumnAllowed(f, frames, a);
      ConcatColumnAllowed(f, frames, b);
      LongNameInjective(f.timeDim, a, b);
    }
    assert frames[0] in frames;
    forall c | c in GroupCols ensures exists j :: 0 <= j < |all.columns| && LongName(f.timeDim, all.columns[j]) == c {
      var src := if c == "date" then f.timeDim else c;
      assert src in frames[0].columns;
      assert src in all.columns;
      var j :| 0 <= j < |all.columns| && all.columns[j] == src;
      GroupSourceName(f.timeDim, c);
    }
  }

  /** The frames concatenated and renamed to `date` and the long names. */
  function Renamed(f: LocalFile, frames: seq<Table>): (t: Table)
    requires Extracted(f, frames) && |frames| > 0
    ensures WellFormed(t) && |t.rows| == TotalRows(frames)
    ensures forall c :: c in GroupCols ==> c in t.columns
  {
    Renamable(f, frames);
    RenameColumns(Concat(frames), c => LongName(f.timeDim, c))
  }

  /** The renamed frames shifted one day back: the group columns are all
      there. */
  function Shifted(f: LocalFile, frames: seq<Table>): (t: Table)
    requires Extracted(f, frames) && |frames| > 0
    ensures WellFormed(t) && |t.rows| == TotalRows(frames)
    ensures forall c :: c in GroupCols ==> c in t.columns
  {
    MapColumn(Renamed(f, frames), "date", DayBefore)
  }

  /** A column name the renaming produces from an extracted name `a`
      comes from `a` alone. */
  lemma LongNameFrom(timeDim: string, a: string, s: string)
    requires timeDim == "valid_time" || timeDim == "time"
    requires Allowed(timeDim, a) || a == "latitude" || a == "longitude" || a == "code_station"
    requires s in ShortToLong && LongName(timeDim, a) == ShortToLong[s]
    ensures a == s
  {
  }

  /** A renamed cell reads the stacked extraction's cell under the old
      name. */
  lemma RenamedGet(f: LocalFile, frames: seq<Table>, i: int, a: string)
    requires Extracted(f, frames) && |frames| > 0
    requires 0 <= i < |Concat(frames).rows|
    requires a == f.timeDim || a in ShortToLong || a == "code_station" || a == "latitude" || a == "longitude"
    ensures Get(Renamed(f, frames).rows[i], LongName(f.timeDim, a)) == Get(AllRows(frames)[i], a)
  {
    assert forall j :: 0 <= j < |frames| ==> WellFormed(frames[j]) by {
      forall j | 0 <= j < |frames| ensures WellFormed(frames[j]) { assert frames[j] in frames; }
    }
    ConcatGet(frames, i, a);
    if a in Concat(frames).columns {
      RenamedPresent(f, frames, i, a);
    } else {
      assert frames[0] in frames;
      RenamedAbsent(f, frames, i, a);
    }
  }

  lemma RenamedPresent(f: LocalFile, frames: seq<Table>, i: int, a: string)
    requires Extracted(f, frames) && |frames| > 0
    requires 0 <= i < |Concat(frames).rows|
    requires a in Concat(frames).columns
    ensures Get(Renamed(f, frames).rows[i], LongName(f.timeDim, a)) == Get(Concat(frames).rows[i], a)
  {
    var all := Concat(frames);
    var ren := Renamed(f, frames);
    var j :| 0 <= j < |all.columns| && all.columns[j] == a;
    assert all.rows[i].Keys == ColumnSet(all) && ren.rows[i].Keys == ColumnSet(ren);
    assert ren.rows[i][LongName(f.timeDim, a)] == all.rows[i][a];
  }

  lemma RenamedAbsent(f: LocalFile, frames: seq<Table>, i: int, a: string)
    requires Extracted(f, frames) && |frames| > 0
    requires 0 <= i < |Concat(frames).rows|
    requires a in ShortToLong && a !in Concat(frames).columns
    ensures Get(Renamed(f, frames).rows[i], LongName(f.timeDim, a)) == Null
  {
    var all := Concat(frames);
    var ren := Renamed(f, frames);
    assert a != f.timeDim;
    assert ren.rows[i].Keys == ColumnSet(ren);
    if LongName(f.timeDim, a) in ren.columns {
      var j :| 0 <= j < |ren.columns| && ren.columns[j] == LongName(f.timeDim, a);
      ConcatColumnAllowed(f, frames, all.columns[j]);
      LongNameFrom(f.timeDim, all.columns[j], a);
    }
  }

  /** The shifted table row by row: the row of the stacked extraction it
      came from, its instant one day back under `date`, each variable under
      its long name, the coordinates and the code unchanged. */
  lemma ShiftedRows(f: LocalFile, frames: seq<Table>, i: int)
    requires Extracted(f, frames) && |frames| > 0
    requires 0 <= i < |Concat(frames).rows|
    ensures var x := AllRows(frames)[i];
            var y := Shifted(f, frames).rows[i];
            && Get(y, "date") == DayBefore(Get(x, f.timeDim))
            && (forall s :: s in ShortToLong ==> Get(y, ShortToLong[s]) == Get(x, s))
            && Get(y, "code_station") == Get(x, "code_station")
            && Get(y, "latitude") == Get(x, "latitude")
            && Get(y, "longitude") == Get(x, "longitude")
  {
    ShiftedDate(f, frames, i);
    forall s | s in ShortToLong
      ensures Get(Shifted(f, frames).rows[i], ShortToLong[s]) == Get(AllRows(frames)[i], s)
    {
      ShiftedGet(f, frames, i, s);
    }
    TagsAreShort();
    ShiftedGet(f, frames, i, "code_station");
    ShiftedGet(f, frames, i, "latitude");
    ShiftedGet(f, frames, i, "longitude");
  }

  lemma TagsAreShort()
    ensures "code_station" !in ShortToLong && "latitude" !in ShortToLong && "longitude" !in ShortToLong
  {
  }

  /** The day of a shifted row is the day before the extracted time stamp. */
  lemma ShiftedDate(f: LocalFile, frames: seq<Table>, i: int)
    requires Extracted(f, frames) && |frames| > 0
    requires 0 <= i < |Concat(frames).rows|
    ensures Get(Shifted(f, frames).rows[i], "date") == DayBefore(Get(AllRows(frames)[i], f.timeDim))
  {
    var ren := Renamed(f, frames);
    RenamedGet(f, frames, i, f.timeDim);
    assert ren.rows[i].Keys == ColumnSet(ren) && "date" in ren.columns;
  }

  /** Every other cell of a shifted row is the extracted cell under its long
      name. */
  lemma ShiftedGet(f: LocalFile, frames: seq<Table>, i: int, a: string)
    requires Extracted(f, frames) && |frames| > 0
    requires 0 <= i < |Concat(frames).rows|
    requires a in ShortToLong || a == "code_station" || a == "latitude" || a == "longitude"
    ensures Get(Shifted(f, frames).rows[i], if a in ShortToLong then ShortToLong[a] else a) == Get(AllRows(frames)[i], a)
  {
    RenamedGet(f, frames, i, a);
    LongNameNotDate(f.timeDim, a);
    MapColumnGet(Renamed(f, frames), "date", DayBefore, i, LongName(f.timeDim, a));
  }

  /** Only the time dimension is renamed to `date`; a variable takes its long
      name and a tag column keeps its own. */
  lemma LongNameNotDate(timeDim: string, a: string)
    requires timeDim == "valid_time" || timeDim == "time"
    requires a in ShortToLong || a == "code_station" || a == "latitude" || a == "longitude"
    ensures LongName(timeDim, a) == if a in ShortToLong then ShortToLong[a] else a
    ensures LongName(timeDim, a) != "date"
  {
  }

  /** A long variable name is among the renamed columns exactly when some
      extracted table has its short name. */
  lemma LongColumn(f: LocalFile, frames: seq<Table>, s: string)
    requires Extracted(f, frames) && |frames| > 0
    requires s in ShortToLong
    ensures ShortToLong[s] in Renamed(f, frames).columns <==> HasColumn(frames, s)
  {
    var all := Concat(frames);
    var ren := Renamed(f, frames);
    if ShortToLong[s] in ren.columns {
      var j :| 0 <= j < |ren.columns| && ren.columns[j] == ShortToLong[s];
      ConcatColumnAllowed(f, frames, all.columns[j]);
      LongNameFrom(f.timeDim, all.columns[j], s);
    }
    if HasColumn(frames, s) {
      assert s in all.columns;
      var j :| 0 <= j < |all.columns| && all.columns[j] == s;
      assert ren.columns[j] == LongName(f.timeDim, s);
    }
  }

  /** The renamed frames carry the dew point or the 2 m temperature exactly
      when some extracted table carries the short name, and never a
      `temperature` column. */
  lemma ShiftedColumns(f: LocalFile, frames: seq<Table>)
    requires Extracted(f, frames) && |frames| > 0
    ensures "2m_dewpoint_temperature" in Shifted(f, frames).columns <==> HasColumn(frames, "d2m")
    ensures "2m_temperature" in Shifted(f, frames).columns <==> HasColumn(frames, "t2m")
    ensures "temperature" !in Shifted(f, frames).columns
  {
    var all := Concat(frames);
    var ren := Renamed(f, frames);
    assert Shifted(f, frames).columns == ren.columns;
    assert "d2m" in ShortToLong && ShortToLong["d2m"] == "2m_dewpoint_temperature";
    LongColumn(f, frames, "d2m");
    assert "t2m" in ShortToLong && ShortToLong["t2m"] == "2m_temperature";
    LongColumn(f, frames, "t2m");
    if "temperature" in ren.columns {
      var j :| 0 <= j < |ren.columns| && ren.columns[j] == "temperature";
      ConcatColumnAllowed(f, frames, all.columns[j]);
      NoTemperature(f.timeDim, all.columns[j]);
    }
  }

  /** No extracted name is renamed to `temperature`. */
  lemma NoTemperature(timeDim: string, a: string)
    requires timeDim == "valid_time" || timeDim == "time"
    requires Allowed(timeDim, a) || a == "latitude" || a == "longitude" || a == "code_station"
    ensures LongName(timeDim, a) != "temperature"
  {
  }

  /** The frames concatenated, renamed, shifted one day back, processed and
      reordered: the rows are the processed rows, the group columns come
      first. */
  function Assemble(f: LocalFile, frames: seq<Table>, sat: real -> real): (r: Result<Table>)
    requires Extracted(f, frames) && |frames| > 0
    ensures r.Failure? <==> Process(Shifted(f, frames), sat).Failure?
    ensures r.Success? ==> WellFormed(r.value)
    ensures r.Success? ==> |r.value.columns| >= 4 && r.value.columns[..4] == GroupCols
    ensures r.Success? ==> r.value.rows == Process(Shifted(f, frames), sat).value.rows
    ensures r.Success? && (exists c :: c in r.value.columns && c in AggNames) ==> UniqueKeys(r.value, GroupCols)
  {
    var processed :- Process(Shifted(f, frames), sat);
    GroupColsDistinct();
    var out := Reorder(processed, GroupCols);
    ReorderKeepsAggregated(processed, out);
    Success(out)
  }

  /** Assembling fails exactly when some extracted table has the dew point
      and none has the 2 m temperature. */
  lemma AssembleFails(f: LocalFile, frames: seq<Table>, sat: real -> real)
    requires Extracted(f, frames) && |frames| > 0
    ensures Assemble(f, frames, sat).Failure? <==> HasColumn(frames, "d2m") && !HasColumn(frames, "t2m")
  {
    ShiftedColumns(f, frames);
    ProcessFails(Shifted(f, frames), sat);
  }

  /** Putting the group columns first keeps the rows, hence their keys, and
      keeps the aggregated columns. */
  lemma ReorderKeepsAggregated(t: Table, out: Table)
    requires out.rows == t.rows && forall c :: c in out.columns <==> c in t.columns
    requires (exists c :: c in t.columns && c in AggNames) ==> UniqueKeys(t, GroupCols)
    ensures (exists c :: c in out.columns && c in AggNames) ==> UniqueKeys(out, GroupCols)
  {
    if exists c :: c in out.columns && c in AggNames {
      var c :| c in out.columns && c in AggNames;
      assert c in t.columns;
    }
  }

  /** `get_weather_batch` on a local file: the cell tables of the locations
      the loop does not skip, concatenated, renamed, shifted one day back,
      converted and aggregated, with the station code, the date and the
      cell's coordinates first. Any error inside the extraction (a
      coordinate that is absent or not a number, an empty grid axis, a
      missing temperature for the humidity) becomes a `Failure`. */
  function GetWeatherBatch(f: LocalFile, locations: seq<Object>, vars: Option<seq<string>>, firstDay: int, lastDay: int,
                           show: Value -> string, sat: real -> real): (r: Result<Table>)
    requires GoodFile(f)
    ensures |locations| == 0 || |MapVariables(vars)| == 0 ==> r == Success(Empty)
    ensures |locations| > 0 && |MapVariables(vars)| > 0 && (exists l :: l in locations && Classify(f, l) == Raises) ==> r.Failure?
    ensures r.Success? ==> WellFormed(r.value)
    ensures r.Success? && r.value != Empty ==> |r.value.columns| >= 4 && r.value.columns[..4] == GroupCols
    ensures r.Success? && (exists c :: c in r.value.columns && c in AggNames) ==> UniqueKeys(r.value, GroupCols)
  {
    if |locations| == 0 || |MapVariables(vars)| == 0 then Success(Empty)
    else if exists l :: l in locations && Classify(f, l) == Raises then
      Failure("Error reading local ERA5 file")
    else
      var frames := Frames(f, locations, firstDay, lastDay, show);
      FramesShape(f, locations, firstDay, lastDay, show);
      if |frames| == 0 then Success(Empty)
      else Assemble(f, frames, sat)
  }

  /** With an empty latitude axis every location raises, so a batch with
      work to do fails. */
  lemma GetWeatherBatchNoGrid(f: LocalFile, locations: seq<Object>, vars: Option<seq<string>>, firstDay: int, lastDay: int,
                              show: Value -> string, sat: real -> real)
    requires GoodFile(f)
    requires |locations| > 0 && |MapVariables(vars)| > 0 && |f.lats| == 0
    ensures GetWeatherBatch(f, locations, vars, firstDay, lastDay, show, sat).Failure?
  {
    assert locations[0] in locations && Classify(f, locations[0]) == Raises;
  }

  /** When no location raises, the batch is the assembly of the cell tables
      of the locations kept, or empty when all are skipped. */
  lemma GetWeatherBatchFrames(f: LocalFile, locations: seq<Object>, vars: Option<seq<string>>, firstDay: int, lastDay: int,
                              show: Value -> string, sat: real -> real)
    requires GoodFile(f)
    requires |locations| > 0 && |MapVariables(vars)| > 0
    requires forall l :: l in locations ==> Classify(f, l) != Raises
    ensures var frames := Frames(f, locations, firstDay, lastDay, show);
            && Extracted(f, frames)
            && GetWeatherBatch(f, locations, vars, firstDay, lastDay, show, sat)
               == if |frames| == 0 then Success(Empty) else Assemble(f, frames, sat)
  {
    FramesShape(f, locations, firstDay, lastDay, show);
  }

  /** When no location raises, the batch fails exactly when a kept table has
      the dew point and none has the 2 m temperature. */
  lemma GetWeatherBatchFails(f: LocalFile, locations: seq<Object>, vars: Option<seq<string>>, firstDay: int, lastDay: int,
                             show: Value -> string, sat: real -> real)
    requires GoodFile(f)
    requires |locations| > 0 && |MapVariables(vars)| > 0
    requires forall l :: l in locations ==> Classify(f, l) != Raises
    ensures var frames := Frames(f, locations, firstDay, lastDay, show);
            var r := GetWeatherBatch(f, locations, vars, firstDay, lastDay, show, sat);
            r.Failure? <==> HasColumn(frames, "d2m") && !HasColumn(frames, "t2m")
  {
    var frames := Frames(f, locations, firstDay, lastDay, show);
    GetWeatherBatchFrames(f, locations, vars, firstDay, lastDay, show, sat);
    if |frames| > 0 {
      AssembleFails(f, frames, sat);
    }
  }
}
