/** The Copernicus CDS client for ERA5-Land: the request it builds (known
    variables, the years to download, a bounding box around the points) and
    the daily aggregation of the six-hourly series of the nearest grid cell.
    The download and the nearest-cell extraction are a parameter: the
    request maps to a grid, `None` when the download fails, and the grid maps
    a point to its hourly table, `None` when the extraction fails. Instants
    are seconds (`Stamp`); an instant's calendar year is a parameter. */
module Era5 {
  import opened Wrappers
  import opened Seqs
  import opened Strings
  import opened Tables
  import opened Grouping

  // ---------------------------------------------------------------------
  // The request

  /** The user-facing variable names and the CDS variable names. */
  const Available: map<string, string> := map[
    "precipitation" := "total_precipitation",
    "temperature" := "2m_temperature",
    "temperature_min" := "2m_temperature",
    "temperature_max" := "2m_temperature",
    "evapotranspiration" := "potential_evaporation",
    "humidity" := "2m_dewpoint_temperature",
    "wind" := "10m_u_component_of_wind",
    "radiation" := "surface_solar_radiation_downwards"
  ]

  const DefaultVariables: seq<string> := ["precipitation", "temperature", "evapotranspiration"]

  /** The requested variables the client knows, in request order. */
  function KnownVariables(vars: Option<seq<string>>): (vs: seq<string>)
    ensures vars.None? ==> vs == DefaultVariables
    ensures vars.Some? ==> IsSubsequence(vs, vars.value)
    ensures vars.Some? ==> forall v :: v in vs <==> v in vars.value && v in Available
    ensures forall v :: v in vs ==> v in Available
  {
    match vars
    case None => DefaultVariables
    case Some(requested) => FilterIn(requested, Available.Keys)
  }

  /** The CDS names of known variables, in order, repeats kept. */
  function CdsNames(vars: seq<string>): (ns: seq<string>)
    requires forall v :: v in vars ==> v in Available
    ensures |ns| == |vars|
    ensures forall j :: 0 <= j < |vars| ==> ns[j] == Available[vars[j]]
  {
    seq(|vars|, j requires 0 <= j < |vars| => Available[vars[j]])
  }

  /** `_get_years`: the calendar years from the first to the last, written
      in decimal. */
  function GetYears(first: nat, last: nat): (ys: seq<string>)
    ensures |ys| == if last >= first then last - first + 1 else 0
    ensures forall i :: 0 <= i < |ys| ==> ys[i] == Decimal(first + i)
    decreases last + 1 - first
  {
    if first > last then [] else [Decimal(first)] + GetYears(first + 1, last)
  }

  /** The year strings read back give every year of the range, ascending,
      each once. */
  lemma GetYearsRoundTrip(first: nat, last: nat)
    ensures forall i :: 0 <= i < |GetYears(first, last)| ==> ParseDecimal(GetYears(first, last)[i]) == first + i
    ensures Distinct(GetYears(first, last))
  {
    var ys := GetYears(first, last);
    forall i | 0 <= i < |ys| ensures ParseDecimal(ys[i]) == first + i {
      DecimalRoundTrip(first + i);
    }
    assert Distinct(ys);
  }

  /** A request area: north, west, south, east. */
  datatype Area = Area(north: real, west: real, south: real, east: real)

  /** `m` is the smaller of `a` and `b`. */
  predicate IsMin(m: real, a: real, b: real) {
    m <= a && m <= b && (m == a || m == b)
  }

  /** `m` is the larger of `a` and `b`. */
  predicate IsMax(m: real, a: real, b: real) {
    m >= a && m >= b && (m == a || m == b)
  }

  /** Python's `min(a, b)`. */
  function MinR(a: real, b: real): (m: real)
    ensures IsMin(m, a, b)
  {
    if a <= b then a else b
  }

  /** Python's `max(a, b)`. */
  function MaxR(a: real, b: real): (m: real)
    ensures IsMax(m, a, b)
  {
    if a >= b then a else b
  }

  /** A box `margin` degrees beyond the given extent, clamped to the globe:
      each side moves out by the margin unless that would cross a pole or
      the antimeridian, where it stops. */
  function Around(south: real, north: real, west: real, east: real, margin: real): (a: Area)
    ensures IsMin(a.north, north + margin, 90.0) && IsMax(a.south, south - margin, -90.0)
    ensures IsMin(a.east, east + margin, 180.0) && IsMax(a.west, west - margin, -180.0)
    ensures margin >= 0.0 && -90.0 <= south && north <= 90.0 ==> a.south <= south && north <= a.north
    ensures margin >= 0.0 && -180.0 <= west && east <= 180.0 ==> a.west <= west && east <= a.east
  {
    Area(MinR(north + margin, 90.0), MaxR(west - margin, -180.0), MaxR(south - margin, -90.0), MinR(east + margin, 180.0))
  }

  /** The single-point box: a tenth of a degree around the point. */
  function PointArea(lat: real, lon: real): (a: Area)
    ensures IsMin(a.north, lat + 0.1, 90.0) && IsMax(a.south, lat - 0.1, -90.0)
    ensures IsMin(a.east, lon + 0.1, 180.0) && IsMax(a.west, lon - 0.1, -180.0)
    ensures -90.0 <= lat <= 90.0 && -180.0 <= lon <= 180.0 ==> a.south <= lat <= a.north && a.west <= lon <= a.east
  {
    Around(lat, lat, lon, lon, 0.1)
  }

  function MinOf(xs: seq<real>): (m: real)
    requires |xs| > 0
    ensures m in xs && forall x :: x in xs ==> m <= x
  {
    if |xs| == 1 then xs[0]
    else
      var m := MinOf(xs[1..]);
      assert forall x :: x in xs ==> x == xs[0] || x in xs[1..];
      MinR(xs[0], m)
  }

  function MaxOf(xs: seq<real>): (m: real)
    requires |xs| > 0
    ensures m in xs && forall x :: x in xs ==> x <= m
  {
    if |xs| == 1 then xs[0]
    else
      var m := MaxOf(xs[1..]);
      assert forall x :: x in xs ==> x == xs[0] || x in xs[1..];
      MaxR(xs[0], m)
  }

  /** The batch box: half a degree beyond the extent of all points; every
      point on the globe lies inside it. */
  function BatchArea(lats: seq<real>, lons: seq<real>): (a: Area)
    requires |lats| > 0 && |lons| > 0
    ensures IsMin(a.north, MaxOf(lats) + 0.5, 90.0) && IsMax(a.south, MinOf(lats) - 0.5, -90.0)
    ensures IsMin(a.east, MaxOf(lons) + 0.5, 180.0) && IsMax(a.west, MinOf(lons) - 0.5, -180.0)
    ensures (forall x :: x in lats ==> -90.0 <= x <= 90.0) ==> forall x :: x in lats ==> a.south <= x <= a.north
    ensures (forall x :: x in lons ==> -180.0 <= x <= 180.0) ==> forall x :: x in lons ==> a.west <= x <= a.east
  {
    Around(MinOf(lats), MaxOf(lats), MinOf(lons), MaxOf(lons), 0.5)
  }

  datatype Request = Request(variables: seq<string>, years: seq<string>, area: Area)

  // ---------------------------------------------------------------------
  // Daily aggregation

  /** A daily output variable: its name, the hourly column it comes from,
      and how a day is aggregated. */
  datatype DailyVar = DailyVar(name: string, source: string, fn: AggFn)

  /** The only variables `_aggregate_daily` produces, in output order. */
  const DailyVars: seq<DailyVar> := [
    DailyVar("precipitation", "total_precipitation", Sum),
    DailyVar("temperature", "2m_temperature", Mean),
    DailyVar("evapotranspiration", "potential_evaporation", Sum)
  ]

  /** The unit conversion applied after aggregation: metres to millimetres
      for precipitation and evapotranspiration (no change of sign), kelvin to
      degrees Celsius for temperature. Missing values stay missing. */
  function Convert(name: string, v: Value): (r: Value)
    ensures v.Null? ==> r.Null?
    ensures v.Num? && name == "precipitation" ==> r == Num(v.n * 1000.0)
    ensures v.Num? && name == "evapotranspiration" ==> r == Num(v.n * 1000.0)
    ensures v.Num? && name == "temperature" ==> r == Num(v.n - 273.15)
  {
    if !v.Num? then v
    else if name == "precipitation" || name == "evapotranspiration" then Num(v.n * 1000.0)
    else if name == "temperature" then Num(v.n - 273.15)
    else v
  }

  /** The daily variables that are both requested and present. */
  function Applicable(cols: seq<string>, vars: seq<string>): (app: seq<DailyVar>)
    ensures IsSubsequence(app, DailyVars)
    ensures forall d :: d in app <==> d in DailyVars && d.name in vars && d.source in cols
    ensures Distinct(app)
  {
    var keep := set d | d in DailyVars && d.name in vars && d.source in cols;
    FilterInDistinct(DailyVars, keep);
    FilterIn(DailyVars, keep)
  }

  function Specs(app: seq<DailyVar>): (ss: seq<AggSpec>)
    ensures |ss| == |app|
    ensures forall j :: 0 <= j < |app| ==> ss[j] == AggSpec(app[j].source, app[j].fn)
  {
    seq(|app|, j requires 0 <= j < |app| => AggSpec(app[j].source, app[j].fn))
  }

  function Names(app: seq<DailyVar>): (ns: seq<string>)
    ensures |ns| == |app|
    ensures forall j :: 0 <= j < |app| ==> ns[j] == app[j].name
  {
    seq(|app|, j requires 0 <= j < |app| => app[j].name)
  }

  /** Distinct daily variables have distinct names and distinct sources,
      none of them `date`. */
  lemma DailyNamesDistinct(app: seq<DailyVar>)
    requires Distinct(app) && forall d :: d in app ==> d in DailyVars
    ensures Distinct(["date"] + Names(app))
    ensures Distinct(["date"] + SpecColumns(Specs(app)))
  {
    var ns := ["date"] + Names(app);
    var ss := ["date"] + SpecColumns(Specs(app));
    forall i, j | 0 <= i < |ns| && 0 <= j < |ns| && i != j ensures ns[i] != ns[j] && ss[i] != ss[j] {
      if i > 0 && j > 0 {
        assert app[i - 1] != app[j - 1];
        assert app[i - 1] in DailyVars && app[j - 1] in DailyVars;
      } else if i > 0 {
        assert app[i - 1] in DailyVars;
      } else {
        assert app[j - 1] in DailyVars;
      }
    }
  }

  /** The converted daily cells of day-group `i`, in output order. */
  function DailyValues(g: Table, app: seq<DailyVar>, i: nat): (vs: seq<Value>)
    requires i < |g.rows|
    ensures |vs| == |app|
    ensures forall j :: 0 <= j < |app| ==> vs[j] == Convert(app[j].name, Get(g.rows[i], app[j].source))
  {
    seq(|app|, j requires 0 <= j < |app| => Convert(app[j].name, Get(g.rows[i], app[j].source)))
  }

  /** The daily row of day-group `i`: the date and each converted variable
      under its output name. */
  function DailyRow(g: Table, app: seq<DailyVar>, i: nat): (row: Row)
    requires i < |g.rows| && Distinct(["date"] + Names(app))
    ensures row.Keys == set c | c in ["date"] + Names(app)
    ensures forall j :: 0 <= j < |app| ==> row[app[j].name] == Convert(app[j].name, Get(g.rows[i], app[j].source))
  {
    var ns := Names(app);
    var vs := DailyValues(g, app, i);
    var row := Assign(["date"] + ns, [Get(g.rows[i], "date")] + vs);
    forall j | 0 <= j < |app| ensures row[app[j].name] == Convert(app[j].name, Get(g.rows[i], app[j].source)) {
      AssignTail("date", ns, Get(g.rows[i], "date"), vs, j);
    }
    row
  }

  /** The daily table built from the grouped table `g`: a `date` column,
      then one converted column per daily variable. */
  function DailyTable(g: Table, app: seq<DailyVar>): (r: Table)
    requires Distinct(["date"] + Names(app))
    ensures WellFormed(r)
    ensures r.columns == ["date"] + Names(app)
    ensures |r.rows| == |g.rows|
    ensures forall i, j :: 0 <= i < |g.rows| && 0 <= j < |app| ==>
              r.rows[i][app[j].name] == Convert(app[j].name, Get(g.rows[i], app[j].source))
  {
    var names := ["date"] + Names(app);
    var r := Table(names, seq(|g.rows|, i requires 0 <= i < |g.rows| => DailyRow(g, app, i)));
    assert ColumnSet(r) == set c | c in names;
    r
  }

  lemma DailyGrouping(df: Table, app: seq<DailyVar>)
    requires WellFormed(df) && "date" in df.columns
    requires Distinct(app) && forall d :: d in app ==> d in DailyVars && d.source in df.columns
    ensures ValidGrouping(df, ["date"], Specs(app))
    ensures Distinct(["date"] + Names(app))
  {
    DailyNamesDistinct(app);
    var specs := Specs(app);
    forall j | 0 <= j < |specs| ensures specs[j].col in df.columns {
      assert app[j] in app;
    }
  }

  /** `_aggregate_daily`: one row per calendar day (rows without a day are
      dropped), a `date` column and one column per applicable variable, in
      the fixed order precipitation, temperature, evapotranspiration; the
      empty table when no variable applies. */
  function AggregateDaily(df: Table, vars: seq<string>): (r: Table)
    requires WellFormed(df) && "date" in df.columns
    ensures WellFormed(r)
    ensures |Applicable(df.columns, vars)| == 0 <==> r == Empty
    ensures r != Empty ==> r.columns == ["date"] + Names(Applicable(df.columns, vars))
    ensures r != Empty ==> |r.rows| == |GroupKeys(df.rows, ["date"])|
  {
    var app := Applicable(df.columns, vars);
    if |app| == 0 then Empty
    else
      DailyGrouping(df, app);
      DailyTable(GroupBy(df, ["date"], Specs(app)), app)
  }

  lemma DailyTableValues(df: Table, app: seq<DailyVar>, i: int, j: int)
    requires WellFormed(df) && "date" in df.columns
    requires Distinct(app) && forall d :: d in app ==> d in DailyVars && d.source in df.columns
    requires 0 <= i < |GroupKeys(df.rows, ["date"])| && 0 <= j < |app|
    ensures ValidGrouping(df, ["date"], Specs(app)) && Distinct(["date"] + Names(app))
    ensures Get(DailyTable(GroupBy(df, ["date"], Specs(app)), app).rows[i], app[j].name)
         == Convert(app[j].name, Agg(app[j].fn, Cells(Members(df.rows, ["date"], GroupKeys(df.rows, ["date"])[i]), app[j].source)))
  {
    DailyGrouping(df, app);
    var specs := Specs(app);
    var g := GroupBy(df, ["date"], specs);
    GroupByValues(df, ["date"], specs, i, j);
    assert specs[j].col == app[j].source;
    assert specs[j].col in SpecColumns(specs);
    assert g.rows[i].Keys == ColumnSet(g);
  }

  /** Each daily cell is its variable's aggregate over the day's rows,
      converted: sums for precipitation and evapotranspiration, the mean for
      temperature. */
  lemma AggregateDailyValues(df: Table, vars: seq<string>, i: int, j: int)
    requires WellFormed(df) && "date" in df.columns
    requires AggregateDaily(df, vars) != Empty
    requires 0 <= i < |AggregateDaily(df, vars).rows| && 0 <= j < |Applicable(df.columns, vars)|
    ensures var d := Applicable(df.columns, vars)[j];
            Get(AggregateDaily(df, vars).rows[i], d.name)
              == Convert(d.name, Agg(d.fn, Cells(Members(df.rows, ["date"], GroupKeys(df.rows, ["date"])[i]), d.source)))
  {
    var app := Applicable(df.columns, vars);
    AggregateDailyIs(df, vars);
    DailyTableValues(df, app, i, j);
  }

  /** A non-empty daily aggregation is the daily table of the grouping. */
  lemma AggregateDailyIs(df: Table, vars: seq<string>)
    requires WellFormed(df) && "date" in df.columns
    ensures var app := Applicable(df.columns, vars);
            |app| > 0 ==>
              && Distinct(app) && (forall d :: d in app ==> d in DailyVars && d.source in df.columns)
              && ValidGrouping(df, ["date"], Specs(app)) && Distinct(["date"] + Names(app))
              && AggregateDaily(df, vars) == DailyTable(GroupBy(df, ["date"], Specs(app)), app)
  {
    var app := Applicable(df.columns, vars);
    if |app| > 0 {
      DailyGrouping(df, app);
    }
  }

  // ---------------------------------------------------------------------
  // Points

  /** Rows whose instant lies in the closed window; a missing instant is
      dropped. */
  function InWindow(hourly: Table, start: int, end: int): (r: Table)
    requires WellFormed(hourly)
    ensures WellFormed(r) && r.columns == hourly.columns
    ensures forall x :: x in r.rows <==> x in hourly.rows && Get(x, "time").Stamp? && start <= Get(x, "time").t <= end
  {
    Where(hourly, x => Get(x, "time").Stamp? && start <= Get(x, "time").t <= end)
  }

  /** The daily table of one point: the window, a calendar `date` for each
      instant, then the daily aggregation. `None` when the hourly table has
      no `time` column (the extraction raises). */
  function PointDaily(hourly: Table, start: int, end: int, vars: seq<string>): (r: Option<Table>)
    requires WellFormed(hourly)
    ensures r.None? <==> "time" !in hourly.columns
    ensures r.Some? ==> WellFormed(r.value)
  {
    if "time" !in hourly.columns then None
    else
      var w := InWindow(hourly, start, end);
      var dated := SetColumn(w, "date", seq(|w.rows|, i requires 0 <= i < |w.rows| => ToDate(Get(w.rows[i], "time"))));
      Some(AggregateDaily(dated, vars))
  }

  /** The grid a download yields: the hourly table of a point's nearest
      cell, `None` when the extraction fails. */
  type Grid = (real, real) -> Option<Table>

  /** Every table the grid yields is well formed. */
  ghost predicate GoodGrid(grid: Grid) {
    forall lat, lon :: grid(lat, lon).Some? ==> WellFormed(grid(lat, lon).value)
  }

  /** `get_weather_data` for one point: nothing when no known variable is
      asked for or anything fails; the point's daily table otherwise. */
  function GetWeatherData(lat: real, lon: real, first: nat, last: nat, start: int, end: int, vars: Option<seq<string>>,
                          retrieve: Request -> Option<Grid>): (r: Table)
    requires forall q :: retrieve(q).Some? ==> GoodGrid(retrieve(q).value)
    ensures WellFormed(r)
    ensures |KnownVariables(vars)| == 0 ==> r == Empty
    ensures |KnownVariables(vars)| > 0 && retrieve(Request(CdsNames(KnownVariables(vars)), GetYears(first, last), PointArea(lat, lon))).None? ==> r == Empty
  {
    var known := KnownVariables(vars);
    if |known| == 0 then Empty
    else
      match retrieve(Request(CdsNames(known), GetYears(first, last), PointArea(lat, lon)))
      case None => Empty
      case Some(grid) =>
        match grid(lat, lon)
        case None => Empty
        case Some(hourly) =>
          assert GoodGrid(grid);
          assert WellFormed(grid(lat, lon).value);
          match PointDaily(hourly, start, end, known)
          case None => Empty
          case Some(daily) => daily
  }

  /** The station code of the `i`th location (counting from one): its own,
      or `loc_i`. */
  function CodeOf(loc: Object, i: nat): Value {
    if HasKey(loc, "code_station") then Lookup(loc, "code_station") else Text("loc_" + Decimal(i))
  }

  /** Locations without their own code at different positions get different
      default codes, so their rows stay apart. */
  lemma DefaultCodesDistinct(a: Object, b: Object, i: nat, j: nat)
    requires !HasKey(a, "code_station") && !HasKey(b, "code_station") && i != j
    ensures CodeOf(a, i) != CodeOf(b, j)
  {
    if CodeOf(a, i) == CodeOf(b, j) {
      assert ("loc_" + Decimal(i))[4..] == Decimal(i);
      assert ("loc_" + Decimal(j))[4..] == Decimal(j);
      DecimalInjective(i, j);
    }
  }

  /** Python's `float(v)`: numbers only. */
  function AsFloat(v: Value): Option<real> {
    if v.Num? then Some(v.n) else None
  }

  /** A coordinate of a located object. */
  function Coord(loc: Object, key: string): real {
    var v := Lookup(loc, key);
    if v.Num? then v.n else 0.0
  }

  /** Both coordinates present and numeric. */
  predicate Located(loc: Object) {
    HasKey(loc, "latitude") && HasKey(loc, "longitude")
    && AsFloat(Lookup(loc, "latitude")).Some? && AsFloat(Lookup(loc, "longitude")).Some?
  }

  /** A row carries the code and the coordinates of location `loc`, the
      `i`th counting from one. */
  predicate TaggedBy(row: Row, loc: Object, i: nat) {
    && Get(row, "code_station") == CodeOf(loc, i)
    && Get(row, "latitude") == Lookup(loc, "latitude")
    && Get(row, "longitude") == Lookup(loc, "longitude")
  }

  /** The daily table of one location tagged with its code and coordinates;
      `None` when the location fails and is skipped. */
  function LocationDaily(loc: Object, i: nat, grid: Grid, start: int, end: int, vars: seq<string>): (r: Option<Table>)
    requires Located(loc) && GoodGrid(grid)
    ensures r.Some? ==> WellFormed(r.value)
    ensures r.Some? ==> "code_station" in r.value.columns && "latitude" in r.value.columns && "longitude" in r.value.columns
    ensures r.Some? ==> forall k :: 0 <= k < |r.value.rows| ==> TaggedBy(r.value.rows[k], loc, i)
  {
    var lat := Coord(loc, "latitude");
    var lon := Coord(loc, "longitude");
    match grid(lat, lon)
    case None => None
    case Some(hourly) =>
      match PointDaily(hourly, start, end, vars)
      case None => None
      case Some(daily) =>
        Some(WithConstant(WithConstant(WithConstant(daily, "code_station", CodeOf(loc, i)), "latitude", Num(lat)), "longitude", Num(lon)))
  }

  function Lats(locations: seq<Object>): (xs: seq<real>)
    ensures |xs| == |locations|
    ensures forall i :: 0 <= i < |locations| ==> xs[i] == Coord(locations[i], "latitude")
  {
    seq(|locations|, i requires 0 <= i < |locations| => Coord(locations[i], "latitude"))
  }

  function Lons(locations: seq<Object>): (xs: seq<real>)
    ensures |xs| == |locations|
    ensures forall i :: 0 <= i < |locations| ==> xs[i] == Coord(locations[i], "longitude")
  {
    seq(|locations|, i requires 0 <= i < |locations| => Coord(locations[i], "longitude"))
  }

  /** What each location's extraction gives, in order, the `i`th counting
      from one for its default code. */
  function Attempts(locations: seq<Object>, grid: Grid, start: int, end: int, vars: seq<string>): (as_: seq<Option<Table>>)
    requires forall l :: l in locations ==> Located(l)
    requires GoodGrid(grid)
    ensures |as_| == |locations|
    ensures forall i :: 0 <= i < |locations| ==> as_[i] == LocationDaily(locations[i], i + 1, grid, start, end, vars)
  {
    seq(|locations|, i requires 0 <= i < |locations| => LocationDaily(locations[i], i + 1, grid, start, end, vars))
  }

  /** The tagged daily tables of the locations that did not fail, in order:
      a table is kept exactly when some location's extraction gave it. */
  function Survivors(locations: seq<Object>, grid: Grid, start: int, end: int, vars: seq<string>): (ts: seq<Table>)
    requires forall l :: l in locations ==> Located(l)
    requires GoodGrid(grid)
    ensures |ts| <= |locations|
    ensures forall t :: t in ts <==> exists i :: 0 <= i < |locations| && LocationDaily(locations[i], i + 1, grid, start, end, vars) == Some(t)
    ensures forall t :: t in ts ==> WellFormed(t) && "code_station" in t.columns
  {
    var as_ := Attempts(locations, grid, start, end, vars);
    forall t ensures t in Values(as_) <==> exists i :: 0 <= i < |locations| && LocationDaily(locations[i], i + 1, grid, start, end, vars) == Some(t) {
      ValuesMembers(as_, t);
    }
    Values(as_)
  }

  /** No location failing, every location contributes a table. */
  lemma SurvivorsAll(locations: seq<Object>, grid: Grid, start: int, end: int, vars: seq<string>)
    requires forall l :: l in locations ==> Located(l)
    requires GoodGrid(grid)
    requires forall i :: 0 <= i < |locations| ==> LocationDaily(locations[i], i + 1, grid, start, end, vars).Some?
    ensures |Survivors(locations, grid, start, end, vars)| == |locations|
  {
    ValuesAllDefined(Attempts(locations, grid, start, end, vars));
  }

  /** `get_weather_batch`: one download for a box around all points, then
      each point's tagged daily table; a failing point is skipped. A
      location without numeric coordinates aborts the whole call (the
      coordinates are read before any error handling). */
  function GetWeatherBatch(locations: seq<Object>, first: nat, last: nat, start: int, end: int, vars: Option<seq<string>>,
                           retrieve: Request -> Option<Grid>): (r: Result<Table>)
    requires forall q :: retrieve(q).Some? ==> GoodGrid(retrieve(q).value)
    ensures |locations| == 0 ==> r == Success(Empty)
    ensures r.Failure? <==> |locations| > 0 && exists l :: l in locations && !Located(l)
    ensures r.Success? ==> WellFormed(r.value)
    ensures r.Success? && r.value != Empty ==> "code_station" in r.value.columns
    ensures |locations| > 0 && (forall l :: l in locations ==> Located(l)) && |KnownVariables(vars)| == 0 ==> r == Success(Empty)
  {
    if |locations| == 0 then Success(Empty)
    else if exists l :: l in locations && !Located(l) then Failure("invalid location coordinates")
    else
      var known := KnownVariables(vars);
      if |known| == 0 then Success(Empty)
      else
        var area := BatchArea(Lats(locations), Lons(locations));
        match retrieve(Request(CdsNames(known), GetYears(first, last), area))
        case None => Success(Empty)
        case Some(grid) =>
          var ts := Survivors(locations, grid, start, end, known);
          if |ts| == 0 then Success(Empty)
          else
            assert ts[0] in ts;
            Success(Concat(ts))
  }

  /** Once the box around all points is downloaded, the batch is the
      stacked tables of the points that did not fail; a failed download
      gives the empty table. */
  lemma GetWeatherBatchDownloaded(locations: seq<Object>, first: nat, last: nat, start: int, end: int, vars: Option<seq<string>>,
                                  retrieve: Request -> Option<Grid>)
    requires forall q :: retrieve(q).Some? ==> GoodGrid(retrieve(q).value)
    requires |locations| > 0 && forall l :: l in locations ==> Located(l)
    requires |KnownVariables(vars)| > 0
    ensures var known := KnownVariables(vars);
            var q := Request(CdsNames(known), GetYears(first, last), BatchArea(Lats(locations), Lons(locations)));
            var r := GetWeatherBatch(locations, first, last, start, end, vars, retrieve);
            && (retrieve(q).None? ==> r == Success(Empty))
            && (retrieve(q).Some? ==> r == Success(Concat(Survivors(locations, retrieve(q).value, start, end, known))))
  {
  }

  /** Every row of the stacked point tables carries the code and the
      coordinates of the location it was extracted for. */
  lemma SurvivorRowTagged(locations: seq<Object>, grid: Grid, start: int, end: int, vars: seq<string>, k: int)
    requires forall l :: l in locations ==> Located(l)
    requires GoodGrid(grid)
    requires 0 <= k < |Concat(Survivors(locations, grid, start, end, vars)).rows|
    ensures exists i :: 0 <= i < |locations| && TaggedBy(Concat(Survivors(locations, grid, start, end, vars)).rows[k], locations[i], i + 1)
  {
    var ts := Survivors(locations, grid, start, end, vars);
    forall j | 0 <= j < |ts| ensures WellFormed(ts[j]) {
      assert ts[j] in ts;
    }
    ConcatRowFrom(ts, k);
    var j, m :| 0 <= j < |ts| && 0 <= m < |ts[j].rows| && SameCells(Concat(ts).rows[k], ts[j].rows[m]);
    assert ts[j] in ts;
    var i :| 0 <= i < |locations| && LocationDaily(locations[i], i + 1, grid, start, end, vars) == Some(ts[j]);
    AttemptTagged(locations, grid, start, end, vars, i, m);
    assert TaggedBy(Concat(ts).rows[k], locations[i], i + 1);
  }

  /** Every row of a point table is tagged by the location it came from. */
  lemma AttemptTagged(locations: seq<Object>, grid: Grid, start: int, end: int, vars: seq<string>, i: int, m: int)
    requires forall l :: l in locations ==> Located(l)
    requires GoodGrid(grid)
    requires 0 <= i < |locations|
    requires LocationDaily(locations[i], i + 1, grid, start, end, vars).Some?
    requires 0 <= m < |LocationDaily(locations[i], i + 1, grid, start, end, vars).value.rows|
    ensures TaggedBy(LocationDaily(locations[i], i + 1, grid, start, end, vars).value.rows[m], locations[i], i + 1)
  {
    assert locations[i] in locations;
  }
}
