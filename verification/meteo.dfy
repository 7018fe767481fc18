/** The Open-Meteo historical-weather client: coordinate validation, the
    variables it knows, long periods split into chunks of whole years, one
    chunk's answer turned into a daily table, and the per-location batch.
    Dates are day numbers; adding years is a parameter `step` that must move
    strictly forward (calendar arithmetic is not modelled). The HTTP exchange
    is a parameter returning the parsed JSON body, `None` on any request
    error. */
module Meteo {
  import opened Wrappers
  import opened Seqs
  import opened Tables

  // ---------------------------------------------------------------------
  // Coordinates and variables

  /** `_validate_coordinates`: both values are numbers and lie within the
      latitude and longitude ranges. */
  predicate ValidCoordinates(lat: Value, lon: Value) {
    lat.Num? && lon.Num? && -90.0 <= lat.n <= 90.0 && -180.0 <= lon.n <= 180.0
  }

  /** The bounds are inclusive: the poles and the antimeridian pass; a
      latitude just past a pole fails, and so does a coordinate given as
      text, even one that spells a number. */
  lemma ValidCoordinatesEdges()
    ensures ValidCoordinates(Num(90.0), Num(180.0)) && ValidCoordinates(Num(-90.0), Num(-180.0))
    ensures !ValidCoordinates(Num(90.5), Num(0.0)) && !ValidCoordinates(Num(0.0), Num(-180.5))
    ensures !ValidCoordinates(Text("45"), Num(0.0)) && !ValidCoordinates(Num(0.0), Null)
  {
  }

  /** The user-facing variable names and the API's daily series names. */
  const Available: map<string, string> := map[
    "precipitation" := "precipitation_sum",
    "temperature" := "temperature_2m_mean",
    "temperature_min" := "temperature_2m_min",
    "temperature_max" := "temperature_2m_max",
    "evapotranspiration" := "et0_fao_evapotranspiration",
    "humidity" := "relative_humidity_2m_mean",
    "wind" := "wind_speed_10m_mean",
    "radiation" := "shortwave_radiation_sum"
  ]

  /** The variables asked for when the caller names none. */
  const DefaultVariables: seq<string> := ["precipitation", "temperature", "evapotranspiration"]

  /** The requested variables the client knows, in request order. */
  function KnownVariables(vars: Option<seq<string>>): (vs: seq<string>)
    ensures vars.None? ==> vs == DefaultVariables
    ensures vars.Some? ==> IsSubsequence(vs, vars.value)
    ensures vars.Some? ==> forall v :: v in vs <==> v in vars.value && v in Available
    ensures forall v :: v in vs ==> v in Available
  {
    match vars
    case None => DefaultVariables
    case Some(requested) => FilterIn(requested, Available.Keys)
  }

  // ---------------------------------------------------------------------
  // Date-range chunking

  /** The chunk decision: the span in years (days over 365.25) exceeds the
      chunk length. */
  predicate UsesChunks(start: int, end: int, chunkYears: int) {
    (end - start) as real / 365.25 > chunkYears as real
  }

  /** In whole days: a span is chunked exactly when four times its length
      in days exceeds 1461 days per four years of chunk, so ten-year chunks
      start at a span of 3653 days. */
  lemma UsesChunksDays(start: int, end: int, chunkYears: int)
    ensures UsesChunks(start, end, chunkYears) <==> 4 * (end - start) > 1461 * chunkYears
    ensures chunkYears == 10 ==> (UsesChunks(start, end, chunkYears) <==> end - start >= 3653)
  {
    var span := (end - start) as real;
    assert span / 365.25 * 365.25 == span;
    if UsesChunks(start, end, chunkYears) {
      assert span > chunkYears as real * 365.25;
    }
  }

  function Min(a: int, b: int): int {
    if a <= b then a else b
  }

  /** Day `d` lies in one of the chunks. */
  predicate Covered(cs: seq<(int, int)>, d: int) {
    exists i :: 0 <= i < |cs| && cs[i].0 <= d <= cs[i].1
  }

  /** `_split_date_range` as written: chunks are taken while the next start
      is strictly before the end date. */
  function SplitAsWritten(start: int, end: int, step: int -> int): (cs: seq<(int, int)>)
    requires forall d :: step(d) > d
    ensures start >= end ==> cs == []
    ensures |cs| > 0 ==> cs[0].0 == start
    ensures forall i :: 0 <= i < |cs| ==> start <= cs[i].0 < cs[i].1 <= end
    ensures forall i :: 0 <= i < |cs| - 1 ==> cs[i + 1].0 == cs[i].1 + 1
    decreases end - start
  {
    if start < end then
      var e := Min(step(start), end);
      [(start, e)] + SplitAsWritten(e + 1, end, step)
    else []
  }

  /** As written, every day before the end date is covered. */
  lemma {:induction false} SplitAsWrittenCoversBeforeEnd(start: int, end: int, step: int -> int, d: int)
    requires forall d :: step(d) > d
    requires start <= d < end
    ensures Covered(SplitAsWritten(start, end, step), d)
    decreases end - start
  {
    var e := Min(step(start), end);
    var rest := SplitAsWritten(e + 1, end, step);
    assert SplitAsWritten(start, end, step) == [(start, e)] + rest;
    if d > e {
      SplitAsWrittenCoversBeforeEnd(e + 1, end, step, d);
    }
    CoveredCons((start, e), rest, d);
  }

  /** As written, the end date itself is missed when a chunk stops the day
      before it: ten years from 2000-01-01 (day 10957) end on 2010-01-01
      (day 14610), so a request up to 2010-01-02 (day 14611) never asks for
      its last day. */
  lemma SplitAsWrittenMissesEnd()
    ensures var cs := SplitAsWritten(10957, 14611, d => d + 3653);
            cs == [(10957, 14610)] && !Covered(cs, 14611)
  {
    var step := (d: int) => d + 3653;
    assert SplitAsWritten(14611, 14611, step) == [];
  }

  /** The corrected split: chunks are taken while the next start is not
      after the end date, so the last day is always asked for. */
  function SplitDateRange(start: int, end: int, step: int -> int): (cs: seq<(int, int)>)
    requires forall d :: step(d) > d
    ensures start > end ==> cs == []
    ensures |cs| > 0 ==> cs[0].0 == start && cs[|cs| - 1].1 == end
    ensures forall i :: 0 <= i < |cs| ==> start <= cs[i].0 <= cs[i].1 <= end
    ensures forall i :: 0 <= i < |cs| - 1 ==> cs[i + 1].0 == cs[i].1 + 1
    decreases end - start + 1
  {
    if start <= end then
      var e := Min(step(start), end);
      [(start, e)] + SplitDateRange(e + 1, end, step)
    else []
  }

  /** Every day of the range lies in a chunk. */
  lemma SplitDateRangeCovers(start: int, end: int, step: int -> int, d: int)
    requires forall d :: step(d) > d
    requires start <= d <= end
    ensures Covered(SplitDateRange(start, end, step), d)
  {
    var cs := SplitDateRange(start, end, step);
    assert |cs| > 0;
    ChainCovers(cs, d);
  }

  /** Chained chunks cover every day from the first start to the last end. */
  lemma {:induction false} ChainCovers(cs: seq<(int, int)>, d: int)
    requires |cs| > 0 && cs[0].0 <= d <= cs[|cs| - 1].1
    requires forall i :: 0 <= i < |cs| - 1 ==> cs[i + 1].0 == cs[i].1 + 1
    ensures Covered(cs, d)
    decreases |cs|
  {
    if d > cs[0].1 {
      var rest := cs[1..];
      assert cs[1].0 == cs[0].1 + 1;
      forall i | 0 <= i < |rest| - 1 ensures rest[i + 1].0 == rest[i].1 + 1 {
        assert rest[i + 1] == cs[i + 2] && rest[i] == cs[i + 1];
      }
      ChainCovers(rest, d);
      var i :| 0 <= i < |rest| && rest[i].0 <= d <= rest[i].1;
      assert cs[i + 1] == rest[i];
    }
  }

  /** A day covered by the head chunk or by the rest is covered. */
  lemma CoveredCons(c: (int, int), rest: seq<(int, int)>, d: int)
    requires c.0 <= d <= c.1 || Covered(rest, d)
    ensures Covered([c] + rest, d)
  {
    var cs := [c] + rest;
    if c.0 <= d <= c.1 {
      assert cs[0] == c;
    } else {
      var i :| 0 <= i < |rest| && rest[i].0 <= d <= rest[i].1;
      assert cs[i + 1] == rest[i];
    }
  }

  /** No day lies in two chunks. */
  lemma SplitDateRangeDisjoint(start: int, end: int, step: int -> int)
    requires forall d :: step(d) > d
    ensures forall i, j :: 0 <= i < j < |SplitDateRange(start, end, step)| ==>
              SplitDateRange(start, end, step)[i].1 < SplitDateRange(start, end, step)[j].0
  {
    ChunksAscend(SplitDateRange(start, end, step));
  }

  /** Chained chunks are strictly ordered and disjoint. */
  lemma {:induction false} ChunksAscend(cs: seq<(int, int)>)
    requires forall i :: 0 <= i < |cs| ==> cs[i].0 <= cs[i].1
    requires forall i :: 0 <= i < |cs| - 1 ==> cs[i + 1].0 == cs[i].1 + 1
    ensures forall i, j :: 0 <= i < j < |cs| ==> cs[i].1 < cs[j].0
    decreases |cs|
  {
    if |cs| > 1 {
      ChunksAscend(cs[1..]);
      forall i, j | 0 <= i < j < |cs| ensures cs[i].1 < cs[j].0 {
        if i > 0 {
          assert cs[i] == cs[1..][i - 1] && cs[j] == cs[1..][j - 1];
        } else if j > 1 {
          assert cs[1] == cs[1..][0] && cs[j] == cs[1..][j - 1];
        }
      }
    }
  }

  /** The date ranges `get_weather_data` asks for, as written: one when the
      span is short, the chunks of `_split_date_range` otherwise. Every day
      before the end date is asked for. */
  function Requests(start: int, end: int, chunkYears: int, step: int -> int): (rs: seq<(int, int)>)
    requires forall d :: step(d) > d
    ensures forall d :: start <= d < end ==> Covered(rs, d)
    ensures forall i :: 0 <= i < |rs| ==> start <= rs[i].0 && rs[i].1 <= end
    ensures !UsesChunks(start, end, chunkYears) ==> rs == [(start, end)]
  {
    if UsesChunks(start, end, chunkYears) then
      var cs := SplitAsWritten(start, end, step);
      forall d | start <= d < end ensures Covered(cs, d) {
        SplitAsWrittenCoversBeforeEnd(start, end, step, d);
      }
      cs
    else
      var rs := [(start, end)];
      forall d | start <= d < end ensures Covered(rs, d) {
        assert rs[0].0 <= d <= rs[0].1;
      }
      rs
  }

  /** As written, a long span can leave its last day out of every request:
      2000-01-01 to 2010-01-02 in ten-year chunks, whose one chunk stops at
      2010-01-01. */
  lemma RequestsMissEnd()
    ensures !Covered(Requests(10957, 14611, 10, d => d + 3653), 14611)
  {
    UsesChunksDays(10957, 14611, 10);
    SplitAsWrittenMissesEnd();
  }

  /** The corrected requests: with the corrected split every day of the
      range, the end date included, is asked for. */
  function RequestsCorrected(start: int, end: int, chunkYears: int, step: int -> int): (rs: seq<(int, int)>)
    requires forall d :: step(d) > d
    ensures forall d :: start <= d <= end ==> Covered(rs, d)
    ensures forall i :: 0 <= i < |rs| ==> start <= rs[i].0 && rs[i].1 <= end
    ensures !UsesChunks(start, end, chunkYears) ==> rs == [(start, end)]
  {
    if UsesChunks(start, end, chunkYears) then
      var cs := SplitDateRange(start, end, step);
      forall d | start <= d <= end ensures Covered(cs, d) {
        SplitDateRangeCovers(start, end, step, d);
      }
      cs
    else
      var rs := [(start, end)];
      forall d | start <= d <= end ensures Covered(rs, d) {
        assert rs[0].0 <= d <= rs[0].1;
      }
      rs
  }

  // ---------------------------------------------------------------------
  // One chunk's answer

  /** The series names of the known variables, in order. */
  function ApiNames(vars: seq<string>): (ns: seq<string>)
    requires forall v :: v in vars ==> v in Available
    ensures |ns| == |vars|
    ensures forall j :: 0 <= j < |vars| ==> ns[j] == Available[vars[j]]
  {
    seq(|vars|, j requires 0 <= j < |vars| => Available[vars[j]])
  }

  /** The variables whose series the `daily` object holds, each once, in
      the order they were first asked for (a repeated key of the column
      dictionary keeps its first position). */
  function Present(daily: Object, vars: seq<string>): (ps: seq<string>)
    requires forall v :: v in vars ==> v in Available
    ensures Distinct(ps)
    ensures IsSubsequence(ps, Dedup(vars))
    ensures forall v :: v in ps <==> v in vars && HasKey(daily, Available[v])
  {
    var keep := set v | v in vars && HasKey(daily, Available[v]);
    FilterInDistinct(Dedup(vars), keep);
    FilterIn(Dedup(vars), keep)
  }

  /** Every series holds a list with one entry per time stamp. */
  predicate Aligned(daily: Object, ps: seq<string>, n: nat)
    requires forall v :: v in ps ==> v in Available
  {
    forall j :: 0 <= j < |ps| ==>
      Lookup(daily, Available[ps[j]]).List? && |Lookup(daily, Available[ps[j]]).items| == n
  }

  /** The `daily` object of an answer, when there is one. */
  function Daily(body: Option<Object>): Option<Object> {
    if body.Some? && HasKey(body.value, "daily") && Lookup(body.value, "daily").Dict? then
      Some(Lookup(body.value, "daily").entries)
    else None
  }

  /** The `time` list of a `daily` object, when there is one. */
  function Times(daily: Object): Option<seq<Value>> {
    if HasKey(daily, "time") && Lookup(daily, "time").List? then Some(Lookup(daily, "time").items) else None
  }

  /** `pd.to_datetime` reads every time stamp: each is missing or an
      instant (a text it cannot read raises `ValueError`). */
  predicate Readable(time: seq<Value>) {
    forall i :: 0 <= i < |time| ==> time[i].Null? || ToStamp(time[i]).Stamp?
  }

  /** A `date` column ahead of distinct variable names keeps the names
      distinct: no variable is called `date`. */
  lemma DateFirstDistinct(ps: seq<string>)
    requires Distinct(ps) && forall v :: v in ps ==> v in Available
    ensures Distinct(["date"] + ps)
  {
    var names := ["date"] + ps;
    assert "date" !in Available;
    forall i, j | 0 <= i < |names| && 0 <= j < |names| && i != j ensures names[i] != names[j] {
      if i > 0 && j > 0 {
        assert names[i] == ps[i - 1] && names[j] == ps[j - 1];
      } else if i > 0 {
        assert names[i] in ps;
      } else {
        assert names[j] in ps;
      }
    }
  }

  /** Row `i` of an aligned answer: the day of the `i`-th time stamp, then
      the `i`-th entry of each series. */
  function ChunkRow(daily: Object, ps: seq<string>, time: seq<Value>, i: nat): (row: Row)
    requires forall v :: v in ps ==> v in Available
    requires Distinct(["date"] + ps) && Aligned(daily, ps, |time|) && i < |time|
    ensures row.Keys == set c | c in ["date"] + ps
    ensures row["date"] == ToDate(time[i])
    ensures forall j :: 0 <= j < |ps| ==> row[ps[j]] == Lookup(daily, Available[ps[j]]).items[i]
  {
    var vs := seq(|ps|, j requires 0 <= j < |ps| => Lookup(daily, Available[ps[j]]).items[i]);
    var row := Assign(["date"] + ps, [ToDate(time[i])] + vs);
    assert (["date"] + ps)[0] == "date";
    AssignTailAll("date", ps, ToDate(time[i]), vs);
    row
  }

  /** `_fetch_weather_chunk` given the parsed answer: a `date` column (the
      calendar day of each time stamp) followed by one column per requested
      variable the answer holds, in request order. A failed request, an
      answer without `daily.time`, a time stamp that does not parse, or
      series of unequal length give the empty table (the `ValueError`
      handler). The variable cells are stated by `ChunkTableCell`. */
  function ChunkTable(body: Option<Object>, vars: seq<string>): (r: Table)
    requires forall v :: v in vars ==> v in Available
    ensures WellFormed(r)
    ensures Daily(body).None? || Times(Daily(body).value).None? ==> r == Empty
    ensures Daily(body).Some? && Times(Daily(body).value).Some? && !Readable(Times(Daily(body).value).value) ==> r == Empty
    ensures (Daily(body).Some? && Times(Daily(body).value).Some?
             && !Aligned(Daily(body).value, Present(Daily(body).value, vars), |Times(Daily(body).value).value|)) ==> r == Empty
    ensures r != Empty ==>
              && Daily(body).Some? && Times(Daily(body).value).Some? && Readable(Times(Daily(body).value).value)
              && Aligned(Daily(body).value, Present(Daily(body).value, vars), |Times(Daily(body).value).value|)
              && r.columns == ["date"] + Present(Daily(body).value, vars)
              && (forall c :: c in r.columns[1..] <==> c in vars && HasKey(Daily(body).value, Available[c]))
              && |r.rows| == |Times(Daily(body).value).value|
              && forall i :: 0 <= i < |r.rows| ==> r.rows[i]["date"] == ToDate(Times(Daily(body).value).value[i])
  {
    if Daily(body).None? || Times(Daily(body).value).None? then Empty
    else
      var daily := Daily(body).value;
      var time := Times(daily).value;
      var ps := Present(daily, vars);
      if !Readable(time) || !Aligned(daily, ps, |time|) then Empty
      else
        var names := ["date"] + ps;
        DateFirstDistinct(ps);
        var rows := seq(|time|, i requires 0 <= i < |time| => ChunkRow(daily, ps, time, i));
        assert names[1..] == ps;
        assert ColumnSet(Table(names, rows)) == set c | c in names;
        Table(names, rows)
  }

  /** A variable cell of an answer's table is the entry of that variable's
      series at the row's position. */
  lemma ChunkTableCell(body: Option<Object>, vars: seq<string>, i: int, j: int)
    requires forall v :: v in vars ==> v in Available
    requires ChunkTable(body, vars) != Empty
    requires 0 <= i < |ChunkTable(body, vars).rows| && 1 <= j < |ChunkTable(body, vars).columns|
    ensures var daily, c := Daily(body).value, ChunkTable(body, vars).columns[j];
            && c in vars && c in Available
            && Lookup(daily, Available[c]).List? && i < |Lookup(daily, Available[c]).items|
            && ChunkTable(body, vars).rows[i][c] == Lookup(daily, Available[c]).items[i]
  {
    var daily := Daily(body).value;
    var time := Times(daily).value;
    var ps := Present(daily, vars);
    assert ChunkTable(body, vars).columns[j] == ps[j - 1];
    assert ChunkTable(body, vars).rows[i] == ChunkRow(daily, ps, time, i);
  }

  // ---------------------------------------------------------------------
  // One location

  /** The answers to a list of requests, one table each, in order. */
  function Answers(rs: seq<(int, int)>, known: seq<string>, fetch: (int, int) -> Option<Object>): (ts: seq<Table>)
    requires forall v :: v in known ==> v in Available
    ensures |ts| == |rs|
    ensures forall i :: 0 <= i < |rs| ==> ts[i] == ChunkTable(fetch(rs[i].0, rs[i].1), known)
  {
    seq(|rs|, i requires 0 <= i < |rs| => ChunkTable(fetch(rs[i].0, rs[i].1), known))
  }

  /** The non-empty answers stacked: each row comes from an answer to one
      of the requests, widened to the union of the columns. */
  lemma AnswersRowOrigin(rs: seq<(int, int)>, known: seq<string>, fetch: (int, int) -> Option<Object>, i: int)
    requires forall v :: v in known ==> v in Available
    requires 0 <= i < |Concat(NonEmpty(Answers(rs, known, fetch))).rows|
    ensures var t := Concat(NonEmpty(Answers(rs, known, fetch)));
            exists k, row :: 0 <= k < |rs| && row in ChunkTable(fetch(rs[k].0, rs[k].1), known).rows &&
                             t.rows[i] == Widen(row, ColumnSet(t))
  {
    var kept := NonEmpty(Answers(rs, known, fetch));
    ConcatRowOrigin(kept, i);
    var j, row :| 0 <= j < |kept| && row in kept[j].rows && Concat(kept).rows[i] == Widen(row, ColumnSet(Concat(kept)));
    assert kept[j] in kept;
    var k :| 0 <= k < |rs| && Answers(rs, known, fetch)[k] == kept[j];
  }

  /** `get_weather_data` for one location, as written: nothing for invalid
      coordinates or when no known variable is asked for; a single answer
      when the span is short; otherwise the answers to the chunks of
      `_split_date_range`, the non-empty ones stacked. */
  function GetWeatherData(lat: Value, lon: Value, start: int, end: int, vars: Option<seq<string>>, chunkYears: int,
                          step: int -> int, fetch: (int, int) -> Option<Object>): (r: Table)
    requires forall d :: step(d) > d
    ensures WellFormed(r)
    ensures !ValidCoordinates(lat, lon) ==> r == Empty
    ensures |KnownVariables(vars)| == 0 ==> r == Empty
    ensures ValidCoordinates(lat, lon) && |KnownVariables(vars)| > 0 && !UsesChunks(start, end, chunkYears) ==>
              r == ChunkTable(fetch(start, end), KnownVariables(vars))
    ensures ValidCoordinates(lat, lon) && |KnownVariables(vars)| > 0 && UsesChunks(start, end, chunkYears) ==>
              r == Concat(NonEmpty(Answers(SplitAsWritten(start, end, step), KnownVariables(vars), fetch)))
  {
    var known := KnownVariables(vars);
    if !ValidCoordinates(lat, lon) || |known| == 0 then Empty
    else if !UsesChunks(start, end, chunkYears) then ChunkTable(fetch(start, end), known)
    else
      var kept := NonEmpty(Answers(Requests(start, end, chunkYears, step), known, fetch));
      if |kept| == 0 then Empty else Concat(kept)
  }

  /** The corrected `get_weather_data`: the same, asking for the chunks of
      the corrected split, so that the end date is always requested. */
  function GetWeatherDataCorrected(lat: Value, lon: Value, start: int, end: int, vars: Option<seq<string>>, chunkYears: int,
                                   step: int -> int, fetch: (int, int) -> Option<Object>): (r: Table)
    requires forall d :: step(d) > d
    ensures WellFormed(r)
    ensures !ValidCoordinates(lat, lon) ==> r == Empty
    ensures |KnownVariables(vars)| == 0 ==> r == Empty
    ensures ValidCoordinates(lat, lon) && |KnownVariables(vars)| > 0 && !UsesChunks(start, end, chunkYears) ==>
              r == ChunkTable(fetch(start, end), KnownVariables(vars))
    ensures ValidCoordinates(lat, lon) && |KnownVariables(vars)| > 0 && UsesChunks(start, end, chunkYears) ==>
              r == Concat(NonEmpty(Answers(SplitDateRange(start, end, step), KnownVariables(vars), fetch)))
  {
    var known := KnownVariables(vars);
    if !ValidCoordinates(lat, lon) || |known| == 0 then Empty
    else if !UsesChunks(start, end, chunkYears) then ChunkTable(fetch(start, end), known)
    else
      var kept := NonEmpty(Answers(RequestsCorrected(start, end, chunkYears, step), known, fetch));
      if |kept| == 0 then Empty else Concat(kept)
  }

  // ---------------------------------------------------------------------
  // The batch

  /** Python's `float(v)` on a coordinate: numbers only. */
  function AsFloat(v: Value): Option<real> {
    if v.Num? then Some(v.n) else None
  }

  /** One location of `get_weather_batch`: `None` (a failure) when a
      coordinate is missing or not numeric, or when no data came back;
      otherwise the data tagged with the location's coordinates and, when it
      has one, its station code. */
  function LocationData(loc: Object, data: (real, real) -> Table): (r: Option<Table>)
    ensures !HasKey(loc, "latitude") || !HasKey(loc, "longitude") ==> r.None?
    ensures AsFloat(Lookup(loc, "latitude")).None? || AsFloat(Lookup(loc, "longitude")).None? ==> r.None?
    ensures r.Some? ==> !IsEmpty(r.value) && WellFormed(r.value)
    ensures r.Some? ==> "latitude" in r.value.columns && "longitude" in r.value.columns
    ensures r.Some? ==> forall i :: 0 <= i < |r.value.rows| ==>
              && Get(r.value.rows[i], "latitude") == Lookup(loc, "latitude")
              && Get(r.value.rows[i], "longitude") == Lookup(loc, "longitude")
    ensures r.Some? && HasKey(loc, "code_station") ==> forall i :: 0 <= i < |r.value.rows| ==>
              Get(r.value.rows[i], "code_station") == Lookup(loc, "code_station")
  {
    if !HasKey(loc, "latitude") || !HasKey(loc, "longitude") then None
    else
      var lat := AsFloat(Lookup(loc, "latitude"));
      var lon := AsFloat(Lookup(loc, "longitude"));
      if lat.None? || lon.None? then None
      else
        var df := data(lat.value, lon.value);
        if IsEmpty(df) || !WellFormed(df) then None
        else
          var coded := if HasKey(loc, "code_station") then WithConstant(df, "code_station", Lookup(loc, "code_station")) else df;
          Some(WithConstant(WithConstant(coded, "latitude", Num(lat.value)), "longitude", Num(lon.value)))
  }

  /** A row of one location's tagged table: the location's numeric
      coordinates and, when it has one, its station code; every other cell
      reads as row `m` of the data fetched for those coordinates. */
  ghost predicate FromLocation(row: Row, loc: Object, data: (real, real) -> Table, m: int) {
    && Lookup(loc, "latitude").Num? && Lookup(loc, "longitude").Num?
    && 0 <= m < |data(Lookup(loc, "latitude").n, Lookup(loc, "longitude").n).rows|
    && Get(row, "latitude") == Lookup(loc, "latitude")
    && Get(row, "longitude") == Lookup(loc, "longitude")
    && (HasKey(loc, "code_station") ==> Get(row, "code_station") == Lookup(loc, "code_station"))
    && forall c :: c != "latitude" && c != "longitude" && (c == "code_station" ==> !HasKey(loc, "code_station")) ==>
         Get(row, c) == Get(data(Lookup(loc, "latitude").n, Lookup(loc, "longitude").n).rows[m], c)
  }

  /** Row `m` of a location's tagged table is row `m` of its data, tagged. */
  lemma LocationDataRow(loc: Object, data: (real, real) -> Table, m: int)
    requires LocationData(loc, data).Some?
    requires 0 <= m < |LocationData(loc, data).value.rows|
    ensures FromLocation(LocationData(loc, data).value.rows[m], loc, data, m)
  {
    var df := data(Lookup(loc, "latitude").n, Lookup(loc, "longitude").n);
    var coded := if HasKey(loc, "code_station") then WithConstant(df, "code_station", Lookup(loc, "code_station")) else df;
    var withLat := WithConstant(coded, "latitude", Lookup(loc, "latitude"));
    var row := LocationData(loc, data).value.rows[m];
    assert row == WithConstant(withLat, "longitude", Lookup(loc, "longitude")).rows[m];
    forall c | c != "latitude" && c != "longitude" && (c == "code_station" ==> !HasKey(loc, "code_station"))
      ensures Get(row, c) == Get(df.rows[m], c)
    {
      WithConstantGet(withLat, "longitude", Lookup(loc, "longitude"), m, c);
      WithConstantGet(coded, "latitude", Lookup(loc, "latitude"), m, c);
      if HasKey(loc, "code_station") {
        WithConstantGet(df, "code_station", Lookup(loc, "code_station"), m, c);
      }
    }
  }

  /** The tables the locations contribute, in order: a table is there
      exactly when some location's tagged data is that table. */
  function Contributions(locations: seq<Object>, data: (real, real) -> Table): (ts: seq<Table>)
    ensures |ts| <= |locations|
    ensures forall t :: t in ts <==> exists k :: 0 <= k < |locations| && LocationData(locations[k], data) == Some(t)
    ensures forall j :: 0 <= j < |ts| ==> WellFormed(ts[j]) && !IsEmpty(ts[j])
  {
    var f := l => LocationData(l, data);
    var ts := FilterMap(locations, f);
    forall t ensures t in ts <==> exists k :: 0 <= k < |locations| && LocationData(locations[k], data) == Some(t) {
      FilterMapMembers(locations, f, t);
    }
    assert forall j :: 0 <= j < |ts| ==> ts[j] in ts;
    ts
  }

  datatype BatchOutcome = BatchOutcome(table: Table, success: nat, fail: nat)

  /** `get_weather_batch`: each location either contributes its tagged rows
      or counts as a failure; the contributions are concatenated. Which rows
      those are is stated by `GetWeatherBatchRowTagged`. */
  function GetWeatherBatch(locations: seq<Object>, data: (real, real) -> Table): (r: BatchOutcome)
    ensures r.success + r.fail == |locations|
    ensures |locations| == 0 ==> r == BatchOutcome(Empty, 0, 0)
    ensures r.success == 0 ==> r.table == Empty
    ensures WellFormed(r.table)
    ensures r.success == |Contributions(locations, data)|
    ensures r.success > 0 ==> r.table == Concat(Contributions(locations, data))
    ensures r.success > 0 ==> |r.table.rows| == TotalRows(Contributions(locations, data))
  {
    var kept := Contributions(locations, data);
    if |kept| == 0 then BatchOutcome(Empty, 0, |locations|)
    else BatchOutcome(Concat(kept), |kept|, |locations| - |kept|)
  }

  /** Every row of the batch is a row of the data fetched for one location
      with numeric coordinates, carrying that location's coordinates and
      station code. */
  lemma GetWeatherBatchRowTagged(locations: seq<Object>, data: (real, real) -> Table, i: int)
    requires 0 <= i < |GetWeatherBatch(locations, data).table.rows|
    ensures exists k, m :: 0 <= k < |locations| && FromLocation(GetWeatherBatch(locations, data).table.rows[i], locations[k], data, m)
  {
    var kept := Contributions(locations, data);
    ConcatRowFrom(kept, i);
    var j, n :| 0 <= j < |kept| && 0 <= n < |kept[j].rows| && SameCells(Concat(kept).rows[i], kept[j].rows[n]);
    assert kept[j] in kept;
    var k :| 0 <= k < |locations| && LocationData(locations[k], data) == Some(kept[j]);
    LocationDataRow(locations[k], data, n);
    FromLocationSame(Concat(kept).rows[i], kept[j].rows[n], locations[k], data, n);
  }

  /** Rows that read the same come from the same location's row. */
  lemma FromLocationSame(x: Row, y: Row, loc: Object, data: (real, real) -> Table, m: int)
    requires SameCells(x, y) && FromLocation(y, loc, data, m)
    ensures FromLocation(x, loc, data, m)
  {
    assert Get(x, "latitude") == Get(y, "latitude") && Get(x, "longitude") == Get(y, "longitude");
    assert Get(x, "code_station") == Get(y, "code_station");
  }
}
