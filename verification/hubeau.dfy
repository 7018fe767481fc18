/** The client of the Hub'Eau groundwater-level API: station attributes
    fetched in batches of codes, and level measurements ("chroniques")
    fetched one station at a time. The HTTP exchange is a parameter: it maps
    the request to the parsed JSON body, `None` when the request failed
    (timeout, HTTP error, network error) or the body was not JSON. */
module HubEau {
  import opened Wrappers
  import opened Seqs
  import opened Tables

  /** The most station codes sent in one request. */
  const BatchSize: nat := 50

  /** The requests `get_stations` makes: consecutive slices of the codes of
      at most `BatchSize` codes each. */
  function Batches(codes: seq<string>): (bs: seq<seq<string>>)
    ensures Flatten(bs) == codes
    ensures (|bs| - 1) * BatchSize < |codes| <= |bs| * BatchSize
    ensures forall i :: 0 <= i < |bs| ==> 0 < |bs[i]| <= BatchSize
    ensures |codes| == 0 <==> bs == []
  {
    Chunks(codes, BatchSize)
  }

  /** The objects of a JSON list, other items ignored. */
  function Objects(items: seq<Value>): (os: seq<Object>)
    ensures |os| <= |items|
    ensures forall o :: o in os <==> Dict(o) in items
  {
    var f := (v: Value) => if v.Dict? then Some(v.entries) else None;
    var os := FilterMap(items, f);
    forall o ensures o in os <==> Dict(o) in items {
      FilterMapMembers(items, f, o);
      if Dict(o) in items {
        var i :| 0 <= i < |items| && items[i] == Dict(o);
        assert f(items[i]) == Some(o);
      }
    }
    os
  }

  /** The records of a response's `data` field; none when the request
      failed or the field is absent. */
  function DataRecords(body: Option<Object>): (rs: seq<Object>)
    ensures body.None? ==> rs == []
    ensures body.Some? && !HasKey(body.value, "data") ==> rs == []
    ensures forall o :: o in rs ==> body.Some? && Lookup(body.value, "data").List? && Dict(o) in Lookup(body.value, "data").items
  {
    if body.None? || !HasKey(body.value, "data") then []
    else
      var d := Lookup(body.value, "data");
      if d.List? then Objects(d.items) else []
  }

  /** The station records gathered over all batches, in batch order. */
  function StationRecords(codes: seq<string>, fetch: seq<string> -> Option<Object>): (rs: seq<Object>)
    ensures |codes| == 0 ==> rs == []
  {
    var bs := Batches(codes);
    Flatten(seq(|bs|, i requires 0 <= i < |bs| => DataRecords(fetch(bs[i]))))
  }

  /** A failed batch adds nothing, and every record of every other batch is
      kept. */
  lemma StationRecordsFromBatches(codes: seq<string>, fetch: seq<string> -> Option<Object>, o: Object)
    ensures o in StationRecords(codes, fetch) <==>
              exists i :: 0 <= i < |Batches(codes)| && o in DataRecords(fetch(Batches(codes)[i]))
  {
    var bs := Batches(codes);
    var per := seq(|bs|, i requires 0 <= i < |bs| => DataRecords(fetch(bs[i])));
    FlattenMembers(per, o);
    assert forall i :: 0 <= i < |bs| ==> per[i] == DataRecords(fetch(bs[i]));
  }

  /** `extract_coords`: (longitude, latitude) from a GeoJSON geometry whose
      `coordinates` list has at least two entries; both missing otherwise. */
  function CoordsOf(geom: Value): (lonLat: (Value, Value))
    ensures (geom.Dict? && HasKey(geom.entries, "coordinates")
             && Lookup(geom.entries, "coordinates").List? && |Lookup(geom.entries, "coordinates").items| >= 2)
            ==> lonLat == (Lookup(geom.entries, "coordinates").items[0], Lookup(geom.entries, "coordinates").items[1])
    ensures !(geom.Dict? && HasKey(geom.entries, "coordinates")
              && Lookup(geom.entries, "coordinates").List? && |Lookup(geom.entries, "coordinates").items| >= 2)
            ==> lonLat == (Null, Null)
  {
    if geom.Dict? && HasKey(geom.entries, "coordinates") then
      var coords := Lookup(geom.entries, "coordinates");
      if coords.List? && |coords.items| >= 2 then (coords.items[0], coords.items[1]) else (Null, Null)
    else (Null, Null)
  }

  /** The numeric longitude and latitude columns `get_stations` derives:
      from `geometry` when present, else from `x` and `y`, else none. */
  function WithCoords(df: Table): (r: Table)
    requires WellFormed(df)
    ensures WellFormed(r)
    ensures |r.rows| == |df.rows|
    ensures forall c :: c in df.columns ==> c in r.columns
    ensures forall c :: c in r.columns ==> c in df.columns || c == "longitude" || c == "latitude"
    ensures forall i, c :: 0 <= i < |df.rows| && c in df.columns && c != "longitude" && c != "latitude" ==> r.rows[i][c] == df.rows[i][c]
    ensures "geometry" in df.columns ==>
              && "longitude" in r.columns && "latitude" in r.columns
              && forall i :: 0 <= i < |df.rows| ==>
                   && Get(r.rows[i], "longitude") == ToNumeric(CoordsOf(Get(df.rows[i], "geometry")).0)
                   && Get(r.rows[i], "latitude") == ToNumeric(CoordsOf(Get(df.rows[i], "geometry")).1)
    ensures "geometry" !in df.columns && "x" in df.columns && "y" in df.columns ==>
              && "longitude" in r.columns && "latitude" in r.columns
              && forall i :: 0 <= i < |df.rows| ==>
                   Get(r.rows[i], "longitude") == ToNumeric(Get(df.rows[i], "x")) && Get(r.rows[i], "latitude") == ToNumeric(Get(df.rows[i], "y"))
    ensures "geometry" !in df.columns && !("x" in df.columns && "y" in df.columns) ==> r == df
  {
    var n := |df.rows|;
    if "geometry" in df.columns then
      var lon := seq(n, i requires 0 <= i < n => ToNumeric(CoordsOf(Get(df.rows[i], "geometry")).0));
      var lat := seq(n, i requires 0 <= i < n => ToNumeric(CoordsOf(Get(df.rows[i], "geometry")).1));
      SetColumn(SetColumn(df, "longitude", lon), "latitude", lat)
    else if "x" in df.columns && "y" in df.columns then
      var lon := seq(n, i requires 0 <= i < n => ToNumeric(Get(df.rows[i], "x")));
      var lat := seq(n, i requires 0 <= i < n => ToNumeric(Get(df.rows[i], "y")));
      SetColumn(SetColumn(df, "longitude", lon), "latitude", lat)
    else df
  }

  /** `get_stations`: the records of all successful batches as one table
      with coordinates added; empty when no code is given, no record came
      back, or the records carry no `code_bss`. */
  function GetStations(codes: seq<string>, fetch: seq<string> -> Option<Object>): (r: Table)
    ensures WellFormed(r)
    ensures |codes| == 0 ==> r == Empty
    ensures r == Empty || "code_bss" in r.columns
    ensures r != Empty ==> |r.rows| == |StationRecords(codes, fetch)|
    ensures r != Empty ==> forall i :: 0 <= i < |r.rows| ==>
              r.rows[i]["code_bss"] == Lookup(StationRecords(codes, fetch)[i], "code_bss")
  {
    var records := StationRecords(codes, fetch);
    if |codes| == 0 || |records| == 0 then Empty
    else
      var df := FromRecords(records);
      if "code_bss" !in df.columns then Empty
      else
        var r := WithCoords(df);
        assert |r.rows| > 0;
        r
  }

  /** Some record carries the field `k`: `k` is a column of the records'
      table. */
  predicate Carries(records: seq<Object>, k: string) {
    exists i :: 0 <= i < |records| && HasKey(records[i], k)
  }

  /** Row `i` of the station table holds record `i`'s fields, missing where
      the record lacks one. The coordinates are read from `geometry` when
      some record has it, else from `x` and `y` when some records have
      them, else they are the record's own fields. */
  lemma GetStationsCells(codes: seq<string>, fetch: seq<string> -> Option<Object>, i: int, c: string)
    requires 0 <= i < |GetStations(codes, fetch).rows|
    ensures var recs := StationRecords(codes, fetch);
            var rec, row := recs[i], GetStations(codes, fetch).rows[i];
            && (c != "longitude" && c != "latitude" ==> Get(row, c) == Lookup(rec, c))
            && (Carries(recs, "geometry") ==>
                  && Get(row, "longitude") == ToNumeric(CoordsOf(Lookup(rec, "geometry")).0)
                  && Get(row, "latitude") == ToNumeric(CoordsOf(Lookup(rec, "geometry")).1))
            && (!Carries(recs, "geometry") && Carries(recs, "x") && Carries(recs, "y") ==>
                  Get(row, "longitude") == ToNumeric(Lookup(rec, "x")) && Get(row, "latitude") == ToNumeric(Lookup(rec, "y")))
            && (!Carries(recs, "geometry") && !(Carries(recs, "x") && Carries(recs, "y")) ==>
                  Get(row, "longitude") == Lookup(rec, "longitude") && Get(row, "latitude") == Lookup(rec, "latitude"))
  {
    var recs := StationRecords(codes, fetch);
    var df := FromRecords(recs);
    assert GetStations(codes, fetch) == WithCoords(df);
    FromRecordsColumn(recs, "geometry");
    FromRecordsColumn(recs, "x");
    FromRecordsColumn(recs, "y");
    FromRecordsGet(recs, i, c);
    FromRecordsGet(recs, i, "geometry");
    FromRecordsGet(recs, i, "x");
    FromRecordsGet(recs, i, "y");
    FromRecordsGet(recs, i, "longitude");
    FromRecordsGet(recs, i, "latitude");
  }


  /** Only the batches actually requested matter: on empty input nothing is
      requested and the answer does not depend on the exchange. */
  lemma GetStationsUsesOnlyBatches(codes: seq<string>, f: seq<string> -> Option<Object>, g: seq<string> -> Option<Object>)
    requires forall b :: b in Batches(codes) ==> f(b) == g(b)
    ensures GetStations(codes, f) == GetStations(codes, g)
  {
    var bs := Batches(codes);
    assert seq(|bs|, i requires 0 <= i < |bs| => DataRecords(f(bs[i])))
        == seq(|bs|, i requires 0 <= i < |bs| => DataRecords(g(bs[i])));
  }

  /** `date_mesure` parsed to a date-time and its calendar day stored in a
      `date` column, when the measurements carry `date_mesure`. */
  function ParseDates(df: Table): (r: Table)
    requires WellFormed(df)
    ensures WellFormed(r)
    ensures |r.rows| == |df.rows|
    ensures forall c :: c in df.columns ==> c in r.columns
    ensures "date_mesure" !in df.columns ==> r == df
    ensures "date_mesure" in df.columns ==>
              && "date" in r.columns
              && forall i :: 0 <= i < |df.rows| ==>
                   && Get(r.rows[i], "date_mesure") == ToStamp(Get(df.rows[i], "date_mesure"))
                   && Get(r.rows[i], "date") == ToDate(Get(df.rows[i], "date_mesure"))
  {
    if "date_mesure" in df.columns then
      var n := |df.rows|;
      var stamps := seq(n, i requires 0 <= i < n => ToStamp(Get(df.rows[i], "date_mesure")));
      var t := SetColumn(df, "date_mesure", stamps);
      SetColumn(t, "date", seq(n, i requires 0 <= i < n => ToDate(stamps[i])))
    else df
  }

  /** `get_chroniques` for one station, given the parsed answer: the
      measurement records, their `date_mesure` parsed, a calendar `date`
      added, and `code_bss` set to the requested code on every row. */
  function GetChroniques(code: string, body: Option<Object>): (r: Table)
    ensures WellFormed(r)
    ensures DataRecords(body) == [] ==> IsEmpty(r)
    ensures !IsEmpty(r) ==> |r.rows| == |DataRecords(body)| && "code_bss" in r.columns
    ensures !IsEmpty(r) ==> forall i :: 0 <= i < |r.rows| ==> Get(r.rows[i], "code_bss") == Text(code)
    ensures !IsEmpty(r) && "date_mesure" in FromRecords(DataRecords(body)).columns ==>
              && "date" in r.columns
              && forall i :: 0 <= i < |r.rows| ==>
                   && Get(r.rows[i], "date_mesure") == ToStamp(Lookup(DataRecords(body)[i], "date_mesure"))
                   && Get(r.rows[i], "date") == ToDate(Lookup(DataRecords(body)[i], "date_mesure"))
  {
    var records := DataRecords(body);
    var df := FromRecords(records);
    if IsEmpty(df) then df else Coded(records, code)
  }

  /** The measurement records as a table, `date_mesure` parsed, a `date`
      added and every `code_bss` set to the requested code. */
  function Coded(records: seq<Object>, code: string): (r: Table)
    ensures WellFormed(r) && |r.rows| == |records| && "code_bss" in r.columns
    ensures forall i :: 0 <= i < |r.rows| ==> Get(r.rows[i], "code_bss") == Text(code)
    ensures "date_mesure" in FromRecords(records).columns ==>
              && "date" in r.columns
              && forall i :: 0 <= i < |records| ==>
                   && Get(r.rows[i], "date_mesure") == ToStamp(Lookup(records[i], "date_mesure"))
                   && Get(r.rows[i], "date") == ToDate(Lookup(records[i], "date_mesure"))
  {
    var df := FromRecords(records);
    FromRecordsCells(records, "date_mesure");
    CodedTable(df, code)
  }

  /** A table's `date_mesure` parsed, a `date` added and every `code_bss`
      set to the requested code. */
  function CodedTable(df: Table, code: string): (r: Table)
    requires WellFormed(df)
    ensures WellFormed(r) && |r.rows| == |df.rows| && "code_bss" in r.columns
    ensures forall i :: 0 <= i < |r.rows| ==> Get(r.rows[i], "code_bss") == Text(code)
    ensures "date_mesure" in df.columns ==>
              && "date" in r.columns
              && forall i :: 0 <= i < |df.rows| ==>
                   && Get(r.rows[i], "date_mesure") == ToStamp(Get(df.rows[i], "date_mesure"))
                   && Get(r.rows[i], "date") == ToDate(Get(df.rows[i], "date_mesure"))
  {
    var dated := ParseDates(df);
    var r := WithConstant(dated, "code_bss", Text(code));
    assert forall i :: 0 <= i < |r.rows| ==> dated.rows[i].Keys == ColumnSet(dated);
    r
  }

  /** The result of `get_chroniques_batch`: the concatenated measurements and
      how many stations gave data and how many did not. */
  datatype BatchOutcome = BatchOutcome(table: Table, success: nat, fail: nat)

  /** The code cells the requested codes give. */
  function CodeTexts(codes: seq<string>): set<Value> {
    set c | c in codes :: Text(c)
  }

  /** One `get_chroniques` answer per code, in order. */
  function PerStation(codes: seq<string>, fetch: string -> Option<Object>): (per: seq<Table>)
    ensures |per| == |codes|
    ensures forall j :: 0 <= j < |codes| ==> per[j] == GetChroniques(codes[j], fetch(codes[j]))
    ensures forall j :: 0 <= j < |codes| ==> WellFormed(per[j])
    ensures forall t :: t in per && !IsEmpty(t) ==>
              "code_bss" in t.columns && forall r :: r in t.rows ==> Get(r, "code_bss") in CodeTexts(codes)
  {
    var per := seq(|codes|, j requires 0 <= j < |codes| => GetChroniques(codes[j], fetch(codes[j])));
    forall t | t in per && !IsEmpty(t)
      ensures "code_bss" in t.columns && forall r :: r in t.rows ==> Get(r, "code_bss") in CodeTexts(codes)
    {
      var j :| 0 <= j < |codes| && per[j] == t;
      assert Text(codes[j]) in CodeTexts(codes);
    }
    per
  }

  /** `get_chroniques_batch`: every code is asked once; the non-empty
      answers are concatenated, and every station counts as a success or a
      failure. */
  function GetChroniquesBatch(codes: seq<string>, fetch: string -> Option<Object>): (r: BatchOutcome)
    ensures r.success + r.fail == |codes|
    ensures |codes| == 0 ==> r == BatchOutcome(Empty, 0, 0)
    ensures r.success == 0 ==> r.table == Empty
    ensures WellFormed(r.table)
    ensures r.table == Concat(NonEmpty(PerStation(codes, fetch)))
    ensures r.success == |set j | 0 <= j < |codes| && !IsEmpty(PerStation(codes, fetch)[j])|
    ensures forall i :: 0 <= i < |r.table.rows| ==> Get(r.table.rows[i], "code_bss") in CodeTexts(codes)
  {
    var kept := NonEmpty(PerStation(codes, fetch));
    NonEmptyColumnValues(PerStation(codes, fetch), "code_bss", CodeTexts(codes));
    BatchOutcome(Concat(kept), |kept|, |codes| - |kept|)
  }

  /** Every row of the batch reads, cell for cell, as a measurement row of
      one requested station's answer. */
  lemma GetChroniquesBatchRow(codes: seq<string>, fetch: string -> Option<Object>, i: int)
    requires 0 <= i < |GetChroniquesBatch(codes, fetch).table.rows|
    ensures var per := PerStation(codes, fetch);
            exists j, k :: 0 <= j < |codes| && 0 <= k < |per[j].rows| &&
              SameCells(GetChroniquesBatch(codes, fetch).table.rows[i], per[j].rows[k])
  {
    NonEmptyRowFrom(PerStation(codes, fetch), i);
  }
}
