/** `df.groupby(keys, as_index=False).agg({col: fn, ...})`: one output row per
    distinct complete key (rows with a missing key cell are dropped, as pandas
    does by default), the key columns first and then one column per aggregated
    input column. Groups appear in order of first occurrence. */
module Grouping {
  import opened Seqs
  import opened Tables

  datatype AggFn = Sum | Mean | First

  /** Aggregate input column `col` with `fn`; the output column keeps the
      name. */
  datatype AggSpec = AggSpec(col: string, fn: AggFn)

  /** Sum of the numeric cells; missing cells are skipped. */
  function SumOf(vs: seq<Value>): real
    decreases |vs|
  {
    if |vs| == 0 then 0.0 else (if vs[0].Num? then vs[0].n else 0.0) + SumOf(vs[1..])
  }

  /** Number of numeric cells. */
  function CountOf(vs: seq<Value>): (n: nat)
    ensures n <= |vs|
    ensures n == 0 <==> forall i :: 0 <= i < |vs| ==> !vs[i].Num?
    decreases |vs|
  {
    if |vs| == 0 then 0 else (if vs[0].Num? then 1 else 0) + CountOf(vs[1..])
  }

  /** pandas' `first`: the first non-missing cell, missing when there is
      none. */
  function FirstOf(vs: seq<Value>): (v: Value)
    ensures v.Null? <==> forall i :: 0 <= i < |vs| ==> vs[i].Null?
    ensures !v.Null? ==> exists i :: 0 <= i < |vs| && vs[i] == v && forall j :: 0 <= j < i ==> vs[j].Null?
    decreases |vs|
  {
    if |vs| == 0 then Null
    else if !vs[0].Null? then vs[0]
    else
      var v := FirstOf(vs[1..]);
      if !v.Null? then
        var i :| 0 <= i < |vs[1..]| && vs[1..][i] == v && forall j :: 0 <= j < i ==> vs[1..][j].Null?;
        assert vs[i + 1] == v && forall j :: 0 <= j < i + 1 ==> vs[j].Null?;
        v
      else
        v
  }

  /** One aggregated cell: a sum is always a number (zero for no numbers), a
      mean of no numbers is missing. */
  function Agg(fn: AggFn, vs: seq<Value>): Value {
    match fn
    case Sum => Num(SumOf(vs))
    case Mean => if CountOf(vs) == 0 then Null else Num(SumOf(vs) / CountOf(vs) as real)
    case First => FirstOf(vs)
  }

  /** Aggregating the one-cell column holding an aggregate gives it back. */
  lemma AggIdempotent(fn: AggFn, vs: seq<Value>)
    ensures Agg(fn, [Agg(fn, vs)]) == Agg(fn, vs)
  {
    var v := Agg(fn, vs);
    assert [v][1..] == [];
    match fn
    case Sum =>
      assert SumOf([v]) == v.n + SumOf([]);
    case Mean =>
      assert CountOf([v]) == (if v.Num? then 1 else 0) + CountOf([]);
      assert SumOf([v]) == (if v.Num? then v.n else 0.0) + SumOf([]);
    case First =>
  }

  /** A key holds no missing cell. */
  predicate Complete(k: seq<Value>) {
    forall j :: 0 <= j < |k| ==> !k[j].Null?
  }

  /** The distinct complete keys in order of first occurrence. */
  function GroupKeys(rows: seq<Row>, keys: seq<string>): (gk: seq<seq<Value>>)
    ensures Distinct(gk)
    ensures forall k :: k in gk <==> Complete(k) && k in RowKeys(rows, keys)
    ensures |gk| <= |rows|
    ensures forall i :: 0 <= i < |gk| ==> |gk[i]| == |keys|
  {
    var rk := RowKeys(rows, keys);
    var gk := Dedup(FilterIn(rk, set k | k in rk && Complete(k)));
    assert forall i :: 0 <= i < |gk| ==> gk[i] in rk;
    gk
  }

  function SpecColumns(specs: seq<AggSpec>): (cs: seq<string>)
    ensures |cs| == |specs|
    ensures forall j :: 0 <= j < |specs| ==> cs[j] == specs[j].col
  {
    seq(|specs|, j requires 0 <= j < |specs| => specs[j].col)
  }

  /** The aggregated cells of one group, one per spec. */
  function AggValues(specs: seq<AggSpec>, members: seq<Row>): (vs: seq<Value>)
    ensures |vs| == |specs|
    ensures forall j :: 0 <= j < |specs| ==> vs[j] == Agg(specs[j].fn, Cells(members, specs[j].col))
  {
    seq(|specs|, j requires 0 <= j < |specs| => Agg(specs[j].fn, Cells(members, specs[j].col)))
  }

  /** What pandas demands of the arguments: the key and aggregated columns
      exist (else `KeyError`) and no name is both a key and an aggregate. */
  ghost predicate ValidGrouping(t: Table, keys: seq<string>, specs: seq<AggSpec>) {
    && Distinct(keys + SpecColumns(specs))
    && (forall c :: c in keys ==> c in t.columns)
    && (forall j :: 0 <= j < |specs| ==> specs[j].col in t.columns)
  }

  /** The output row of the group with key `k`. */
  function GroupRow(t: Table, keys: seq<string>, specs: seq<AggSpec>, k: seq<Value>): (r: Row)
    requires |k| == |keys|
    ensures r.Keys == set c | c in keys + SpecColumns(specs)
  {
    Assign(keys + SpecColumns(specs), k + AggValues(specs, Members(t.rows, keys, k)))
  }

  function GroupBy(t: Table, keys: seq<string>, specs: seq<AggSpec>): (r: Table)
    requires ValidGrouping(t, keys, specs)
    ensures WellFormed(r)
    ensures r.columns == keys + SpecColumns(specs)
    ensures |r.rows| == |GroupKeys(t.rows, keys)| <= |t.rows|
  {
    var gk := GroupKeys(t.rows, keys);
    Table(keys + SpecColumns(specs), seq(|gk|, i requires 0 <= i < |gk| => GroupRow(t, keys, specs, gk[i])))
  }

  /** The output keys are the distinct complete input keys, each once. */
  lemma GroupByKeys(t: Table, keys: seq<string>, specs: seq<AggSpec>)
    requires ValidGrouping(t, keys, specs)
    ensures RowKeys(GroupBy(t, keys, specs).rows, keys) == GroupKeys(t.rows, keys)
    ensures UniqueKeys(GroupBy(t, keys, specs), keys)
    ensures forall k :: k in RowKeys(GroupBy(t, keys, specs).rows, keys) <==> Complete(k) && k in RowKeys(t.rows, keys)
  {
    var r := GroupBy(t, keys, specs);
    var names := keys + SpecColumns(specs);
    var gk := GroupKeys(t.rows, keys);
    forall i | 0 <= i < |gk| ensures KeyOf(r.rows[i], keys) == gk[i] {
      var vals := gk[i] + AggValues(specs, Members(t.rows, keys, gk[i]));
      assert |gk[i]| == |keys|;
      forall j | 0 <= j < |keys| ensures Get(r.rows[i], keys[j]) == gk[i][j] {
        assert names[j] == keys[j] && vals[j] == gk[i][j];
      }
    }
  }

  /** Every aggregated cell is the aggregate of its column over the group's
      members. */
  lemma GroupByValues(t: Table, keys: seq<string>, specs: seq<AggSpec>, i: int, j: int)
    requires ValidGrouping(t, keys, specs)
    requires 0 <= i < |GroupBy(t, keys, specs).rows| && 0 <= j < |specs|
    ensures GroupBy(t, keys, specs).rows[i][specs[j].col]
         == Agg(specs[j].fn, Cells(Members(t.rows, keys, GroupKeys(t.rows, keys)[i]), specs[j].col))
  {
    var names := keys + SpecColumns(specs);
    var gk := GroupKeys(t.rows, keys);
    assert |gk[i]| == |keys|;
    var vals := gk[i] + AggValues(specs, Members(t.rows, keys, gk[i]));
    assert names[|keys| + j] == specs[j].col && vals[|keys| + j] == AggValues(specs, Members(t.rows, keys, gk[i]))[j];
  }

  /** The complete keys of a grouped table are its own rows' keys. */
  lemma GroupKeysOfGrouped(t: Table, keys: seq<string>, specs: seq<AggSpec>)
    requires ValidGrouping(t, keys, specs)
    ensures GroupKeys(GroupBy(t, keys, specs).rows, keys) == GroupKeys(t.rows, keys)
  {
    var g := GroupBy(t, keys, specs);
    GroupByKeys(t, keys, specs);
    var rk := RowKeys(g.rows, keys);
    FilterInAll(rk, set k | k in rk && Complete(k));
    DedupOfDistinct(rk);
  }

  /** Row `i` of a grouped table survives a second grouping unchanged. */
  lemma GroupAgainRow(t: Table, keys: seq<string>, specs: seq<AggSpec>, i: int)
    requires ValidGrouping(t, keys, specs)
    requires 0 <= i < |GroupBy(t, keys, specs).rows|
    ensures ValidGrouping(GroupBy(t, keys, specs), keys, specs)
    ensures GroupRow(GroupBy(t, keys, specs), keys, specs, GroupKeys(t.rows, keys)[i]) == GroupBy(t, keys, specs).rows[i]
  {
    var g := GroupBy(t, keys, specs);
    var gk := GroupKeys(t.rows, keys);
    GroupByKeys(t, keys, specs);
    MembersOfUnique(g.rows, keys, i);
    assert KeyOf(g.rows[i], keys) == RowKeys(g.rows, keys)[i] == gk[i];
    var once := AggValues(specs, Members(t.rows, keys, gk[i]));
    var twice := AggValues(specs, Members(g.rows, keys, gk[i]));
    forall j | 0 <= j < |specs| ensures twice[j] == once[j] {
      GroupByValues(t, keys, specs, i, j);
      assert Cells([g.rows[i]], specs[j].col) == [g.rows[i][specs[j].col]];
      AggIdempotent(specs[j].fn, Cells(Members(t.rows, keys, gk[i]), specs[j].col));
    }
    assert twice == once;
  }

  /** Grouping a grouped table again, with the same keys and aggregates,
      changes nothing. */
  lemma GroupByIdempotent(t: Table, keys: seq<string>, specs: seq<AggSpec>)
    requires ValidGrouping(t, keys, specs)
    ensures ValidGrouping(GroupBy(t, keys, specs), keys, specs)
    ensures GroupBy(GroupBy(t, keys, specs), keys, specs) == GroupBy(t, keys, specs)
  {
    var g := GroupBy(t, keys, specs);
    var gk := GroupKeys(t.rows, keys);
    GroupKeysOfGrouped(t, keys, specs);
    var g2 := GroupBy(g, keys, specs);
    forall i | 0 <= i < |g.rows| ensures g2.rows[i] == g.rows[i] {
      GroupAgainRow(t, keys, specs, i);
    }
    assert g2.rows == g.rows;
  }
}
