/** Station-code handling for an uploaded list of groundwater stations:
    normalising a BSS code (the French national borehole identifier) by its
    two known shapes, choosing the code column of an uploaded table and
    extracting its distinct codes, and checking a sample of codes against the
    station directory. */
module Validator {
  import opened Wrappers
  import opened Seqs
  import opened Strings
  import opened Tables

  // ---------------------------------------------------------------------
  // The two code shapes, as regular-expression searches

  /** The new shape `BSS[0-9A-Z]{7}` occurs at `i`. */
  predicate NewAt(s: string, i: int) {
    && 0 <= i && i + 10 <= |s|
    && s[i..i + 3] == "BSS"
    && forall k :: i + 3 <= k < i + 10 ==> IsUpperAlnum(s[k])
  }

  /** Leftmost occurrence of the new shape. */
  function SearchNew(s: string): (r: Option<nat>)
    ensures r.None? ==> forall i :: !NewAt(s, i)
    ensures r.Some? ==> NewAt(s, r.value) && forall j :: 0 <= j < r.value ==> !NewAt(s, j)
  {
    var p: nat -> bool := i => NewAt(s, i);
    assert forall i: nat :: p(i) == NewAt(s, i);
    FirstFrom(|s|, 0, p)
  }

  predicate DigitsAt(s: string, i: int, n: nat) {
    0 <= i && i + n <= |s| && forall k :: i <= k < i + n ==> IsDecimal(s[k])
  }

  predicate IsXyz(c: char) {
    'X' <= c <= 'Z'
  }

  /** `\d{a}[X-Z]\d{b}` matches at `i`; `\d` is any decimal digit. */
  predicate RootFits(s: string, i: int, a: nat, b: nat) {
    DigitsAt(s, i, a) && i + a < |s| && IsXyz(s[i + a]) && DigitsAt(s, i + a + 1, b)
  }

  /** Length of the old-shape root `\d{4,5}[X-Z]\d{3,4}` matched at `i`,
      trying the repetition counts in the regex engine's backtracking order
      (greedy first). */
  function OldRoot(s: string, i: int): (r: Option<nat>)
    ensures r.Some? ==> 8 <= r.value <= 10 && 0 <= i && i + r.value <= |s|
    ensures r.Some? ==> forall k :: i <= k < i + r.value ==> IsDecimal(s[k]) || IsXyz(s[k])
    ensures r.None? <==> !RootFits(s, i, 5, 4) && !RootFits(s, i, 5, 3) && !RootFits(s, i, 4, 4) && !RootFits(s, i, 4, 3)
  {
    if RootFits(s, i, 5, 4) then Some(10)
    else if RootFits(s, i, 5, 3) then Some(9)
    else if RootFits(s, i, 4, 4) then Some(9)
    else if RootFits(s, i, 4, 3) then Some(8)
    else None
  }

  predicate OldAt(s: string, i: int) {
    OldRoot(s, i).Some?
  }

  /** Leftmost occurrence of the old shape. */
  function SearchOld(s: string): (r: Option<nat>)
    ensures r.None? ==> forall i :: 0 <= i < |s| ==> !OldAt(s, i)
    ensures r.Some? ==> OldAt(s, r.value) && forall j :: 0 <= j < r.value ==> !OldAt(s, j)
  {
    var p: nat -> bool := i => OldAt(s, i);
    assert forall i: nat :: p(i) == OldAt(s, i);
    FirstFrom(|s|, 0, p)
  }

  /** Length of the run of `[A-Z0-9]` characters starting at `k`. */
  function AlnumRun(s: string, k: nat): (n: nat)
    requires k <= |s|
    ensures k + n <= |s|
    ensures forall j :: k <= j < k + n ==> IsUpperAlnum(s[j])
    ensures k + n < |s| ==> !IsUpperAlnum(s[k + n])
    decreases |s| - k
  {
    if k == |s| || !IsUpperAlnum(s[k]) then 0 else 1 + AlnumRun(s, k + 1)
  }

  /** Length of the optional greedy suffix `/[A-Z0-9]+` at `e`, slash
      included; zero when absent. */
  function SuffixLen(s: string, e: nat): (n: nat)
    requires e <= |s|
    ensures e + n <= |s|
    ensures n > 0 ==> n >= 2 && s[e] == '/' && forall j :: e + 1 <= j < e + n ==> IsUpperAlnum(s[j])
  {
    if e + 1 < |s| && s[e] == '/' && IsUpperAlnum(s[e + 1]) then 1 + AlnumRun(s, e + 1) else 0
  }

  /** `clean_bss_code`: the leftmost new-shape code if any; otherwise the
      leftmost old-shape code, cut back to its root when the part after the
      slash is longer than two characters; otherwise the input without its
      surrounding whitespace. */
  function CleanBssCode(code: string): (r: string)
    ensures |code| == 0 ==> r == ""
    ensures SearchNew(code).Some? && |code| > 0 ==>
              var i := SearchNew(code).value; r == code[i..i + 10]
    ensures SearchNew(code).None? && SearchOld(code).Some? ==>
              var i := SearchOld(code).value;
              var e := i + OldRoot(code, i).value;
              r == if SuffixLen(code, e) > 3 then code[i..e] else code[i..e + SuffixLen(code, e)]
    ensures SearchNew(code).None? && SearchOld(code).None? ==> r == Strip(code)
  {
    if |code| == 0 then ""
    else match SearchNew(code)
      case Some(i) => code[i..i + 10]
      case None =>
        match SearchOld(code)
        case Some(i) =>
          var e := i + OldRoot(code, i).value;
          var n := SuffixLen(code, e);
          if n > 3 then code[i..e] else code[i..e + n]
        case None => Strip(code)
  }

  /** Characters of an old-shape result: no 'B' before the suffix. */
  lemma NoNewInOldResult(t: string, L: nat)
    requires 8 <= L <= |t| <= L + 3
    requires forall k :: 0 <= k < L ==> IsDecimal(t[k]) || IsXyz(t[k])
    requires L < |t| ==> t[L] == '/'
    ensures SearchNew(t).None?
  {
    forall i | 0 <= i < L - 6 ensures !NewAt(t, i) {
      assert t[i..i + 3][0] == t[i] != 'B';
    }
  }

  /** An old-shape root copied to the front of `t`, followed by a non-digit or
      by nothing, matches there with the same length. */
  lemma OldRootOfCopy(s: string, i: nat, t: string)
    requires OldRoot(s, i).Some?
    requires OldRoot(s, i).value <= |t| && t[..OldRoot(s, i).value] == s[i..i + OldRoot(s, i).value]
    requires OldRoot(s, i).value < |t| ==> !IsDecimal(t[OldRoot(s, i).value])
    ensures OldRoot(t, 0) == OldRoot(s, i)
  {
    var L := OldRoot(s, i).value;
    assert forall k :: 0 <= k < L ==> t[k] == s[i + k] by {
      forall k | 0 <= k < L ensures t[k] == s[i + k] {
        assert t[..L][k] == s[i..i + L][k];
      }
    }
    if RootFits(s, i, 5, 4) {
    } else if RootFits(s, i, 5, 3) {
      assert !RootFits(t, 0, 5, 4) by {
        assert 9 >= |t| || !IsDecimal(t[9]);
      }
    } else if RootFits(s, i, 4, 4) {
      assert !IsDecimal(t[4]);
    } else {
      assert !IsDecimal(t[4]);
      assert !RootFits(t, 0, 4, 4) by {
        assert 8 >= |t| || !IsDecimal(t[8]);
      }
    }
  }

  /** `t` sits inside `s` at offset `a`. */
  ghost predicate SliceAt(s: string, t: string, a: nat) {
    a + |t| <= |s| && forall k :: 0 <= k < |t| ==> t[k] == s[a + k]
  }

  lemma RootFitsInSlice(s: string, t: string, a: nat, j: nat, x: nat, y: nat)
    requires SliceAt(s, t, a) && RootFits(t, j, x, y)
    ensures RootFits(s, a + j, x, y)
  {
    assert s[a + j + x] == t[j + x];
    forall k | a + j <= k < a + j + x ensures IsDecimal(s[k]) {
      assert s[k] == t[k - a];
    }
    forall k | a + j + x + 1 <= k < a + j + x + 1 + y ensures IsDecimal(s[k]) {
      assert s[k] == t[k - a];
    }
  }

  /** Matches inside a slice are matches of the whole string. */
  lemma SliceMatches(s: string, t: string, a: nat)
    requires SliceAt(s, t, a)
    ensures forall j :: NewAt(t, j) ==> NewAt(s, a + j)
    ensures forall j :: 0 <= j < |t| && OldAt(t, j) ==> OldAt(s, a + j)
  {
    forall j | NewAt(t, j) ensures NewAt(s, a + j) {
      assert s[a + j] == t[j] && s[a + j + 1] == t[j + 1] && s[a + j + 2] == t[j + 2];
      assert s[a + j..a + j + 3] == t[j..j + 3];
      forall k | a + j + 3 <= k < a + j + 10 ensures IsUpperAlnum(s[k]) {
        assert s[k] == t[k - a];
      }
    }
    forall j | 0 <= j < |t| && OldAt(t, j) ensures OldAt(s, a + j) {
      if RootFits(t, j, 5, 4) {
        RootFitsInSlice(s, t, a, j, 5, 4);
      } else if RootFits(t, j, 5, 3) {
        RootFitsInSlice(s, t, a, j, 5, 3);
      } else if RootFits(t, j, 4, 4) {
        RootFitsInSlice(s, t, a, j, 4, 4);
      } else {
        RootFitsInSlice(s, t, a, j, 4, 3);
      }
    }
  }

  /** A new-shape result is cleaned to itself. */
  lemma CleanIdempotentNew(code: string)
    requires |code| > 0 && SearchNew(code).Some?
    ensures CleanBssCode(CleanBssCode(code)) == CleanBssCode(code)
  {
    var i := SearchNew(code).value;
    var r := CleanBssCode(code);
    assert r == code[i..i + 10];
    assert NewAt(r, 0) by {
      assert r[0..3] == code[i..i + 3];
      forall k | 3 <= k < 10 ensures IsUpperAlnum(r[k]) {
        assert r[k] == code[i + k];
      }
    }
    assert r[0..10] == r;
  }

  /** `r` is the old-shape root matched at `i`, or the root with its
      suffix when the suffix is kept. */
  predicate OldResult(code: string, i: nat, r: string) {
    && OldRoot(code, i).Some?
    && var L := OldRoot(code, i).value; var n := SuffixLen(code, i + L);
       r == code[i..i + L] || (n <= 3 && r == code[i..i + L + n])
  }

  /** An old-shape root, with or without its kept suffix, is cleaned to
      itself. */
  lemma CleanOldResult(code: string, i: nat, r: string)
    requires OldResult(code, i, r)
    ensures CleanBssCode(r) == r
  {
    var L := OldRoot(code, i).value;
    CleanOldShape(code, i, r);
    if |r| > L {
      CleanOldSuffix(code, i, r);
    }
    var m := SuffixLen(r, L);
    assert m <= 3 && L + m == |r|;
    assert r[0..L + m] == r;
  }

  /** The cleaned old-shape text starts with the same root and holds no
      new-shape code. */
  lemma CleanOldShape(code: string, i: nat, r: string)
    requires OldRoot(code, i).Some?
    requires var L := OldRoot(code, i).value; var n := SuffixLen(code, i + L);
             r == code[i..i + L] || (n <= 3 && r == code[i..i + L + n])
    ensures OldRoot(r, 0) == OldRoot(code, i)
    ensures SearchNew(r).None? && SearchOld(r) == Some(0)
  {
    var L := OldRoot(code, i).value;
    var e := i + L;
    assert r[..L] == code[i..e];
    assert forall k :: 0 <= k < L ==> r[k] == code[i + k];
    if L < |r| {
      assert r[L] == code[e];
    }
    OldRootOfCopy(code, i, r);
    NoNewInOldResult(r, L);
    assert OldAt(r, 0);
  }

  /** A kept suffix is measured again in full on the cleaned text. */
  lemma CleanOldSuffix(code: string, i: nat, r: string)
    requires OldRoot(code, i).Some?
    requires var L := OldRoot(code, i).value; var n := SuffixLen(code, i + L);
             n > 0 && r == code[i..i + L + n]
    ensures SuffixLen(r, OldRoot(code, i).value) == SuffixLen(code, i + OldRoot(code, i).value)
  {
    var L := OldRoot(code, i).value;
    var n := SuffixLen(code, i + L);
    assert r[L] == code[i + L];
    assert r[L + 1] == code[i + L + 1];
    forall j | L + 1 <= j < |r| ensures IsUpperAlnum(r[j]) {
      assert r[j] == code[i + j];
    }
    assert AlnumRun(r, L + 1) == n - 1;
  }

  /** The old-shape result is the root, with the suffix when it is kept. */
  lemma CleanOldForm(code: string)
    requires |code| > 0 && SearchNew(code).None? && SearchOld(code).Some?
    ensures OldResult(code, SearchOld(code).value, CleanBssCode(code))
  {
  }

  lemma CleanIdempotentOld(code: string)
    requires |code| > 0 && SearchNew(code).None? && SearchOld(code).Some?
    ensures CleanBssCode(CleanBssCode(code)) == CleanBssCode(code)
  {
    CleanOldForm(code);
    CleanOldResult(code, SearchOld(code).value, CleanBssCode(code));
  }

  /** The stripped text is a slice of the original. */
  lemma StripSlice(code: string) returns (a: nat)
    ensures SliceAt(code, Strip(code), a)
  {
    var r := Strip(code);
    var i :| SliceBetweenSpace(code, r, i);
    a := i;
    forall k | 0 <= k < |r| ensures r[k] == code[a + k] {
      assert r[k] == code[a..a + |r|][k];
    }
  }

  /** A slice of a code with neither pattern holds neither pattern. */
  lemma NoMatchInSlice(code: string, r: string, a: nat)
    requires SliceAt(code, r, a) && SearchNew(code).None? && SearchOld(code).None?
    ensures SearchNew(r).None? && SearchOld(r).None?
  {
    SliceMatches(code, r, a);
  }

  lemma CleanIdempotentPlain(code: string)
    requires |code| > 0 && SearchNew(code).None? && SearchOld(code).None?
    ensures CleanBssCode(CleanBssCode(code)) == CleanBssCode(code)
  {
    var r := CleanBssCode(code);
    assert r == Strip(code);
    var a := StripSlice(code);
    StripIdempotent(code);
    NoMatchInSlice(code, r, a);
  }

  /** Cleaning a cleaned code changes nothing. */
  lemma CleanIdempotent(code: string)
    ensures CleanBssCode(CleanBssCode(code)) == CleanBssCode(code)
  {
    if |code| == 0 {
    } else if SearchNew(code).Some? {
      CleanIdempotentNew(code);
    } else if SearchOld(code).Some? {
      CleanIdempotentOld(code);
    } else {
      CleanIdempotentPlain(code);
    }
  }

  // ---------------------------------------------------------------------
  // Choosing the code column

  /** A column name mentioning a code, a BSS id, a station or a piezometer. */
  predicate IsCandidate(c: string) {
    var l := ToLower(c);
    Contains(l, "bss") || Contains(l, "code") || Contains(l, "station") || Contains(l, "piezo")
  }

  /** The preferred name fragments, most preferred first. */
  const Priority: seq<string> := ["code_bss", "bss_id", "bss", "code_station", "code"]

  /** Index of the first preferred fragment the name contains, or the number
      of fragments when it contains none. */
  function PatternRank(c: string): (k: nat)
    ensures k <= |Priority|
    ensures k < |Priority| ==> Contains(ToLower(c), Priority[k])
    ensures forall j :: 0 <= j < k ==> !Contains(ToLower(c), Priority[j])
  {
    var p: nat -> bool := (j: nat) => j < |Priority| && Contains(ToLower(c), Priority[j]);
    assert forall j: nat :: p(j) == (j < |Priority| && Contains(ToLower(c), Priority[j]));
    var f := FirstFrom(|Priority|, 0, p);
    if f.Some? then f.value else |Priority|
  }

  function Candidates(columns: seq<string>): (cs: seq<string>)
    ensures IsSubsequence(cs, columns)
    ensures forall c :: c in cs <==> c in columns && IsCandidate(c)
  {
    FilterIn(columns, set c | c in columns && IsCandidate(c))
  }

  /** The first candidate holding fragment `k`, when no candidate holds an
      earlier one, ranks `k`, no better than any other, and strictly better
      than every candidate before it. */
  lemma PickFound(cands: seq<string>, k: nat, i: nat)
    requires k < |Priority| && i < |cands|
    requires forall d, j :: d in cands && 0 <= j < k ==> !Contains(ToLower(d), Priority[j])
    requires Contains(ToLower(cands[i]), Priority[k])
    requires forall j :: 0 <= j < i ==> !Contains(ToLower(cands[j]), Priority[k])
    ensures PatternRank(cands[i]) == k
    ensures forall d :: d in cands ==> PatternRank(cands[i]) <= PatternRank(d)
    ensures forall j :: 0 <= j < FirstIndex(cands, cands[i]) ==> PatternRank(cands[j]) > k
  {
    var c := cands[i];
    assert PatternRank(c) == k;
    assert forall d :: d in cands ==> PatternRank(d) >= k;
    assert FirstIndex(cands, c) <= i;
    forall j | 0 <= j < FirstIndex(cands, c) ensures PatternRank(cands[j]) > k {
      assert cands[j] in cands;
      assert !Contains(ToLower(cands[j]), Priority[k]);
      assert PatternRank(cands[j]) != k;
    }
  }

  /** The priority loop: for each fragment from the `k`th on, the first
      candidate containing it; the first candidate when none does. */
  function PickByPriority(cands: seq<string>, k: nat): (c: string)
    requires |cands| > 0 && k <= |Priority|
    requires forall d, j :: d in cands && 0 <= j < k ==> !Contains(ToLower(d), Priority[j])
    ensures c in cands
    ensures forall d :: d in cands ==> PatternRank(c) <= PatternRank(d)
    ensures forall j :: 0 <= j < FirstIndex(cands, c) ==> PatternRank(cands[j]) > PatternRank(c)
    decreases |Priority| - k
  {
    if k == |Priority| then
      assert forall d :: d in cands ==> PatternRank(d) == |Priority|;
      cands[0]
    else
      var p: nat -> bool := (i: nat) => i < |cands| && Contains(ToLower(cands[i]), Priority[k]);
      assert forall i: nat :: p(i) == (i < |cands| && Contains(ToLower(cands[i]), Priority[k]));
      var f := FirstFrom(|cands|, 0, p);
      if f.Some? then
        PickFound(cands, k, f.value);
        cands[f.value]
      else
        assert forall d :: d in cands ==> !Contains(ToLower(d), Priority[k]);
        PickByPriority(cands, k + 1)
  }

  /** The column `extract_station_codes` reads: the only column; else the
      candidate with the best-ranked fragment, the earliest on ties (which is
      the first candidate when none has a preferred fragment); else the first
      column. */
  function ChooseColumn(columns: seq<string>): (c: string)
    requires |columns| > 0
    ensures c in columns
    ensures |columns| == 1 ==> c == columns[0]
    ensures |columns| > 1 && |Candidates(columns)| == 0 ==> c == columns[0]
    ensures |columns| > 1 && |Candidates(columns)| > 0 ==>
              && c in Candidates(columns)
              && (forall d :: d in Candidates(columns) ==> PatternRank(c) <= PatternRank(d))
              && (forall j :: 0 <= j < FirstIndex(Candidates(columns), c) ==> PatternRank(Candidates(columns)[j]) > PatternRank(c))
  {
    if |columns| == 1 then columns[0]
    else
      var cands := Candidates(columns);
      if |cands| == 0 then columns[0] else PickByPriority(cands, 0)
  }

  // ---------------------------------------------------------------------
  // Extracting the codes

  /** Python's `str(v)`: text is itself; how other values print is given by
      `show`. */
  function Str(v: Value, show: Value -> string): string {
    if v.Text? then v.s else show(v)
  }

  /** Text that stands for a missing value. */
  predicate Placeholder(s: string) {
    var l := ToLower(s);
    l == "nan" || l == "none" || l == "" || l == "null"
  }

  /** The cleaned code of a cell, when the cell holds an acceptable one. */
  function CodeOf(v: Value, show: Value -> string): (r: Option<string>)
    ensures r.Some? ==> r.value != "" && CleanBssCode(r.value) == r.value
  {
    var s := Strip(Str(v, show));
    if Placeholder(s) then None
    else
      var c := CleanBssCode(s);
      CleanIdempotent(s);
      if c == "" then None else Some(c)
  }

  function CodeFn(show: Value -> string): Value -> Option<string> {
    v => CodeOf(v, show)
  }

  /** The accepted cleaned codes of the cells, in order, repeats kept. */
  function CleanedCodes(vs: seq<Value>, show: Value -> string): (cs: seq<string>)
    ensures |cs| <= |vs|
    ensures forall c :: c in cs <==> exists i :: 0 <= i < |vs| && CodeOf(vs[i], show) == Some(c)
    ensures forall c :: c in cs ==> c != "" && CleanBssCode(c) == c
  {
    var cs := FilterMap(vs, CodeFn(show));
    forall c ensures c in cs <==> exists i :: 0 <= i < |vs| && CodeOf(vs[i], show) == Some(c) {
      FilterMapMembers(vs, CodeFn(show), c);
    }
    cs
  }

  /** `df[col].dropna().unique()`: the distinct present cells in order of
      first appearance. */
  function UniquePresent(vs: seq<Value>): (u: seq<Value>)
    ensures Distinct(u)
    ensures forall v :: v in u <==> v in vs && !v.Null?
  {
    Dedup(FilterIn(vs, set v | v in vs && !v.Null?))
  }

  /** `extract_station_codes`: the distinct cleaned codes of the chosen column
      in order of first appearance, each a fixed point of cleaning. */
  method ExtractStationCodes(t: Table, show: Value -> string) returns (codes: seq<string>)
    requires WellFormed(t)
    ensures IsEmpty(t) ==> codes == []
    ensures !IsEmpty(t) ==> codes == Dedup(CleanedCodes(UniquePresent(Cells(t.rows, ChooseColumn(t.columns))), show))
    ensures Distinct(codes)
    ensures forall c :: c in codes ==> c != "" && CleanBssCode(c) == c
  {
    if IsEmpty(t) {
      return [];
    }
    var col := ChooseColumn(t.columns);
    codes := DedupImages(UniquePresent(Cells(t.rows, col)), CodeFn(show));
  }

  // ---------------------------------------------------------------------
  // Checking a sample against the station directory

  /** The stop of the Python slice `codes[:min(size, n)]`. */
  function SampleEnd(n: nat, size: int): (e: nat)
    ensures e <= n
    ensures size >= 0 ==> e == if size < n then size else n
    ensures size < 0 ==> e == if n + size > 0 then n + size else 0
  {
    var m := if size < n then size else n;
    if m >= 0 then m else if n + m > 0 then n + m else 0
  }

  /** The codes a directory answer lists, as `str(c).strip()`. */
  function FoundCodes(t: Table, show: Value -> string): (found: set<string>)
    ensures forall c :: c in found <==> exists v :: v in Cells(t.rows, "code_bss") && c == Strip(Str(v, show))
  {
    var vs := Cells(t.rows, "code_bss");
    set v | v in vs :: Strip(Str(v, show))
  }

  /** `validate_station_codes`: the sample is the leading slice of the codes;
      it is split, in order, into the codes the directory lists and the rest.
      When the lookup fails, answers nothing, or lacks `code_bss`, the whole
      sample is invalid. */
  function ValidateStationCodes(codes: seq<string>, size: int, lookup: seq<string> -> Result<Table>, show: Value -> string)
    : (r: (seq<string>, seq<string>))
    ensures |codes| == 0 ==> r == ([], [])
    ensures |codes| > 0 ==>
              var sample := codes[..SampleEnd(|codes|, size)];
              && IsSubsequence(r.0, sample) && IsSubsequence(r.1, sample)
              && |r.0| + |r.1| == |sample|
              && (forall c :: c in sample ==> (c in r.0 <==> c !in r.1))
    ensures |codes| > 0 ==>
              var sample := codes[..SampleEnd(|codes|, size)];
              var answer := lookup(sample);
              if answer.Failure? || IsEmpty(answer.value) || "code_bss" !in answer.value.columns then
                r == ([], sample)
              else
                forall c :: c in r.0 <==> c in sample && c in FoundCodes(answer.value, show)
  {
    if |codes| == 0 then ([], [])
    else
      var sample := codes[..SampleEnd(|codes|, size)];
      SubsequenceReflexive(sample);
      var answer := lookup(sample);
      if answer.Failure? || IsEmpty(answer.value) || "code_bss" !in answer.value.columns then
        ([], sample)
      else
        var found := FoundCodes(answer.value, show);
        var others := set c | c in sample && c !in found;
        FilterInSplit(sample, found, others);
        (FilterIn(sample, found), FilterIn(sample, others))
  }
}
