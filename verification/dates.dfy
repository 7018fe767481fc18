/** The proleptic Gregorian calendar and the ISO 8601 text forms that
    `pd.to_datetime` reads: `YYYY-MM-DD`, optionally followed by `T` or a
    space and a clock time `HH:MM` or `HH:MM:SS`. Days are counted from
    1970-01-01 (day 0), instants in seconds from its midnight. */
module Dates {
  import opened Wrappers
  import opened Strings

  const SecondsPerDay: int := 86400

  predicate Leap(y: int) {
    y % 4 == 0 && (y % 100 != 0 || y % 400 == 0)
  }

  function MonthLength(y: int, m: int): int
    requires 1 <= m <= 12
  {
    if m == 2 then (if Leap(y) then 29 else 28)
    else if m == 4 || m == 6 || m == 9 || m == 11 then 30
    else 31
  }

  predicate ValidDate(y: int, m: int, d: int) {
    1 <= m <= 12 && 1 <= d <= MonthLength(y, m)
  }

  /** Days from the start of a year counted from March (0 = March, 11 =
      February) to the first day of month `mp`. */
  function MarchDays(mp: int): int {
    (153 * mp + 2) / 5
  }

  /** Days from 1 March of the first year of a 400-year era to 1 March of
      its year `yoe`. */
  function EraDays(yoe: int): int {
    yoe * 365 + yoe / 4 - yoe / 100
  }

  /** Days from 1 March 0000 to 1 March of year `y`, in 400-year eras of
      146097 days. */
  function MarchFirst(y: int): int {
    (y / 400) * 146097 + EraDays(y % 400)
  }

  /** The day number of a calendar date: 1970-01-01 is day 0. Years start
      in March so that the leap day comes last. */
  function EpochDay(y: int, m: int, d: int): int
    requires 1 <= m <= 12
  {
    var y' := if m <= 2 then y - 1 else y;
    var mp := if m > 2 then m - 3 else m + 9;
    MarchFirst(y') + MarchDays(mp) + d - 1 - 719468
  }

  /** The calendar day after a valid date. */
  function Next(y: int, m: int, d: int): (int, int, int)
    requires ValidDate(y, m, d)
  {
    if d < MonthLength(y, m) then (y, m, d + 1)
    else if m < 12 then (y, m + 1, 1)
    else (y + 1, 1, 1)
  }

  /** Within an era a year has 366 days exactly when the next one is a
      leap year. */
  lemma EraDaysStep(q: int)
    requires 0 <= q < 399
    ensures EraDays(q + 1) - EraDays(q) == if Leap(q + 1) then 366 else 365
  {
    assert (q + 1) / 4 - q / 4 == if (q + 1) % 4 == 0 then 1 else 0;
    assert (q + 1) / 100 - q / 100 == if (q + 1) % 100 == 0 then 1 else 0;
  }

  /** Euclidean division by 400 is determined by quotient and remainder. */
  lemma DivMod400(y: int, e: int, q: int)
    requires y == 400 * e + q && 0 <= q < 400
    ensures y / 400 == e && y % 400 == q
  {
  }

  /** Leap years repeat every 400 years. */
  lemma LeapMod400(y: int)
    ensures Leap(y) == Leap(y % 400)
  {
    var e, q := y / 400, y % 400;
    assert y == 400 * e + q;
    ShiftMod(e, q);
  }

  /** Adding whole 400-year eras changes no remainder by 4, 100 or 400. */
  lemma ShiftMod(e: int, q: int)
    requires 0 <= q < 400
    ensures (400 * e + q) % 4 == q % 4 && (400 * e + q) % 100 == q % 100 && (400 * e + q) % 400 == q
  {
    ModOf(400 * e + q, 100 * e + q / 4, q % 4, 4);
    ModOf(400 * e + q, 4 * e + q / 100, q % 100, 100);
    ModOf(400 * e + q, e, q, 400);
  }

  /** The remainder is the only value below the divisor that differs from
      the dividend by a multiple of it. */
  lemma ModOf(a: int, k: int, r: int, m: int)
    requires 0 <= r < m && a == m * k + r
    ensures a % m == r
  {
    var d := a / m;
    assert m * d + a % m == a;
    if d > k {
      assert m * d >= m * (k + 1) by { MulMono(m, k + 1, d); }
    } else if d < k {
      assert m * k >= m * (d + 1) by { MulMono(m, d + 1, k); }
    }
  }

  lemma MulMono(m: int, x: int, y: int)
    requires m > 0 && x <= y
    ensures m * x <= m * y
  {
    assert m * y - m * x == m * (y - x);
  }

  /** From 1 March of one year to 1 March of the next there are 365 days,
      366 when the next year is a leap year. */
  lemma MarchFirstStep(y: int)
    ensures MarchFirst(y) - MarchFirst(y - 1) == if Leap(y) then 366 else 365
  {
    var e := (y - 1) / 400;
    var q := (y - 1) % 400;
    DivMod400(y - 1, e, q);
    LeapMod400(y);
    if q == 399 {
      DivMod400(y, e + 1, 0);
      assert EraDays(399) == 145731;
    } else {
      DivMod400(y, e, q + 1);
      EraDaysStep(q);
    }
  }

  /** Day numbers count calendar days: the next date has the next number.
      With `EpochOrigin` this pins every day number down. */
  lemma EpochDayNext(y: int, m: int, d: int)
    requires ValidDate(y, m, d)
    ensures ValidDate(Next(y, m, d).0, Next(y, m, d).1, Next(y, m, d).2)
    ensures EpochDay(Next(y, m, d).0, Next(y, m, d).1, Next(y, m, d).2) == EpochDay(y, m, d) + 1
  {
    if d < MonthLength(y, m) {
    } else if m == 2 {
      MarchFirstStep(y);
      assert MarchDays(11) == 337 && MarchDays(0) == 0;
    } else if m < 12 {
      var mp := if m > 2 then m - 3 else m + 9;
      assert MarchDays(mp + 1) - MarchDays(mp) == MonthLength(y, m) by {
        assert m == 1 || 3 <= m <= 11;
      }
    } else {
      assert MarchDays(10) - MarchDays(9) == 31;
    }
  }

  lemma EpochOrigin()
    ensures EpochDay(1970, 1, 1) == 0
  {
    assert MarchFirst(1969) == 4 * 146097 + EraDays(369);
    assert MarchDays(10) == 306;
  }

  // ---------------------------------------------------------------------
  // Text

  /** The `n` characters from `i` are decimal digits. */
  predicate DigitsAt(s: string, i: int, n: nat) {
    0 <= i && i + n <= |s| && forall k :: i <= k < i + n ==> IsDigit(s[k])
  }

  /** The number the `n` digits from `i` spell. */
  function NumberAt(s: string, i: int, n: nat): (v: nat)
    requires DigitsAt(s, i, n)
    ensures v < Pow10(n)
  {
    if n == 0 then 0 else 10 * NumberAt(s, i, n - 1) + (s[i + n - 1] as int - '0' as int)
  }

  function Pow10(n: nat): nat {
    if n == 0 then 1 else 10 * Pow10(n - 1)
  }

  /** The first ten characters have the shape `YYYY-MM-DD`. */
  predicate DateShaped(s: string) {
    |s| >= 10 && DigitsAt(s, 0, 4) && s[4] == '-' && DigitsAt(s, 5, 2) && s[7] == '-' && DigitsAt(s, 8, 2)
  }

  /** The day number of a `YYYY-MM-DD` text, when it names a real date. */
  function ParseDate(s: string): (r: Option<int>)
    requires DateShaped(s)
    ensures r.Some? <==> ValidDate(NumberAt(s, 0, 4), NumberAt(s, 5, 2), NumberAt(s, 8, 2))
  {
    var y, m, d := NumberAt(s, 0, 4), NumberAt(s, 5, 2), NumberAt(s, 8, 2);
    if ValidDate(y, m, d) then Some(EpochDay(y, m, d)) else None
  }

  /** Seconds into the day of a clock time `HH:MM` or `HH:MM:SS`. */
  function ParseClock(s: string): (r: Option<int>)
    ensures r.Some? ==> 0 <= r.value < SecondsPerDay
    ensures r.Some? ==> |s| == 5 || |s| == 8
  {
    if (|s| == 5 || |s| == 8) && DigitsAt(s, 0, 2) && s[2] == ':' && DigitsAt(s, 3, 2)
       && (|s| == 8 ==> s[5] == ':' && DigitsAt(s, 6, 2))
    then
      var h, mi := NumberAt(s, 0, 2), NumberAt(s, 3, 2);
      var se := if |s| == 8 then NumberAt(s, 6, 2) else 0;
      if h < 24 && mi < 60 && se < 60 then Some(h * 3600 + mi * 60 + se) else None
    else None
  }

  /** The range of instants a pandas timestamp can hold: nanoseconds from
      the epoch in a signed 64-bit integer, one value reserved for NaT. */
  predicate InTimestampRange(t: int) {
    -9223372036854775807 <= t * 1000000000 <= 9223372036854775807
  }

  /** `pd.to_datetime` on one text: the instant of a date or date-time in
      the forms above, or nothing (NaT) for any other text, an impossible
      date or an instant outside the timestamp range. */
  function ParseStamp(s: string): (r: Option<int>)
    ensures r.Some? ==> DateShaped(s) && ParseDate(s[..10]).Some?
    ensures r.Some? ==> InTimestampRange(r.value)
    ensures r.Some? ==> (r.value / SecondsPerDay == ParseDate(s[..10]).value)
  {
    if !DateShaped(s) then None
    else
      assert DateShaped(s[..10]) by {
        assert forall k :: 0 <= k < 10 ==> s[..10][k] == s[k];
      }
      var day := ParseDate(s[..10]);
      var clock := if |s| == 10 then Some(0)
                   else if s[10] == 'T' || s[10] == ' ' then ParseClock(s[11..])
                   else None;
      if day.None? || clock.None? then None
      else
        var t := day.value * SecondsPerDay + clock.value;
        if InTimestampRange(t) then Some(t) else None
  }

  // ---------------------------------------------------------------------
  // Rendering, the inverse of parsing

  /** Zero-padded decimal digits of `v`, `n` of them. */
  function Padded(v: nat, n: nat): (r: string)
    requires v < Pow10(n)
    ensures |r| == n
    ensures forall k :: 0 <= k < n ==> IsDigit(r[k])
  {
    if n == 0 then "" else Padded(v / 10, n - 1) + [DigitChar(v % 10)]
  }

  /** `date.isoformat()`. */
  function IsoDate(y: nat, m: nat, d: nat): string
    requires y < 10000 && m < 100 && d < 100
  {
    Padded(y, 4) + "-" + Padded(m, 2) + "-" + Padded(d, 2)
  }

  /** `HH:MM:SS`. */
  function IsoClock(h: nat, mi: nat, se: nat): string
    requires h < 100 && mi < 100 && se < 100
  {
    Padded(h, 2) + ":" + Padded(mi, 2) + ":" + Padded(se, 2)
  }

  /** Reading back `n` padded digits placed at `i` gives the number. */
  lemma {:induction false} NumberAtPadded(s: string, i: int, v: nat, n: nat)
    requires v < Pow10(n) && 0 <= i && i + n <= |s| && s[i..i + n] == Padded(v, n)
    ensures DigitsAt(s, i, n) && NumberAt(s, i, n) == v
  {
    var p := Padded(v, n);
    assert forall k :: i <= k < i + n ==> s[k] == p[k - i];
    if n > 0 {
      assert s[i..i + n - 1] == Padded(v / 10, n - 1) by {
        assert s[i..i + n - 1] == s[i..i + n][..n - 1];
      }
      NumberAtPadded(s, i, v / 10, n - 1);
      assert s[i + n - 1] == DigitChar(v % 10);
    }
  }

  /** A rendered date parses back to its day number. */
  lemma IsoDateRoundTrip(y: nat, m: nat, d: nat)
    requires y < 10000 && ValidDate(y, m, d)
    ensures DateShaped(IsoDate(y, m, d)) && ParseDate(IsoDate(y, m, d)) == Some(EpochDay(y, m, d))
  {
    var s := IsoDate(y, m, d);
    assert s[0..4] == Padded(y, 4);
    assert s[5..7] == Padded(m, 2);
    assert s[8..10] == Padded(d, 2);
    NumberAtPadded(s, 0, y, 4);
    NumberAtPadded(s, 5, m, 2);
    NumberAtPadded(s, 8, d, 2);
  }

  /** A rendered date-time `YYYY-MM-DDTHH:MM:SS` parses back to its instant
      when the instant fits a pandas timestamp, and to nothing otherwise. */
  lemma IsoStampRoundTrip(y: nat, m: nat, d: nat, h: nat, mi: nat, se: nat)
    requires y < 10000 && ValidDate(y, m, d) && h < 24 && mi < 60 && se < 60
    ensures var t := EpochDay(y, m, d) * SecondsPerDay + h * 3600 + mi * 60 + se;
            ParseStamp(IsoDate(y, m, d) + "T" + IsoClock(h, mi, se)) == if InTimestampRange(t) then Some(t) else None
  {
    var date := IsoDate(y, m, d);
    var clock := IsoClock(h, mi, se);
    var s := date + "T" + clock;
    IsoDateRoundTrip(y, m, d);
    IsoClockRoundTrip(h, mi, se);
    assert s[..10] == date;
    assert s[11..] == clock;
    assert forall k :: 0 <= k < 10 ==> s[k] == date[k];
  }

  /** A rendered clock time parses back to its seconds. */
  lemma IsoClockRoundTrip(h: nat, mi: nat, se: nat)
    requires h < 24 && mi < 60 && se < 60
    ensures ParseClock(IsoClock(h, mi, se)) == Some(h * 3600 + mi * 60 + se)
  {
    var clock := IsoClock(h, mi, se);
    assert clock[0..2] == Padded(h, 2);
    assert clock[3..5] == Padded(mi, 2);
    assert clock[6..8] == Padded(se, 2);
    NumberAtPadded(clock, 0, h, 2);
    NumberAtPadded(clock, 3, mi, 2);
    NumberAtPadded(clock, 6, se, 2);
  }

  /** A bare rendered date parses to its midnight when that fits. */
  lemma IsoDateStamp(y: nat, m: nat, d: nat)
    requires y < 10000 && ValidDate(y, m, d)
    ensures ParseStamp(IsoDate(y, m, d)) ==
              if InTimestampRange(EpochDay(y, m, d) * SecondsPerDay) then Some(EpochDay(y, m, d) * SecondsPerDay) else None
  {
    var s := IsoDate(y, m, d);
    IsoDateRoundTrip(y, m, d);
    assert s[..10] == s;
  }
}
