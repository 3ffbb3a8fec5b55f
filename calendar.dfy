/**
 * UTC calendar arithmetic on POSIX time (seconds since 1970-01-01T00:00:00Z, every day 86400
 * seconds) and the two renderings the aggregation uses: `%Y-%m-%dT%H:%M:%SZ`, the `date-time`
 * form of section 5.6 of RFC 3339 with the `Z` offset, and `%Y-%m-%d`.
 * Python's `datetime` covers the years 1 to 9999; outside them converting a time stamp fails.
 */
module Calendar {
  import opened Wrappers
  import opened Integers

  const SecondsPerDay: int := 86400

  /** Days from 0001-01-01 (day 0 of the proleptic Gregorian calendar) to 1970-01-01. */
  const EpochDay: int := 719162

  datatype Date = Date(year: int, month: int, day: int)

  datatype DateTime = DateTime(date: Date, hour: int, minute: int, second: int)

  predicate IsLeap(y: int)
  {
    y % 4 == 0 && (y % 100 != 0 || y % 400 == 0)
  }

  function YearLength(y: int): int
  {
    if IsLeap(y) then 366 else 365
  }

  /** Days in the months before month m (1 to 13) of year y. */
  function DaysBeforeMonth(y: int, m: int): (r: int)
    requires 1 <= m <= 13
    ensures m == 13 ==> r == YearLength(y)
  {
    [0, 31, 59, 90, 120, 151, 181, 212, 243, 273, 304, 334, 365][m - 1]
      + (if m > 2 && IsLeap(y) then 1 else 0)
  }

  function DaysInMonth(y: int, m: int): (r: int)
    requires 1 <= m <= 12
    ensures 28 <= r <= 31
  {
    DaysBeforeMonth(y, m + 1) - DaysBeforeMonth(y, m)
  }

  /** Days in the years before year y (y >= 1), counted from 0001-01-01. */
  function DaysBeforeYear(y: int): int
    requires y >= 1
  {
    var z := y - 1;
    365 * z + z / 4 - z / 100 + z / 400
  }

  /** The first day past the year 9999. */
  const DayLimit: int := 3652059

  predicate ValidDate(d: Date)
  {
    1 <= d.year <= 9999 && 1 <= d.month <= 12 && 1 <= d.day <= DaysInMonth(d.year, d.month)
  }

  predicate ValidDateTime(dt: DateTime)
  {
    ValidDate(dt.date) && 0 <= dt.hour < 24 && 0 <= dt.minute < 60 && 0 <= dt.second < 60
  }

  /** The day number of a date, counted from 0001-01-01. */
  function DayNumber(d: Date): int
    requires ValidDate(d)
  {
    DaysBeforeYear(d.year) + DaysBeforeMonth(d.year, d.month) + d.day - 1
  }

  /** POSIX time of a calendar date and time of day. */
  function ToEpoch(dt: DateTime): int
    requires ValidDateTime(dt)
  {
    (DayNumber(dt.date) - EpochDay) * SecondsPerDay + dt.hour * 3600 + dt.minute * 60 + dt.second
  }

  /** Days before year 400a + 100b + 4c + e + 1, read off the 400-, 100- and 4-year cycles. */
  lemma DaysBeforeYearCycles(a: int, b: int, c: int, e: int)
    requires 0 <= a && 0 <= b <= 3 && 0 <= c <= 24 && 0 <= e <= 3
    ensures DaysBeforeYear(400 * a + 100 * b + 4 * c + e + 1) == 146097 * a + 36524 * b + 1461 * c + 365 * e
  {
    var z := 400 * a + 100 * b + 4 * c + e;
    DivModOf(z, 4, 100 * a + 25 * b + c, e);
    DivModOf(z, 100, 4 * a + b, 4 * c + e);
    DivModOf(z, 400, a, 100 * b + 4 * c + e);
  }

  /** The year holding day n and the number of days of that year before it. */
  function YearOfDay(n: int): (r: (int, int))
    requires 0 <= n < DayLimit
    ensures 1 <= r.0 <= 9999 && 0 <= r.1 < YearLength(r.0)
    ensures DaysBeforeYear(r.0) + r.1 == n
  {
    var a, r1 := n / 146097, n % 146097;
    var b, r2 := r1 / 36524, r1 % 36524;
    var c, r3 := r2 / 1461, r2 % 1461;
    var e, r4 := r3 / 365, r3 % 365;
    var r := if b == 4 then (400 * a + 400, 365)
             else if e == 4 then (400 * a + 100 * b + 4 * c + 4, 365)
             else (400 * a + 100 * b + 4 * c + e + 1, r4);
    YearOfDayCorrect(n, a, b, c, e, r4, r.0, r.1);
    r
  }

  lemma YearOfDayCorrect(n: int, a: int, b: int, c: int, e: int, r4: int, y: int, k: int)
    requires 0 <= n < DayLimit
    requires a == n / 146097 && b == n % 146097 / 36524 && c == n % 146097 % 36524 / 1461
    requires e == n % 146097 % 36524 % 1461 / 365 && r4 == n % 146097 % 36524 % 1461 % 365
    requires y == if b == 4 then 400 * a + 400 else if e == 4 then 400 * a + 100 * b + 4 * c + 4 else 400 * a + 100 * b + 4 * c + e + 1
    requires k == if b == 4 || e == 4 then 365 else r4
    ensures 1 <= y <= 9999 && 0 <= k < YearLength(y) && DaysBeforeYear(y) + k == n
  {
    CycleDigits(n, a, b, c, e, r4);
    if b == 4 {
      LastDayOfCycle(a);
    } else if e == 4 {
      LastDayOfLeapCycle(a, b, c);
    } else {
      DaysBeforeYearCycles(a, b, c, e);
    }
  }

  /** Day n read off in 400-year, 100-year, 4-year and 1-year cycles. */
  lemma CycleDigits(n: int, a: int, b: int, c: int, e: int, r4: int)
    requires 0 <= n < DayLimit
    requires a == n / 146097 && b == n % 146097 / 36524 && c == n % 146097 % 36524 / 1461
    requires e == n % 146097 % 36524 % 1461 / 365 && r4 == n % 146097 % 36524 % 1461 % 365
    ensures n == 146097 * a + 36524 * b + 1461 * c + 365 * e + r4
    ensures 0 <= a <= 24 && 0 <= b <= 4 && 0 <= c <= 24 && 0 <= e <= 4 && 0 <= r4 < 365
    ensures b == 4 ==> c == 0 && e == 0 && r4 == 0
    ensures e == 4 ==> c <= 23 && r4 == 0
  {
    var r1 := n % 146097;
    var r2 := r1 % 36524;
    var r3 := r2 % 1461;
    assert n == 146097 * a + r1;
    assert r1 == 36524 * b + r2;
    assert r2 == 1461 * c + r3;
    assert r3 == 365 * e + r4;
  }

  /** The last day of a 400-year cycle is day 365 of its leap year 400(a + 1). */
  lemma LastDayOfCycle(a: int)
    requires 0 <= a <= 24
    ensures DaysBeforeYear(400 * a + 400) + 365 == 146097 * a + 146096
    ensures YearLength(400 * a + 400) == 366
  {
    DaysBeforeYearCycles(a, 3, 24, 3);
    assert (400 * a + 400) % 400 == 0;
  }

  /** The last day of a 4-year cycle is day 365 of its leap year. */
  lemma LastDayOfLeapCycle(a: int, b: int, c: int)
    requires 0 <= a && 0 <= b <= 3 && 0 <= c <= 23
    ensures DaysBeforeYear(400 * a + 100 * b + 4 * c + 4) + 365 == 146097 * a + 36524 * b + 1461 * c + 1460
    ensures YearLength(400 * a + 100 * b + 4 * c + 4) == 366
  {
    DaysBeforeYearCycles(a, b, c, 3);
    var y := 400 * a + 100 * b + 4 * c + 4;
    DivModOf(y, 4, 100 * a + 25 * b + c + 1, 0);
    DivModOf(y, 100, 4 * a + b, 4 * c + 4);
  }

  /** The month of year y holding day k of that year (counted from 0), searching from month m. */
  function MonthOfDay(y: int, k: int, m: int): (r: int)
    requires 1 <= m <= 12 && DaysBeforeMonth(y, m) <= k < YearLength(y)
    ensures m <= r <= 12 && DaysBeforeMonth(y, r) <= k < DaysBeforeMonth(y, r + 1)
    decreases 12 - m
  {
    if k < DaysBeforeMonth(y, m + 1) then m else MonthOfDay(y, k, m + 1)
  }

  /** The calendar date of day n counted from 0001-01-01. */
  function DateOfDay(n: int): (d: Date)
    requires 0 <= n < DayLimit
    ensures ValidDate(d) && DayNumber(d) == n
  {
    var (y, k) := YearOfDay(n);
    var m := MonthOfDay(y, k, 1);
    Date(y, m, k - DaysBeforeMonth(y, m) + 1)
  }

  lemma TimeOfDaySplit(secs: int)
    requires 0 <= secs < SecondsPerDay
    ensures 0 <= secs / 3600 < 24 && 0 <= secs % 3600 / 60 < 60 && 0 <= secs % 60 < 60
    ensures secs == secs / 3600 * 3600 + secs % 3600 / 60 * 60 + secs % 60
  {
  }

  /** The least and greatest POSIX times that Python's `datetime` can represent (years 1 to 9999). */
  const MinTime: int := -EpochDay * SecondsPerDay
  const MaxTime: int := (DayLimit - EpochDay) * SecondsPerDay - 1

  /** The POSIX times `datetime` can represent: the years 1 to 9999. */
  predicate InRange(t: int)
  {
    MinTime <= t <= MaxTime
  }

  /** The UTC calendar date and time of day of POSIX time t (`datetime.fromtimestamp(t, UTC)`). */
  function ToDateTime(t: int): (dt: DateTime)
    requires InRange(t)
    ensures ValidDateTime(dt) && ToEpoch(dt) == t
  {
    var days, secs := t / SecondsPerDay, t % SecondsPerDay;
    var dt := DateTime(DateOfDay(days + EpochDay), secs / 3600, secs % 3600 / 60, secs % 60);
    TimeOfDaySplit(secs);
    assert t == days * SecondsPerDay + secs;
    dt
  }

  // Rendering and reading back fixed-width decimal fields.

  predicate IsDigit(c: char)
  {
    '0' <= c <= '9'
  }

  function DigitChar(v: int): (c: char)
    requires 0 <= v <= 9
    ensures IsDigit(c)
  {
    ('0' as int + v) as char
  }

  /** The value of a string of decimal digits. */
  function DigitsValue(s: string): int
  {
    if s == [] then 0 else 10 * DigitsValue(s[..|s| - 1]) + (s[|s| - 1] as int - '0' as int)
  }

  lemma DigitsValueSnoc(s: string, c: char)
    ensures DigitsValue(s + [c]) == 10 * DigitsValue(s) + (c as int - '0' as int)
  {
    assert (s + [c])[..|s|] == s;
  }

  predicate AllDigits(s: string)
  {
    forall i :: 0 <= i < |s| ==> IsDigit(s[i])
  }

  /** v as two digits, zero-padded (glibc's `%m`, `%d`, `%H`, `%M`, `%S`). */
  function Pad2(v: int): (s: string)
    requires 0 <= v <= 99
    ensures |s| == 2 && AllDigits(s) && DigitsValue(s) == v
  {
    var s := [DigitChar(v / 10), DigitChar(v % 10)];
    DigitsValueSnoc([], s[0]);
    DigitsValueSnoc([s[0]], s[1]);
    assert [s[0]] + [s[1]] == s;
    s
  }

  /** v in decimal without leading zeros: glibc's `%Y` pads no year to four digits. */
  function Decimal(v: int): (s: string)
    requires v >= 0
    ensures 1 <= |s| && AllDigits(s) && DigitsValue(s) == v
    ensures v < 10 ==> |s| == 1
    ensures 10 <= v < 100 ==> |s| == 2
    ensures 100 <= v < 1000 ==> |s| == 3
    ensures 1000 <= v < 10000 ==> |s| == 4
  {
    if v < 10 then
      DigitsValueSnoc([], DigitChar(v));
      [DigitChar(v)]
    else
      var s := Decimal(v / 10) + [DigitChar(v % 10)];
      DigitsValueSnoc(Decimal(v / 10), DigitChar(v % 10));
      s
  }

  /** `strftime('%Y-%m-%d')`. */
  function RenderDate(d: Date): (s: string)
    requires ValidDate(d)
    ensures |s| == |Decimal(d.year)| + 6
  {
    Decimal(d.year) + "-" + Pad2(d.month) + "-" + Pad2(d.day)
  }

  /** `strftime('%Y-%m-%dT%H:%M:%SZ')`. */
  function RenderDateTime(dt: DateTime): (s: string)
    requires ValidDateTime(dt)
    ensures |s| == |Decimal(dt.date.year)| + 16
  {
    RenderDate(dt.date) + "T" + Pad2(dt.hour) + ":" + Pad2(dt.minute) + ":" + Pad2(dt.second) + "Z"
  }

  /** Reads a `YYYY-MM-DDTHH:MM:SSZ` string (the year of one or more digits) back into a date and time;
      None unless it is well formed and names a real instant. */
  function ParseDateTime(s: string): Option<DateTime>
  {
    if |s| < 17 then None
    else
      var year, rest := s[..|s| - 16], s[|s| - 16..];
      if rest[0] == '-' && rest[3] == '-' && rest[6] == 'T' && rest[9] == ':' && rest[12] == ':' && rest[15] == 'Z'
        && AllDigits(year) && AllDigits(rest[1..3]) && AllDigits(rest[4..6])
        && AllDigits(rest[7..9]) && AllDigits(rest[10..12]) && AllDigits(rest[13..15])
      then
        var dt := DateTime(Date(DigitsValue(year), DigitsValue(rest[1..3]), DigitsValue(rest[4..6])),
                           DigitsValue(rest[7..9]), DigitsValue(rest[10..12]), DigitsValue(rest[13..15]));
        if ValidDateTime(dt) then Some(dt) else None
      else None
  }

  /** Rendering then reading back gives the same date and time. */
  lemma ParseRenderDateTime(dt: DateTime)
    requires ValidDateTime(dt)
    ensures ParseDateTime(RenderDateTime(dt)) == Some(dt)
  {
    var y := Decimal(dt.date.year);
    var rest := TimeFields(Pad2(dt.date.month), Pad2(dt.date.day), Pad2(dt.hour), Pad2(dt.minute), Pad2(dt.second));
    assert RenderDateTime(dt) == y + rest;
    TimeFieldsSlices(Pad2(dt.date.month), Pad2(dt.date.day), Pad2(dt.hour), Pad2(dt.minute), Pad2(dt.second));
    SplitAt(y, rest);
  }

  /** The fixed-width tail `-MM-DDTHH:MM:SSZ` of a rendering. */
  function TimeFields(mo: string, d: string, h: string, mi: string, sec: string): string
  {
    "-" + mo + "-" + d + "T" + h + ":" + mi + ":" + sec + "Z"
  }

  lemma TimeFieldsSlices(mo: string, d: string, h: string, mi: string, sec: string)
    requires |mo| == 2 && |d| == 2 && |h| == 2 && |mi| == 2 && |sec| == 2
    ensures var r := TimeFields(mo, d, h, mi, sec);
      |r| == 16 && r[0] == '-' && r[3] == '-' && r[6] == 'T' && r[9] == ':' && r[12] == ':' && r[15] == 'Z'
      && r[1..3] == mo && r[4..6] == d && r[7..9] == h && r[10..12] == mi && r[13..15] == sec
  {
  }

  lemma SplitAt(y: string, rest: string)
    ensures (y + rest)[..|y|] == y && (y + rest)[|y|..] == rest
  {
  }

  /** `datetime.fromtimestamp(t, UTC).strftime('%Y-%m-%dT%H:%M:%SZ')`; None where `datetime` cannot represent t. */
  function FormatUtc(t: int): (r: Option<string>)
    ensures r.Some? <==> InRange(t)
  {
    if InRange(t) then Some(RenderDateTime(ToDateTime(t))) else None
  }

  /** `strftime('%Y-%m-%d')` of the UTC date of POSIX time t; None where `datetime` cannot represent t. */
  function FormatUtcDate(t: int): (r: Option<string>)
    ensures r.Some? <==> InRange(t)
  {
    if InRange(t) then Some(RenderDate(ToDateTime(t).date)) else None
  }

  /** Reads a `YYYY-MM-DDTHH:MM:SSZ` string back into POSIX time. */
  function ParseUtc(s: string): Option<int>
  {
    match ParseDateTime(s)
    case Some(dt) => Some(ToEpoch(dt))
    case None => None
  }

  /** The rendering loses nothing: reading it back gives the POSIX time it came from, so distinct times render differently. */
  lemma ParseFormatUtc(t: int)
    requires InRange(t)
    ensures FormatUtc(t).Some? && ParseUtc(FormatUtc(t).value) == Some(t)
  {
    ParseRenderDateTime(ToDateTime(t));
  }

  /** A year has 365 or 366 days: the next year starts that many days later. */
  lemma DaysBeforeYearStep(y: int)
    requires y >= 1
    ensures DaysBeforeYear(y + 1) == DaysBeforeYear(y) + YearLength(y)
  {
    DivStep(y - 1, 4);
    DivStep(y - 1, 100);
    DivStep(y - 1, 400);
    if y % 100 == 0 {
      DivisibleBy(y, 100, 25, 4);
    }
    if y % 400 == 0 {
      DivisibleBy(y, 400, 4, 100);
    }
  }

  /** Counting one more: the quotient grows exactly when the new number is a multiple. */
  lemma DivStep(z: int, k: int)
    requires k > 0
    ensures (z + 1) / k == z / k + (if (z + 1) % k == 0 then 1 else 0)
  {
    var q, r := z / k, z % k;
    if r == k - 1 {
      DivModOf(z + 1, k, q + 1, 0);
    } else {
      DivModOf(z + 1, k, q, r + 1);
    }
  }

  /** A multiple of k = j * i is a multiple of i. */
  lemma DivisibleBy(y: int, k: int, j: int, i: int)
    requires i > 0 && j > 0 && k == j * i && y % k == 0
    ensures y % i == 0
  {
    var q := y / k;
    assert y == k * q;
    assert y == i * (j * q);
    DivModOf(y, i, j * q, 0);
  }

  lemma {:induction false} DaysBeforeYearMonotone(y1: int, y2: int)
    requires 1 <= y1 <= y2
    ensures DaysBeforeYear(y1) <= DaysBeforeYear(y2)
    decreases y2 - y1
  {
    if y1 < y2 {
      DaysBeforeYearStep(y1);
      DaysBeforeYearMonotone(y1 + 1, y2);
    }
  }

  /** Each valid date has its own day number, and it lies before the year 10000. */
  lemma DayNumberInjective(d1: Date, d2: Date)
    requires ValidDate(d1) && ValidDate(d2) && DayNumber(d1) == DayNumber(d2)
    ensures d1 == d2 && 0 <= DayNumber(d1) < DayLimit
  {
    YearOfDayNumber(d1);
    YearOfDayNumber(d2);
    var y1, y2 := d1.year, d2.year;
    if y1 < y2 {
      DaysBeforeYearMonotone(y1 + 1, y2);
    } else if y2 < y1 {
      DaysBeforeYearMonotone(y2 + 1, y1);
    }
    assert y1 == y2;
    if d1.month < d2.month {
      MonthsIncrease(y1, d1.month, d2.month);
    } else if d2.month < d1.month {
      MonthsIncrease(y1, d2.month, d1.month);
    }
  }

  /** The day number of a date lies within its year, and before the year 10000. */
  lemma YearOfDayNumber(d: Date)
    requires ValidDate(d)
    ensures DaysBeforeYear(d.year) <= DayNumber(d) < DaysBeforeYear(d.year + 1) <= DayLimit
    ensures 0 <= DayNumber(d)
  {
    DaysBeforeYearStep(d.year);
    DaysBeforeYearMonotone(d.year + 1, 10000);
    assert DaysBeforeMonth(d.year, d.month) + d.day - 1 < DaysBeforeMonth(d.year, 13) by {
      if d.month < 12 {
        MonthsIncrease(d.year, d.month, 13);
      }
    }
  }

  /** Later months start later. */
  lemma MonthsIncrease(y: int, m1: int, m2: int)
    requires 1 <= m1 < m2 <= 13
    ensures DaysBeforeMonth(y, m1 + 1) <= DaysBeforeMonth(y, m2)
  {
  }

  /** Each valid date and time has its own POSIX time, within the range `datetime` can represent. */
  lemma ToEpochInjective(dt1: DateTime, dt2: DateTime)
    requires ValidDateTime(dt1) && ValidDateTime(dt2) && ToEpoch(dt1) == ToEpoch(dt2)
    ensures dt1 == dt2 && MinTime <= ToEpoch(dt1) <= MaxTime
  {
    var s1 := dt1.hour * 3600 + dt1.minute * 60 + dt1.second;
    var s2 := dt2.hour * 3600 + dt2.minute * 60 + dt2.second;
    var n1, n2 := DayNumber(dt1.date) - EpochDay, DayNumber(dt2.date) - EpochDay;
    DivModOf(ToEpoch(dt1), SecondsPerDay, n1, s1);
    DivModOf(ToEpoch(dt2), SecondsPerDay, n2, s2);
    DayNumberInjective(dt1.date, dt2.date);
  }

  /** FormatUtc(t) renders the one calendar date and time whose POSIX time is t. */
  lemma FormatUtcOf(t: int, dt: DateTime)
    requires ValidDateTime(dt) && ToEpoch(dt) == t
    ensures FormatUtc(t) == Some(RenderDateTime(dt))
  {
    ToEpochInjective(dt, dt);
    ToEpochInjective(ToDateTime(t), dt);
  }

  /** The date rendering is the full rendering without its last ten characters (`THH:MM:SSZ`). */
  lemma FormatUtcDatePrefix(t: int)
    requires InRange(t)
    ensures FormatUtcDate(t).value == FormatUtc(t).value[..|FormatUtc(t).value| - 10]
  {
    var dt := ToDateTime(t);
    var d := RenderDate(dt.date);
    assert FormatUtc(t).value == d + ("T" + Pad2(dt.hour) + ":" + Pad2(dt.minute) + ":" + Pad2(dt.second) + "Z");
  }

  // Example renderings: the epoch, a day in 2025, and the range limits.

  lemma FormatUtcExampleEpoch()
    ensures FormatUtc(0) == Some("1970-01-01T00:00:00Z")
  {
    var dt := DateTime(Date(1970, 1, 1), 0, 0, 0);
    EpochOfExample(dt, 0);
    RenderEpochExample();
    FormatUtcOf(0, dt);
  }

  lemma FormatUtcExampleDay()
    ensures FormatUtc(1750213829) == Some("2025-06-18T02:30:29Z")
  {
    var dt := DateTime(Date(2025, 6, 18), 2, 30, 29);
    EpochOfExample(dt, 1750213829);
    RenderDayExample();
    FormatUtcOf(1750213829, dt);
  }

  lemma EpochOfExample(dt: DateTime, t: int)
    requires (dt == DateTime(Date(1970, 1, 1), 0, 0, 0) && t == 0)
          || (dt == DateTime(Date(2025, 6, 18), 2, 30, 29) && t == 1750213829)
    ensures ValidDateTime(dt) && ToEpoch(dt) == t
  {
  }

  lemma RenderEpochExample()
    ensures RenderDateTime(DateTime(Date(1970, 1, 1), 0, 0, 0)) == "1970-01-01T00:00:00Z"
  {
    Year1970();
    assert Pad2(1) == "01";
    assert Pad2(0) == "00";
  }

  lemma RenderDayExample()
    ensures RenderDateTime(DateTime(Date(2025, 6, 18), 2, 30, 29)) == "2025-06-18T02:30:29Z"
  {
    DateExample();
    assert Pad2(2) == "02";
    assert Pad2(30) == "30";
    assert Pad2(29) == "29";
    var date, time := "2025-06-18", "T" + Pad2(2) + ":" + Pad2(30) + ":" + Pad2(29) + "Z";
    assert time == "T02:30:29Z";
    assert RenderDateTime(DateTime(Date(2025, 6, 18), 2, 30, 29)) == date + time;
  }

  lemma DateExample()
    ensures RenderDate(Date(2025, 6, 18)) == "2025-06-18"
  {
    Year2025();
    assert Pad2(6) == "06";
    assert Pad2(18) == "18";
  }

  lemma Year1970()
    ensures Decimal(1970) == "1970"
  {
    assert Decimal(19) == "19";
  }

  lemma Year2025()
    ensures Decimal(2025) == "2025"
  {
    assert Decimal(20) == "20";
  }

  lemma FormatUtcExampleBounds()
    ensures FormatUtc(MaxTime + 1) == None && FormatUtc(MinTime - 1) == None
  {
  }
}
