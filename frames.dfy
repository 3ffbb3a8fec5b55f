/**
 * The hourly and daily frames the aggregation works on, as sequences of rows in
 * index order, with the half-open time window that selects a day's hours and a
 * day's daylight hours, and the column sum and mean that the aggregation takes.
 */
module Frames {
  import opened Wrappers
  import opened Schema

  /** One row of the hourly frame: its POSIX time (seconds, UTC) and one value per hourly variable. */
  datatype HourlyRow = HourlyRow(
    time: int,
    temperature2m: real,
    relativeHumidity2m: real,
    dewPoint2m: real,
    apparentTemperature: real,
    temperature80m: real,
    temperature120m: real,
    windSpeed10m: real,
    windSpeed80m: real,
    windDirection10m: real,
    windDirection80m: real,
    visibility: real,
    evapotranspiration: real,
    weatherCode: int,
    soilTemperature0cm: real,
    soilTemperature6cm: real,
    rain: real,
    showers: real,
    snowfall: real)
  {
    /** The value in the column named by an hourly variable. */
    function Get(p: HourlyParam): real
    {
      match p
      case Temperature2m => temperature2m
      case RelativeHumidity2m => relativeHumidity2m
      case DewPoint2m => dewPoint2m
      case ApparentTemperature => apparentTemperature
      case Temperature80m => temperature80m
      case Temperature120m => temperature120m
      case WindSpeed10m => windSpeed10m
      case WindSpeed80m => windSpeed80m
      case WindDirection10m => windDirection10m
      case WindDirection80m => windDirection80m
      case Visibility => visibility
      case Evapotranspiration => evapotranspiration
      case WeatherCode => weatherCode as real
      case SoilTemperature0cm => soilTemperature0cm
      case SoilTemperature6cm => soilTemperature6cm
      case Rain => rain
      case Showers => showers
      case Snowfall => snowfall
    }
  }

  /**
   * One row of the daily frame: the day's start, sunrise and sunset (POSIX seconds) and the
   * daylight duration in seconds. The start is the local midnight of the location's time zone,
   * and the `date` label the aggregation gives the day is its UTC calendar date.
   */
  datatype DailyRow = DailyRow(date: int, sunrise: int, sunset: int, daylightDuration: real)

  /** `b` contains the elements of `a` in the same order, possibly with others in between. */
  ghost predicate SubsequenceOf<T>(a: seq<T>, b: seq<T>)
    decreases |b|
  {
    if a == [] then true
    else if b == [] then false
    else (a[0] == b[0] && SubsequenceOf(a[1..], b[1..])) || SubsequenceOf(a, b[1..])
  }

  /** The rows whose time lies in the half-open interval [lo, hi), in their original order. */
  function Window(rows: seq<HourlyRow>, lo: int, hi: int): (w: seq<HourlyRow>)
    ensures |w| <= |rows|
    ensures forall r :: r in w <==> r in rows && lo <= r.time < hi
    ensures SubsequenceOf(w, rows)
  {
    if rows == [] then []
    else if lo <= rows[0].time < hi then [rows[0]] + Window(rows[1..], lo, hi)
    else Window(rows[1..], lo, hi)
  }

  /** The selection keeps every copy of a row inside the interval and no copy of one outside it. */
  lemma {:induction false} WindowCounts(rows: seq<HourlyRow>, lo: int, hi: int)
    ensures forall r :: multiset(Window(rows, lo, hi))[r] == if lo <= r.time < hi then multiset(rows)[r] else 0
  {
    if rows != [] {
      WindowCounts(rows[1..], lo, hi);
      assert rows == [rows[0]] + rows[1..];
    }
  }

  /** Selecting from two stretches of rows one after the other selects from each in turn. */
  lemma {:induction false} WindowAppend(a: seq<HourlyRow>, b: seq<HourlyRow>, lo: int, hi: int)
    ensures Window(a + b, lo, hi) == Window(a, lo, hi) + Window(b, lo, hi)
  {
    if a != [] {
      assert (a + b)[1..] == a[1..] + b;
      WindowAppend(a[1..], b, lo, hi);
    } else {
      assert a + b == b;
    }
  }

  /** When every row falls inside the interval, the selection keeps them all. */
  lemma {:induction false} WindowAll(rows: seq<HourlyRow>, lo: int, hi: int)
    requires forall i :: 0 <= i < |rows| ==> lo <= rows[i].time < hi
    ensures Window(rows, lo, hi) == rows
  {
    if rows != [] {
      WindowAll(rows[1..], lo, hi);
    }
  }

  /** A window taken inside another window is the inner window of the original rows. */
  lemma {:induction false} WindowNested(rows: seq<HourlyRow>, lo: int, hi: int, lo2: int, hi2: int)
    ensures Window(Window(rows, lo, hi), lo2, hi2) == Window(rows, if lo < lo2 then lo2 else lo, if hi < hi2 then hi else hi2)
  {
    if rows != [] {
      WindowNested(rows[1..], lo, hi, lo2, hi2);
    }
  }

  /** The values of one column, row by row. */
  function Column(rows: seq<HourlyRow>, p: HourlyParam): (col: seq<real>)
    ensures |col| == |rows|
    ensures forall i :: 0 <= i < |rows| ==> col[i] == rows[i].Get(p)
  {
    seq(|rows|, i requires 0 <= i < |rows| => rows[i].Get(p))
  }

  /** The sum of a column, added left to right; 0 for an empty column. */
  function Sum(s: seq<real>): (r: real)
    ensures s == [] ==> r == 0.0
  {
    if s == [] then 0.0 else Sum(s[..|s| - 1]) + s[|s| - 1]
  }

  /** The mean of a column; an empty column has no mean (NaN). */
  function Mean(s: seq<real>): (m: Option<real>)
    ensures m.None? <==> s == []
  {
    if s == [] then None else Some(Sum(s) / |s| as real)
  }

  /** Summing two stretches one after the other adds their sums. */
  lemma {:induction false} SumAppend(a: seq<real>, b: seq<real>)
    ensures Sum(a + b) == Sum(a) + Sum(b)
    decreases |b|
  {
    if b == [] {
      assert a + b == a;
    } else {
      assert (a + b)[..|a + b| - 1] == a + b[..|b| - 1];
      SumAppend(a, b[..|b| - 1]);
    }
  }

  /** A column whose values all lie in [lo, hi] sums to between |s| lo and |s| hi. */
  lemma {:induction false} SumBounds(s: seq<real>, lo: real, hi: real)
    requires forall i :: 0 <= i < |s| ==> lo <= s[i] <= hi
    ensures |s| as real * lo <= Sum(s) <= |s| as real * hi
  {
    if s != [] {
      SumBounds(s[..|s| - 1], lo, hi);
    }
  }

  /** The mean of values that all lie in [lo, hi] lies in [lo, hi]. */
  lemma MeanBounds(s: seq<real>, lo: real, hi: real)
    requires s != [] && forall i :: 0 <= i < |s| ==> lo <= s[i] <= hi
    ensures lo <= Mean(s).value <= hi
  {
    SumBounds(s, lo, hi);
    DivBounds(Sum(s), |s| as real, lo, hi);
  }

  lemma DivBounds(x: real, n: real, lo: real, hi: real)
    requires n > 0.0 && n * lo <= x <= n * hi
    ensures lo <= x / n <= hi
  {
  }

  /** The mean of a constant column is that constant. */
  lemma MeanConstant(s: seq<real>, c: real)
    requires s != [] && forall i :: 0 <= i < |s| ==> s[i] == c
    ensures Mean(s) == Some(c)
  {
    MeanBounds(s, c, c);
  }

  lemma ColumnAppend(a: seq<HourlyRow>, b: seq<HourlyRow>, p: HourlyParam)
    ensures Column(a + b, p) == Column(a, p) + Column(b, p)
  {
  }

  lemma SumCons(x: real, s: seq<real>)
    ensures Sum([x] + s) == x + Sum(s)
  {
    SumAppend([x], s);
    assert [x][..0] == [];
  }

  /** For a quantity that is never negative, the total over a window is at most the total over all rows. */
  lemma {:induction false} WindowSumAtMost(rows: seq<HourlyRow>, lo: int, hi: int, p: HourlyParam)
    requires forall i :: 0 <= i < |rows| ==> rows[i].Get(p) >= 0.0
    ensures 0.0 <= Sum(Column(Window(rows, lo, hi), p)) <= Sum(Column(rows, p))
  {
    if rows != [] {
      var rest := rows[1..];
      assert rows == [rows[0]] + rest;
      WindowSumAtMost(rest, lo, hi, p);
      ColumnAppend([rows[0]], rest, p);
      assert Column([rows[0]], p) == [rows[0].Get(p)];
      SumCons(rows[0].Get(p), Column(rest, p));
      if lo <= rows[0].time < hi {
        ColumnAppend([rows[0]], Window(rest, lo, hi), p);
        SumCons(rows[0].Get(p), Column(Window(rest, lo, hi), p));
      }
    }
  }
}
