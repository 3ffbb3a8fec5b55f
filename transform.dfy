/**
 * The day aggregation: one `ResultRow` of 24-hour and daylight statistics, per-hour
 * series and sun times per day of the daily frame, and the pivot of those rows into
 * the columns of the result table.
 */
module Transform {
  import opened Wrappers
  import opened Rounding
  import opened Schema
  import opened Calendar
  import opened Frames

  /** Hours in one day's slice of the hourly frame. */
  const HoursPerDay: nat := 24

  /** The exceptions the aggregation raises; each aborts the whole run. */
  datatype Error =
    | WrongRowCount(count: nat)      // a day's slice does not have 24 rows
    | TimestampOutOfRange(time: int) // a sun time outside the years 1 to 9999

  /** The result row of one day, field by field in declaration order. */
  datatype ResultRow = ResultRow(
    avgTemperature2m24h: real,
    avgRelativeHumidity2m24h: real,
    avgDewPoint2m24h: real,
    avgApparentTemperature24h: real,
    avgTemperature80m24h: real,
    avgTemperature120m24h: real,
    avgWindSpeed10m24h: real,
    avgWindSpeed80m24h: real,
    avgVisibility24h: real,
    totalRain24h: real,
    totalShowers24h: real,
    totalSnowfall24h: real,
    avgTemperature2mDaylight: Option<real>,
    avgRelativeHumidity2mDaylight: Option<real>,
    avgDewPoint2mDaylight: Option<real>,
    avgApparentTemperatureDaylight: Option<real>,
    avgTemperature80mDaylight: Option<real>,
    avgTemperature120mDaylight: Option<real>,
    avgWindSpeed10mDaylight: Option<real>,
    avgWindSpeed80mDaylight: Option<real>,
    avgVisibilityDaylight: Option<real>,
    totalRainDaylight: real,
    totalShowersDaylight: real,
    totalSnowfallDaylight: real,
    windSpeed10mMPerS: seq<real>,
    windSpeed80mMPerS: seq<real>,
    temperature2mCelsius: seq<real>,
    apparentTemperatureCelsius: seq<real>,
    temperature80mCelsius: seq<real>,
    temperature120mCelsius: seq<real>,
    soilTemperature0cmCelsius: seq<real>,
    soilTemperature6cmCelsius: seq<real>,
    rainMm: seq<real>,
    showersMm: seq<real>,
    snowfallMm: seq<real>,
    daylightHours: real,
    sunsetIso: string,
    sunriseIso: string)

  /** The names of the result row's fields, in declaration order. */
  const FieldNames: seq<string> := [
    "avg_temperature_2m_24h", "avg_relative_humidity_2m_24h", "avg_dew_point_2m_24h",
    "avg_apparent_temperature_24h", "avg_temperature_80m_24h", "avg_temperature_120m_24h",
    "avg_wind_speed_10m_24h", "avg_wind_speed_80m_24h", "avg_visibility_24h",
    "total_rain_24h", "total_showers_24h", "total_snowfall_24h",
    "avg_temperature_2m_daylight", "avg_relative_humidity_2m_daylight", "avg_dew_point_2m_daylight",
    "avg_apparent_temperature_daylight", "avg_temperature_80m_daylight", "avg_temperature_120m_daylight",
    "avg_wind_speed_10m_daylight", "avg_wind_speed_80m_daylight", "avg_visibility_daylight",
    "total_rain_daylight", "total_showers_daylight", "total_snowfall_daylight",
    "wind_speed_10m_m_per_s", "wind_speed_80m_m_per_s",
    "temperature_2m_celsius", "apparent_temperature_celsius", "temperature_80m_celsius",
    "temperature_120m_celsius", "soil_temperature_0cm_celsius", "soil_temperature_6cm_celsius",
    "rain_mm", "showers_mm", "snowfall_mm",
    "daylight_hours", "sunset_iso", "sunrise_iso"
  ]

  /** The number of fields of a result row. */
  const FieldCount: nat := 38

  /** One cell of the result table. */
  datatype Cell = Num(x: real) | NaN | Series(values: seq<real>) | Text(text: string)

  function OptionalNum(a: Option<real>): Cell
  {
    match a
    case None => NaN
    case Some(x) => Num(x)
  }

  /** The row's values in field order, as table cells. */
  function Cells(row: ResultRow): (cells: seq<Cell>)
    ensures |cells| == FieldCount
  {
    [ Num(row.avgTemperature2m24h), Num(row.avgRelativeHumidity2m24h), Num(row.avgDewPoint2m24h),
      Num(row.avgApparentTemperature24h), Num(row.avgTemperature80m24h), Num(row.avgTemperature120m24h),
      Num(row.avgWindSpeed10m24h), Num(row.avgWindSpeed80m24h), Num(row.avgVisibility24h),
      Num(row.totalRain24h), Num(row.totalShowers24h), Num(row.totalSnowfall24h),
      OptionalNum(row.avgTemperature2mDaylight), OptionalNum(row.avgRelativeHumidity2mDaylight),
      OptionalNum(row.avgDewPoint2mDaylight), OptionalNum(row.avgApparentTemperatureDaylight),
      OptionalNum(row.avgTemperature80mDaylight), OptionalNum(row.avgTemperature120mDaylight),
      OptionalNum(row.avgWindSpeed10mDaylight), OptionalNum(row.avgWindSpeed80mDaylight),
      OptionalNum(row.avgVisibilityDaylight),
      Num(row.totalRainDaylight), Num(row.totalShowersDaylight), Num(row.totalSnowfallDaylight),
      Series(row.windSpeed10mMPerS), Series(row.windSpeed80mMPerS),
      Series(row.temperature2mCelsius), Series(row.apparentTemperatureCelsius), Series(row.temperature80mCelsius),
      Series(row.temperature120mCelsius), Series(row.soilTemperature0cmCelsius), Series(row.soilTemperature6cmCelsius),
      Series(row.rainMm), Series(row.showersMm), Series(row.snowfallMm),
      Num(row.daylightHours), Text(row.sunsetIso), Text(row.sunriseIso) ]
  }

  /** There are 38 field names, pairwise distinct, and none is the table's `date` column. */
  lemma {:induction false} FieldNamesDistinct()
    ensures |FieldNames| == FieldCount
    ensures forall i, j :: 0 <= i < j < |FieldNames| ==> FieldNames[i] != FieldNames[j]
    ensures "date" !in FieldNames
  {
    DateNotAField();
    FieldNamesDistinctFrom0();
    FieldNamesDistinctFrom2();
    FieldNamesDistinctFrom5();
    FieldNamesDistinctFrom10();
    FieldNamesDistinctFrom18();
    FieldNamesDistinctFrom30();
  }

  lemma {:induction false} DateNotAField()
    ensures "date" !in FieldNames
  {
  }

  // Distinctness in slices, each small enough for the solver to compare the literals.

  lemma {:induction false} FieldNamesDistinctFrom0()
    ensures forall i, j :: 0 <= i < 2 && i < j < |FieldNames| ==> FieldNames[i] != FieldNames[j]
  {
  }

  lemma {:induction false} FieldNamesDistinctFrom2()
    ensures forall i, j :: 2 <= i < 5 && i < j < |FieldNames| ==> FieldNames[i] != FieldNames[j]
  {
  }

  lemma {:induction false} FieldNamesDistinctFrom5()
    ensures forall i, j :: 5 <= i < 10 && i < j < |FieldNames| ==> FieldNames[i] != FieldNames[j]
  {
  }

  lemma {:induction false} FieldNamesDistinctFrom10()
    ensures forall i, j :: 10 <= i < 18 && i < j < |FieldNames| ==> FieldNames[i] != FieldNames[j]
  {
  }

  lemma {:induction false} FieldNamesDistinctFrom18()
    ensures forall i, j :: 18 <= i < 30 && i < j < |FieldNames| ==> FieldNames[i] != FieldNames[j]
  {
  }

  lemma {:induction false} FieldNamesDistinctFrom30()
    ensures forall i, j :: 30 <= i < j < |FieldNames| ==> FieldNames[i] != FieldNames[j]
  {
  }

  /** `a` is the mean of `s` rounded to two decimals, and there is none (NaN) when `s` is empty. */
  ghost predicate IsRoundedMean(s: seq<real>, a: Option<real>)
  {
    if s == [] then a == None else a.Some? && IsRoundingTo(Sum(s) / |s| as real, 2, a.value)
  }

  /** `round(column.mean(), 2)`, NaN for an empty column. */
  function RoundedMean(s: seq<real>): (a: Option<real>)
    ensures IsRoundedMean(s, a)
  {
    match Mean(s)
    case None => None
    case Some(m) => Some(RoundTo(m, 2))
  }

  /** Every value rounded to n decimals. */
  function RoundList(s: seq<real>, n: nat): (r: seq<real>)
    ensures |r| == |s|
    ensures forall i :: 0 <= i < |s| ==> IsRoundingTo(s[i], n, r[i])
  {
    seq(|s|, i requires 0 <= i < |s| => RoundTo(s[i], n))
  }

  /** Every speed divided by 1000 and by 60, rounded to two decimals. */
  function KmhToMps(s: seq<real>): (r: seq<real>)
    ensures |r| == |s|
    ensures forall i :: 0 <= i < |s| ==> IsRoundingTo(s[i] / 1000.0 / 60.0, 2, r[i])
  {
    seq(|s|, i requires 0 <= i < |s| => RoundTo(s[i] / 1000.0 / 60.0, 2))
  }

  /** A duration in seconds as hours, rounded to two decimals. */
  function DaylightHours(duration: real): (hours: real)
    ensures IsRoundingTo(duration / 3600.0, 2, hours)
  {
    RoundTo(duration / 3600.0, 2)
  }

  /** The hours of a day that count as daylight: sunrise <= time < sunset. */
  function Daylight(rows: seq<HourlyRow>, day: DailyRow): (d: seq<HourlyRow>)
    ensures forall r :: r in d <==> r in rows && day.sunrise <= r.time < day.sunset
    ensures SubsequenceOf(d, rows)
  {
    Window(rows, day.sunrise, day.sunset)
  }

  /** One day's record from its hourly rows and its daily row. */
  function DayDataToRecord(rows: seq<HourlyRow>, day: DailyRow): (r: Result<ResultRow, Error>)
    ensures r.Err? <==> |rows| != HoursPerDay || !InRange(day.sunrise) || !InRange(day.sunset)
    ensures |rows| != HoursPerDay ==> r == Err(WrongRowCount(|rows|))
    ensures |rows| == HoursPerDay && !InRange(day.sunrise) ==> r == Err(TimestampOutOfRange(day.sunrise))
    ensures |rows| == HoursPerDay && InRange(day.sunrise) && !InRange(day.sunset) ==> r == Err(TimestampOutOfRange(day.sunset))
  {
    if |rows| != HoursPerDay then Err(WrongRowCount(|rows|))
    else
      var daylight := Daylight(rows, day);
      var sunriseIso := FormatUtc(day.sunrise);
      var sunsetIso := FormatUtc(day.sunset);
      if sunriseIso.None? then Err(TimestampOutOfRange(day.sunrise))
      else if sunsetIso.None? then Err(TimestampOutOfRange(day.sunset))
      else Ok(ResultRow(
        RoundedMean(Column(rows, Temperature2m)).value,
        RoundedMean(Column(rows, RelativeHumidity2m)).value,
        RoundedMean(Column(rows, DewPoint2m)).value,
        RoundedMean(Column(rows, ApparentTemperature)).value,
        RoundedMean(Column(rows, Temperature80m)).value,
        RoundedMean(Column(rows, Temperature120m)).value,
        RoundedMean(Column(rows, WindSpeed10m)).value,
        RoundedMean(Column(rows, WindSpeed80m)).value,
        RoundedMean(Column(rows, Visibility)).value,
        Sum(Column(rows, Rain)),
        Sum(Column(rows, Showers)),
        Sum(Column(rows, Snowfall)),
        RoundedMean(Column(daylight, Temperature2m)),
        RoundedMean(Column(daylight, RelativeHumidity2m)),
        RoundedMean(Column(daylight, DewPoint2m)),
        RoundedMean(Column(daylight, ApparentTemperature)),
        RoundedMean(Column(daylight, Temperature80m)),
        RoundedMean(Column(daylight, Temperature120m)),
        RoundedMean(Column(daylight, WindSpeed10m)),
        RoundedMean(Column(daylight, WindSpeed80m)),
        RoundedMean(Column(daylight, Visibility)),
        Sum(Column(daylight, Rain)),
        Sum(Column(daylight, Showers)),
        Sum(Column(daylight, Snowfall)),
        KmhToMps(Column(rows, WindSpeed10m)),
        KmhToMps(Column(rows, WindSpeed10m)),
        RoundList(Column(rows, Temperature2m), 2),
        RoundList(Column(rows, ApparentTemperature), 2),
        RoundList(Column(rows, Temperature80m), 2),
        RoundList(Column(rows, Temperature120m), 2),
        RoundList(Column(rows, SoilTemperature0cm), 2),
        RoundList(Column(rows, SoilTemperature6cm), 2),
        RoundList(Column(rows, Rain), 2),
        RoundList(Column(rows, Showers), 2),
        RoundList(Column(rows, Snowfall), 2),
        DaylightHours(day.daylightDuration),
        sunsetIso.value,
        sunriseIso.value))
  }

  /** The 24-hour averages are the rounded means of the day's 24 values. */
  lemma {:induction false} RecordAverages24h(rows: seq<HourlyRow>, day: DailyRow)
    requires DayDataToRecord(rows, day).Ok?
    ensures var rec := DayDataToRecord(rows, day).value;
      && IsRoundedMean(Column(rows, Temperature2m), Some(rec.avgTemperature2m24h))
      && IsRoundedMean(Column(rows, RelativeHumidity2m), Some(rec.avgRelativeHumidity2m24h))
      && IsRoundedMean(Column(rows, DewPoint2m), Some(rec.avgDewPoint2m24h))
      && IsRoundedMean(Column(rows, ApparentTemperature), Some(rec.avgApparentTemperature24h))
      && IsRoundedMean(Column(rows, Temperature80m), Some(rec.avgTemperature80m24h))
      && IsRoundedMean(Column(rows, Temperature120m), Some(rec.avgTemperature120m24h))
      && IsRoundedMean(Column(rows, WindSpeed10m), Some(rec.avgWindSpeed10m24h))
      && IsRoundedMean(Column(rows, WindSpeed80m), Some(rec.avgWindSpeed80m24h))
      && IsRoundedMean(Column(rows, Visibility), Some(rec.avgVisibility24h))
  {
  }

  /** The daylight averages are the rounded means over the daylight hours, absent (NaN) when there are none. */
  lemma {:induction false} RecordAveragesDaylight(rows: seq<HourlyRow>, day: DailyRow)
    requires DayDataToRecord(rows, day).Ok?
    ensures var rec, d := DayDataToRecord(rows, day).value, Daylight(rows, day);
      && IsRoundedMean(Column(d, Temperature2m), rec.avgTemperature2mDaylight)
      && IsRoundedMean(Column(d, RelativeHumidity2m), rec.avgRelativeHumidity2mDaylight)
      && IsRoundedMean(Column(d, DewPoint2m), rec.avgDewPoint2mDaylight)
      && IsRoundedMean(Column(d, ApparentTemperature), rec.avgApparentTemperatureDaylight)
      && IsRoundedMean(Column(d, Temperature80m), rec.avgTemperature80mDaylight)
      && IsRoundedMean(Column(d, Temperature120m), rec.avgTemperature120mDaylight)
      && IsRoundedMean(Column(d, WindSpeed10m), rec.avgWindSpeed10mDaylight)
      && IsRoundedMean(Column(d, WindSpeed80m), rec.avgWindSpeed80mDaylight)
      && IsRoundedMean(Column(d, Visibility), rec.avgVisibilityDaylight)
    ensures Daylight(rows, day) == [] <==> DayDataToRecord(rows, day).value.avgTemperature2mDaylight == None
  {
  }

  /** The totals are unrounded sums over the day and over its daylight hours, 0 when there are no daylight hours. */
  lemma {:induction false} RecordTotals(rows: seq<HourlyRow>, day: DailyRow)
    requires DayDataToRecord(rows, day).Ok?
    ensures var rec, d := DayDataToRecord(rows, day).value, Daylight(rows, day);
      && rec.totalRain24h == Sum(Column(rows, Rain))
      && rec.totalShowers24h == Sum(Column(rows, Showers))
      && rec.totalSnowfall24h == Sum(Column(rows, Snowfall))
      && rec.totalRainDaylight == Sum(Column(d, Rain))
      && rec.totalShowersDaylight == Sum(Column(d, Showers))
      && rec.totalSnowfallDaylight == Sum(Column(d, Snowfall))
      && (d == [] ==> rec.totalRainDaylight == 0.0 && rec.totalShowersDaylight == 0.0 && rec.totalSnowfallDaylight == 0.0)
  {
    TotalFields(rows, day);
    var rec, d := DayDataToRecord(rows, day).value, Daylight(rows, day);
    TotalOf(rows, d, day, Rain, rec.totalRain24h, rec.totalRainDaylight);
    TotalOf(rows, d, day, Showers, rec.totalShowers24h, rec.totalShowersDaylight);
    TotalOf(rows, d, day, Snowfall, rec.totalSnowfall24h, rec.totalSnowfallDaylight);
  }

  /** For precipitation that is never negative, the daylight total lies between 0 and the day's total. */
  lemma {:induction false} RecordTotalsBounded(rows: seq<HourlyRow>, day: DailyRow, p: HourlyParam)
    requires DayDataToRecord(rows, day).Ok?
    requires p in {Rain, Showers, Snowfall}
    requires forall i :: 0 <= i < |rows| ==> rows[i].Get(p) >= 0.0
    ensures var rec := DayDataToRecord(rows, day).value;
      && (p == Rain ==> 0.0 <= rec.totalRainDaylight <= rec.totalRain24h)
      && (p == Showers ==> 0.0 <= rec.totalShowersDaylight <= rec.totalShowers24h)
      && (p == Snowfall ==> 0.0 <= rec.totalSnowfallDaylight <= rec.totalSnowfall24h)
  {
    TotalFields(rows, day);
    WindowSumAtMost(rows, day.sunrise, day.sunset, p);
  }

  lemma {:induction false} TotalOf(rows: seq<HourlyRow>, d: seq<HourlyRow>, day: DailyRow, p: HourlyParam, dayTotal: real, daylightTotal: real)
    requires d == Window(rows, day.sunrise, day.sunset)
    requires dayTotal == Sum(Column(rows, p)) && daylightTotal == Sum(Column(d, p))
    ensures d == [] ==> daylightTotal == 0.0
    ensures (forall i :: 0 <= i < |rows| ==> rows[i].Get(p) >= 0.0) ==> 0.0 <= daylightTotal <= dayTotal
  {
    if d == [] {
      assert Column(d, p) == [];
    }
    if forall i :: 0 <= i < |rows| ==> rows[i].Get(p) >= 0.0 {
      WindowSumAtMost(rows, day.sunrise, day.sunset, p);
    }
  }

  lemma {:induction false} TotalFields(rows: seq<HourlyRow>, day: DailyRow)
    requires DayDataToRecord(rows, day).Ok?
    ensures var rec, d := DayDataToRecord(rows, day).value, Daylight(rows, day);
      && rec.totalRain24h == Sum(Column(rows, Rain))
      && rec.totalShowers24h == Sum(Column(rows, Showers))
      && rec.totalSnowfall24h == Sum(Column(rows, Snowfall))
      && rec.totalRainDaylight == Sum(Column(d, Rain))
      && rec.totalShowersDaylight == Sum(Column(d, Showers))
      && rec.totalSnowfallDaylight == Sum(Column(d, Snowfall))
  {
  }

  /** The per-hour temperature series: 24 entries, entry i the hour-i value rounded to two decimals. */
  lemma {:induction false} RecordTemperatureSeries(rows: seq<HourlyRow>, day: DailyRow)
    requires DayDataToRecord(rows, day).Ok?
    ensures var rec := DayDataToRecord(rows, day).value;
      && |rec.temperature2mCelsius| == |rec.apparentTemperatureCelsius| == |rec.temperature80mCelsius| == HoursPerDay
      && |rec.temperature120mCelsius| == |rec.soilTemperature0cmCelsius| == |rec.soilTemperature6cmCelsius| == HoursPerDay
      && forall i :: 0 <= i < HoursPerDay ==>
        && IsRoundingTo(rows[i].temperature2m, 2, rec.temperature2mCelsius[i])
        && IsRoundingTo(rows[i].apparentTemperature, 2, rec.apparentTemperatureCelsius[i])
        && IsRoundingTo(rows[i].temperature80m, 2, rec.temperature80mCelsius[i])
        && IsRoundingTo(rows[i].temperature120m, 2, rec.temperature120mCelsius[i])
        && IsRoundingTo(rows[i].soilTemperature0cm, 2, rec.soilTemperature0cmCelsius[i])
        && IsRoundingTo(rows[i].soilTemperature6cm, 2, rec.soilTemperature6cmCelsius[i])
  {
    TemperatureFields(rows, day);
    TemperatureSeriesOf(rows, DayDataToRecord(rows, day).value);
  }

  lemma {:induction false} TemperatureFields(rows: seq<HourlyRow>, day: DailyRow)
    requires DayDataToRecord(rows, day).Ok?
    ensures |rows| == HoursPerDay
    ensures var rec := DayDataToRecord(rows, day).value;
      && rec.temperature2mCelsius == RoundList(Column(rows, Temperature2m), 2)
      && rec.apparentTemperatureCelsius == RoundList(Column(rows, ApparentTemperature), 2)
      && rec.temperature80mCelsius == RoundList(Column(rows, Temperature80m), 2)
      && rec.temperature120mCelsius == RoundList(Column(rows, Temperature120m), 2)
      && rec.soilTemperature0cmCelsius == RoundList(Column(rows, SoilTemperature0cm), 2)
      && rec.soilTemperature6cmCelsius == RoundList(Column(rows, SoilTemperature6cm), 2)
  {
  }

  lemma {:induction false} TemperatureSeriesOf(rows: seq<HourlyRow>, rec: ResultRow)
    requires |rows| == HoursPerDay
    requires rec.temperature2mCelsius == RoundList(Column(rows, Temperature2m), 2)
    requires rec.apparentTemperatureCelsius == RoundList(Column(rows, ApparentTemperature), 2)
    requires rec.temperature80mCelsius == RoundList(Column(rows, Temperature80m), 2)
    requires rec.temperature120mCelsius == RoundList(Column(rows, Temperature120m), 2)
    requires rec.soilTemperature0cmCelsius == RoundList(Column(rows, SoilTemperature0cm), 2)
    requires rec.soilTemperature6cmCelsius == RoundList(Column(rows, SoilTemperature6cm), 2)
    ensures |rec.temperature2mCelsius| == |rec.apparentTemperatureCelsius| == |rec.temperature80mCelsius| == HoursPerDay
    ensures |rec.temperature120mCelsius| == |rec.soilTemperature0cmCelsius| == |rec.soilTemperature6cmCelsius| == HoursPerDay
    ensures forall i :: 0 <= i < HoursPerDay ==>
        && IsRoundingTo(rows[i].temperature2m, 2, rec.temperature2mCelsius[i])
        && IsRoundingTo(rows[i].apparentTemperature, 2, rec.apparentTemperatureCelsius[i])
        && IsRoundingTo(rows[i].temperature80m, 2, rec.temperature80mCelsius[i])
        && IsRoundingTo(rows[i].temperature120m, 2, rec.temperature120mCelsius[i])
        && IsRoundingTo(rows[i].soilTemperature0cm, 2, rec.soilTemperature0cmCelsius[i])
        && IsRoundingTo(rows[i].soilTemperature6cm, 2, rec.soilTemperature6cmCelsius[i])
  {
  }

  /** The per-hour precipitation series: 24 entries, entry i the hour-i amount rounded to two decimals. */
  lemma {:induction false} RecordPrecipitationSeries(rows: seq<HourlyRow>, day: DailyRow)
    requires DayDataToRecord(rows, day).Ok?
    ensures var rec := DayDataToRecord(rows, day).value;
      && |rec.rainMm| == |rec.showersMm| == |rec.snowfallMm| == HoursPerDay
      && forall i :: 0 <= i < HoursPerDay ==>
        && IsRoundingTo(rows[i].rain, 2, rec.rainMm[i])
        && IsRoundingTo(rows[i].showers, 2, rec.showersMm[i])
        && IsRoundingTo(rows[i].snowfall, 2, rec.snowfallMm[i])
  {
    PrecipitationFields(rows, day);
    PrecipitationSeriesOf(rows, DayDataToRecord(rows, day).value);
  }

  lemma {:induction false} PrecipitationFields(rows: seq<HourlyRow>, day: DailyRow)
    requires DayDataToRecord(rows, day).Ok?
    ensures |rows| == HoursPerDay
    ensures var rec := DayDataToRecord(rows, day).value;
      && rec.rainMm == RoundList(Column(rows, Rain), 2)
      && rec.showersMm == RoundList(Column(rows, Showers), 2)
      && rec.snowfallMm == RoundList(Column(rows, Snowfall), 2)
  {
  }

  lemma {:induction false} PrecipitationSeriesOf(rows: seq<HourlyRow>, rec: ResultRow)
    requires |rows| == HoursPerDay
    requires rec.rainMm == RoundList(Column(rows, Rain), 2)
    requires rec.showersMm == RoundList(Column(rows, Showers), 2)
    requires rec.snowfallMm == RoundList(Column(rows, Snowfall), 2)
    ensures |rec.rainMm| == |rec.showersMm| == |rec.snowfallMm| == HoursPerDay
    ensures forall i :: 0 <= i < HoursPerDay ==>
        && IsRoundingTo(rows[i].rain, 2, rec.rainMm[i])
        && IsRoundingTo(rows[i].showers, 2, rec.showersMm[i])
        && IsRoundingTo(rows[i].snowfall, 2, rec.snowfallMm[i])
  {
  }

  /**
   * The per-hour wind series: entry i is the hour-i 10 m speed divided by 1000 and by 60,
   * rounded to two decimals; the 80 m series is read from the 10 m column too, so the two are equal.
   */
  lemma {:induction false} RecordWindSeries(rows: seq<HourlyRow>, day: DailyRow)
    requires DayDataToRecord(rows, day).Ok?
    ensures var rec := DayDataToRecord(rows, day).value;
      && |rec.windSpeed10mMPerS| == HoursPerDay
      && rec.windSpeed80mMPerS == rec.windSpeed10mMPerS
      && forall i :: 0 <= i < HoursPerDay ==> IsRoundingTo(rows[i].windSpeed10m / 1000.0 / 60.0, 2, rec.windSpeed80mMPerS[i])
  {
    WindFields(rows, day);
    WindSeriesOf(rows, DayDataToRecord(rows, day).value);
  }

  lemma {:induction false} WindSeriesOf(rows: seq<HourlyRow>, rec: ResultRow)
    requires |rows| == HoursPerDay
    requires rec.windSpeed10mMPerS == KmhToMps(Column(rows, WindSpeed10m))
    requires rec.windSpeed80mMPerS == KmhToMps(Column(rows, WindSpeed10m))
    ensures |rec.windSpeed10mMPerS| == HoursPerDay
    ensures rec.windSpeed80mMPerS == rec.windSpeed10mMPerS
    ensures forall i :: 0 <= i < HoursPerDay ==> IsRoundingTo(rows[i].windSpeed10m / 1000.0 / 60.0, 2, rec.windSpeed80mMPerS[i])
  {
  }

  lemma {:induction false} WindFields(rows: seq<HourlyRow>, day: DailyRow)
    requires DayDataToRecord(rows, day).Ok?
    ensures |rows| == HoursPerDay
    ensures var rec := DayDataToRecord(rows, day).value;
      && rec.windSpeed10mMPerS == KmhToMps(Column(rows, WindSpeed10m))
      && rec.windSpeed80mMPerS == KmhToMps(Column(rows, WindSpeed10m))
  {
  }

  /**
   * Daylight hours are the reported daylight duration in hours, rounded to two
   * decimals: a function of the duration alone, whatever the sunrise and sunset times are.
   */
  lemma {:induction false} RecordDaylightHours(rows: seq<HourlyRow>, day: DailyRow)
    requires DayDataToRecord(rows, day).Ok?
    ensures DayDataToRecord(rows, day).value.daylightHours == DaylightHours(day.daylightDuration)
  {
  }

  /** A day whose sunset is two hours after sunrise but whose reported duration is one hour gets one daylight hour, not two. */
  lemma {:induction false} DaylightHoursNotSunsetMinusSunrise(rows: seq<HourlyRow>)
    requires |rows| == HoursPerDay
    ensures var day := DailyRow(0, 0, 7200, 3600.0);
      && (day.sunset - day.sunrise) as real / 3600.0 == 2.0
      && DayDataToRecord(rows, day).Ok?
      && DayDataToRecord(rows, day).value.daylightHours == 1.0
  {
    var day := DailyRow(0, 0, 7200, 3600.0);
    assert DayDataToRecord(rows, day).Ok?;
    RecordDaylightHours(rows, day);
    assert DaylightHours(3600.0) == 1.0 by {
      RoundToUnique(3600.0 / 3600.0, 2, 1.0);
    }
  }

  /** The sun times are rendered as UTC date-times that parse back to the same POSIX seconds. */
  lemma {:induction false} RecordSunTimes(rows: seq<HourlyRow>, day: DailyRow)
    requires DayDataToRecord(rows, day).Ok?
    ensures var rec := DayDataToRecord(rows, day).value;
      && rec.sunriseIso == RenderDateTime(ToDateTime(day.sunrise))
      && rec.sunsetIso == RenderDateTime(ToDateTime(day.sunset))
      && ParseUtc(rec.sunriseIso) == Some(day.sunrise)
      && ParseUtc(rec.sunsetIso) == Some(day.sunset)
  {
    ParseFormatUtc(day.sunrise);
    ParseFormatUtc(day.sunset);
  }

  /** The hourly rows of one day: those in [midnight, midnight + one day), in order. */
  function DaySlice(hourly: seq<HourlyRow>, day: DailyRow): (rows: seq<HourlyRow>)
    ensures forall r :: r in rows <==> r in hourly && day.date <= r.time < day.date + SecondsPerDay
    ensures SubsequenceOf(rows, hourly)
  {
    Window(hourly, day.date, day.date + SecondsPerDay)
  }

  /** The record the aggregation makes for one daily row. */
  function DayRecord(hourly: seq<HourlyRow>, day: DailyRow): Result<ResultRow, Error>
  {
    DayDataToRecord(DaySlice(hourly, day), day)
  }

  /** Each day's outcome, in daily order. */
  function DayResults(hourly: seq<HourlyRow>, daily: seq<DailyRow>): (results: seq<Result<ResultRow, Error>>)
    ensures |results| == |daily|
    ensures forall n {:trigger results[n]} :: 0 <= n < |daily| ==> results[n] == DayRecord(hourly, daily[n])
  {
    seq(|daily|, n requires 0 <= n < |daily| => DayRecord(hourly, daily[n]))
  }

  /** All the values, in order, when every outcome succeeds; otherwise the first error. */
  function Collect<T, E>(results: seq<Result<T, E>>): (r: Result<seq<T>, E>)
    ensures r.Ok? ==> |r.value| == |results|
  {
    if results == [] then Ok([])
    else
      match Collect(results[..|results| - 1])
      case Err(e) => Err(e)
      case Ok(values) =>
        match results[|results| - 1]
        case Err(e) => Err(e)
        case Ok(v) => Ok(values + [v])
  }

  /**
   * Collecting succeeds exactly when every outcome does, keeping each value at its
   * position; otherwise it fails with the error of the first outcome that fails.
   */
  lemma {:induction false} CollectOk<T, E>(results: seq<Result<T, E>>)
    ensures Collect(results).Ok? <==> forall n :: 0 <= n < |results| ==> results[n].Ok?
    ensures Collect(results).Ok? ==> forall n :: 0 <= n < |results| ==> Collect(results).value[n] == results[n].value
    ensures Collect(results).Err? ==>
      exists n :: && 0 <= n < |results|
                  && results[n] == Err(Collect(results).error)
                  && forall m :: 0 <= m < n ==> results[m].Ok?
  {
    if results != [] {
      var init := results[..|results| - 1];
      CollectOk(init);
      assert forall n :: 0 <= n < |init| ==> init[n] == results[n];
    }
  }

  /** Once a prefix of the outcomes fails, the whole sequence fails with the same error. */
  lemma {:induction false} CollectPrefixError<T, E>(results: seq<Result<T, E>>, n: nat)
    requires n <= |results| && Collect(results[..n]).Err?
    ensures Collect(results) == Collect(results[..n])
    decreases |results| - n
  {
    if n < |results| {
      assert results[..n + 1][..n] == results[..n];
      CollectPrefixError(results, n + 1);
    } else {
      assert results[..n] == results;
    }
  }

  /** A prefix one longer is the prefix with the next element. */
  lemma TakeOneMore<T>(s: seq<T>, n: nat)
    requires n < |s|
    ensures s[..n + 1] == s[..n] + [s[n]]
  {
  }

  lemma TakeAll<T>(s: seq<T>)
    ensures s[..|s|] == s
  {
  }

  /** Collecting one more outcome. */
  lemma CollectSnoc<T, E>(results: seq<Result<T, E>>, x: Result<T, E>)
    ensures Collect(results + [x]) ==
      match Collect(results)
      case Err(e) => Err(e)
      case Ok(values) => (match x case Err(e) => Err(e) case Ok(v) => Ok(values + [v]))
  {
    assert (results + [x])[..|results|] == results;
  }

  /** The result table: column names in insertion order and each column's cells. */
  datatype Table = Table(columns: seq<string>, data: map<string, seq<Cell>>)

  /** The cells a column holds so far, none if the column does not exist yet. */
  function Earlier(data: map<string, seq<Cell>>, c: string): seq<Cell>
  {
    if c in data then data[c] else []
  }

  /** One field's append: the column is created, at the end of the column order, the first time its name is seen. */
  function AddCell(t: Table, key: string, cell: Cell): (u: Table)
  {
    Table(if key in t.data then t.columns else t.columns + [key], t.data[key := Earlier(t.data, key) + [cell]])
  }

  /** The appends of one record's cells, name by name in order. */
  function AddCells(t: Table, names: seq<string>, cells: seq<Cell>): (u: Table)
    requires |names| == |cells|
  {
    if names == [] then t
    else AddCell(AddCells(t, names[..|names| - 1], cells[..|names| - 1]), names[|names| - 1], cells[|names| - 1])
  }

  /** After the appends, the columns are the earlier ones and the appended names. */
  lemma {:induction false} AddCellsKeys(t: Table, names: seq<string>, cells: seq<Cell>)
    requires |names| == |cells|
    ensures forall c :: c in AddCells(t, names, cells).data <==> c in t.data || c in names
  {
    if names != [] {
      AddCellsKeys(t, names[..|names| - 1], cells[..|names| - 1]);
      assert names == names[..|names| - 1] + [names[|names| - 1]];
    }
  }

  /** With distinct names, each named column gains exactly its own cell and every other column is untouched. */
  lemma {:induction false} AddCellsValues(t: Table, names: seq<string>, cells: seq<Cell>)
    requires |names| == |cells|
    requires forall i, j :: 0 <= i < j < |names| ==> names[i] != names[j]
    ensures forall k :: 0 <= k < |names| ==> Earlier(AddCells(t, names, cells).data, names[k]) == Earlier(t.data, names[k]) + [cells[k]]
    ensures forall c :: c !in names ==> Earlier(AddCells(t, names, cells).data, c) == Earlier(t.data, c)
  {
    if names != [] {
      var m := |names| - 1;
      AddCellsValues(t, names[..m], cells[..m]);
      assert names == names[..m] + [names[m]];
    }
  }

  /** When every name already has a column, the column order is unchanged. */
  lemma {:induction false} AddCellsColumnsKept(t: Table, names: seq<string>, cells: seq<Cell>)
    requires |names| == |cells|
    requires forall k :: 0 <= k < |names| ==> names[k] in t.data
    ensures AddCells(t, names, cells).columns == t.columns
  {
    if names != [] {
      var m := |names| - 1;
      AddCellsKeys(t, names[..m], cells[..m]);
      AddCellsColumnsKept(t, names[..m], cells[..m]);
    }
  }

  /** When no name has a column yet and the names are distinct, the names are added at the end in order. */
  lemma {:induction false} AddCellsColumnsAdded(t: Table, names: seq<string>, cells: seq<Cell>)
    requires |names| == |cells|
    requires forall i, j :: 0 <= i < j < |names| ==> names[i] != names[j]
    requires forall k :: 0 <= k < |names| ==> names[k] !in t.data
    ensures AddCells(t, names, cells).columns == t.columns + names
  {
    if names != [] {
      var m := |names| - 1;
      AddCellsKeys(t, names[..m], cells[..m]);
      AddCellsColumnsAdded(t, names[..m], cells[..m]);
      assert names[m] !in names[..m];
      assert t.columns + names == t.columns + names[..m] + [names[m]];
    }
  }

  /** The inner loop of the aggregation: a record's cells appended field by field. */
  method AppendCells(table: Table, names: seq<string>, cells: seq<Cell>) returns (result: Table)
    requires |names| == |cells|
    ensures result == AddCells(table, names, cells)
  {
    result := table;
    var k := 0;
    while k < |names|
      invariant 0 <= k <= |names|
      invariant result == AddCells(table, names[..k], cells[..k])
    {
      var key := names[k];
      assert names[..k + 1][..k] == names[..k] && cells[..k + 1][..k] == cells[..k];
      var columns := result.columns;
      if key !in result.data {
        columns := columns + [key];
      }
      result := Table(columns, result.data[key := Earlier(result.data, key) + [cells[k]]]);
      k := k + 1;
    }
    assert names[..k] == names && cells[..k] == cells;
  }

  /** The table with no day yet: an empty `date` column. */
  const EmptyTable := Table(["date"], map["date" := []])

  /** One day's row: its date, then the record's cells under the given names. */
  function AddRow(t: Table, names: seq<string>, date: string, cells: seq<Cell>): Table
    requires |cells| == |names|
  {
    AddCells(Table(t.columns, t.data["date" := Earlier(t.data, "date") + [Text(date)]]), names, cells)
  }

  /** The table made of the given rows, one after the other. */
  function Pivot(names: seq<string>, dates: seq<string>, rows: seq<seq<Cell>>): Table
    requires |dates| == |rows|
    requires forall n :: 0 <= n < |rows| ==> |rows[n]| == |names|
  {
    if rows == [] then EmptyTable
    else
      var m := |rows| - 1;
      AddRow(Pivot(names, dates[..m], rows[..m]), names, dates[m], rows[m])
  }

  /**
   * The shape of the table: a `date` column followed, once there is a row, by one
   * column per name in order; every column has one cell per row; row n holds date n
   * and the cells of row n under their names.
   */
  lemma PivotShape(names: seq<string>, dates: seq<string>, rows: seq<seq<Cell>>)
    requires |dates| == |rows|
    requires forall n :: 0 <= n < |rows| ==> |rows[n]| == |names|
    requires forall i, j :: 0 <= i < j < |names| ==> names[i] != names[j]
    requires "date" !in names
    ensures Pivot(names, dates, rows).columns == if rows == [] then ["date"] else ["date"] + names
    ensures forall c :: c in Pivot(names, dates, rows).data <==> c in Pivot(names, dates, rows).columns
    ensures forall c :: c in Pivot(names, dates, rows).data ==> |Pivot(names, dates, rows).data[c]| == |rows|
    ensures "date" in Pivot(names, dates, rows).data
    ensures forall n :: 0 <= n < |rows| ==> Pivot(names, dates, rows).data["date"][n] == Text(dates[n])
    ensures forall n, k :: 0 <= n < |rows| && 0 <= k < |names| ==> Pivot(names, dates, rows).data[names[k]][n] == rows[n][k]
  {
    PivotColumns(names, dates, rows);
    PivotCells(names, dates, rows);
    if rows != [] {
      assert forall c :: c in Pivot(names, dates, rows).data ==> c == "date" || c in names;
    }
  }

  lemma {:induction false} PivotColumns(names: seq<string>, dates: seq<string>, rows: seq<seq<Cell>>)
    requires |dates| == |rows|
    requires forall n :: 0 <= n < |rows| ==> |rows[n]| == |names|
    requires forall i, j :: 0 <= i < j < |names| ==> names[i] != names[j]
    requires "date" !in names
    ensures Pivot(names, dates, rows).columns == if rows == [] then ["date"] else ["date"] + names
    ensures forall c :: c in Pivot(names, dates, rows).data <==> c in Pivot(names, dates, rows).columns
  {
    if rows != [] {
      var m := |rows| - 1;
      PivotColumns(names, dates[..m], rows[..m]);
      var t := Pivot(names, dates[..m], rows[..m]);
      var dated := Table(t.columns, t.data["date" := Earlier(t.data, "date") + [Text(dates[m])]]);
      AddCellsKeys(dated, names, rows[m]);
      if m == 0 {
        AddCellsColumnsAdded(dated, names, rows[m]);
      } else {
        AddCellsColumnsKept(dated, names, rows[m]);
      }
    }
  }

  lemma {:induction false} PivotCells(names: seq<string>, dates: seq<string>, rows: seq<seq<Cell>>)
    requires |dates| == |rows|
    requires forall n :: 0 <= n < |rows| ==> |rows[n]| == |names|
    requires forall i, j :: 0 <= i < j < |names| ==> names[i] != names[j]
    requires "date" !in names
    ensures |Earlier(Pivot(names, dates, rows).data, "date")| == |rows|
    ensures forall k :: 0 <= k < |names| ==> |Earlier(Pivot(names, dates, rows).data, names[k])| == |rows|
    ensures forall n :: 0 <= n < |rows| ==> Earlier(Pivot(names, dates, rows).data, "date")[n] == Text(dates[n])
    ensures forall n, k :: 0 <= n < |rows| && 0 <= k < |names| ==> Earlier(Pivot(names, dates, rows).data, names[k])[n] == rows[n][k]
  {
    if rows != [] {
      var m := |rows| - 1;
      PivotCells(names, dates[..m], rows[..m]);
      var t := Pivot(names, dates[..m], rows[..m]);
      AddRowAppends(t, names, dates[m], rows[m]);
    }
  }

  /** A row appends its date to the date column and each cell to its name's column. */
  lemma AddRowAppends(t: Table, names: seq<string>, date: string, cells: seq<Cell>)
    requires |cells| == |names|
    requires forall i, j :: 0 <= i < j < |names| ==> names[i] != names[j]
    requires "date" !in names
    ensures Earlier(AddRow(t, names, date, cells).data, "date") == Earlier(t.data, "date") + [Text(date)]
    ensures forall k :: 0 <= k < |names| ==> Earlier(AddRow(t, names, date, cells).data, names[k]) == Earlier(t.data, names[k]) + [cells[k]]
  {
    var dated := Table(t.columns, t.data["date" := Earlier(t.data, "date") + [Text(date)]]);
    AddCellsValues(dated, names, cells);
    forall k | 0 <= k < |names|
      ensures Earlier(dated.data, names[k]) == Earlier(t.data, names[k])
    {
      assert names[k] != "date";
    }
  }

  /** A day's date as `YYYY-MM-DD`: the UTC calendar date of the day's start instant. */
  function DateText(day: DailyRow): string
    requires InRange(day.date)
  {
    FormatUtcDate(day.date).value
  }

  /** The dates of the days, in order. */
  function Dates(daily: seq<DailyRow>): (dates: seq<string>)
    requires forall n :: 0 <= n < |daily| ==> InRange(daily[n].date)
    ensures |dates| == |daily|
    ensures forall n {:trigger dates[n]} :: 0 <= n < |daily| ==> dates[n] == DateText(daily[n])
  {
    seq(|daily|, n requires 0 <= n < |daily| => DateText(daily[n]))
  }

  /** The records' cells, in order. */
  function RecordCells(records: seq<ResultRow>): (rows: seq<seq<Cell>>)
    ensures |rows| == |records|
    ensures forall n :: 0 <= n < |records| ==> rows[n] == Cells(records[n]) && |rows[n]| == FieldCount
  {
    seq(|records|, n requires 0 <= n < |records| => Cells(records[n]))
  }

  lemma RecordCellsSnoc(records: seq<ResultRow>, record: ResultRow)
    ensures RecordCells(records + [record]) == RecordCells(records) + [Cells(record)]
  {
  }

  /** A table with one more row is the table of the earlier rows with that row added. */
  lemma PivotSnoc(names: seq<string>, dates: seq<string>, rows: seq<seq<Cell>>, date: string, cells: seq<Cell>)
    requires |dates| == |rows|
    requires forall n :: 0 <= n < |rows| ==> |rows[n]| == |names|
    requires |cells| == |names|
    ensures Pivot(names, dates + [date], rows + [cells]) == AddRow(Pivot(names, dates, rows), names, date, cells)
  {
    assert (dates + [date])[..|rows|] == dates;
    assert (rows + [cells])[..|rows|] == rows;
  }

  /** The table of a sequence of outcomes: the first error, or the table of all the records. */
  function TabulateResults(names: seq<string>, dates: seq<string>, results: seq<Result<ResultRow, Error>>): Result<Table, Error>
    requires |names| == FieldCount && |results| == |dates|
  {
    match Collect(results)
    case Err(e) => Err(e)
    case Ok(records) => Ok(Pivot(names, dates, RecordCells(records)))
  }

  /** The aggregation's outcome: the first failing day's error, or the table of every day's record. */
  function Tabulate(hourly: seq<HourlyRow>, daily: seq<DailyRow>): Result<Table, Error>
    requires forall n :: 0 <= n < |daily| ==> InRange(daily[n].date)
  {
    TabulateResults(FieldNames, Dates(daily), DayResults(hourly, daily))
  }

  /**
   * One day of the aggregation: the day's hourly slice becomes a record, whose date
   * and fields are appended to the table's columns; a failing record aborts the run.
   */
  method AddDay(table: Table, hourly: seq<HourlyRow>, day: DailyRow) returns (r: Result<Table, Error>)
    requires InRange(day.date)
    ensures r == match DayRecord(hourly, day)
                 case Err(e) => Err(e)
                 case Ok(record) => Ok(AddRow(table, FieldNames, DateText(day), Cells(record)))
  {
    var record := DayDataToRecord(DaySlice(hourly, day), day);
    if record.Err? {
      return Err(record.error);
    }
    var date := DateText(day);
    var dated := Table(table.columns, table.data["date" := Earlier(table.data, "date") + [Text(date)]]);
    var result := AppendCells(dated, FieldNames, Cells(record.value));
    return Ok(result);
  }

  /**
   * Walks the daily rows in order, adding each day's row to the table; the first
   * failing day aborts the whole run.
   */
  method TransformDataframes(daily: seq<DailyRow>, hourly: seq<HourlyRow>) returns (r: Result<Table, Error>)
    requires forall n :: 0 <= n < |daily| ==> InRange(daily[n].date)
    ensures r == Tabulate(hourly, daily)
  {
    ghost var results := DayResults(hourly, daily);
    ghost var dates := Dates(daily);
    var table := EmptyTable;
    ghost var records: seq<ResultRow> := [];
    var n := 0;
    while n < |daily|
      invariant 0 <= n <= |daily|
      invariant Collect(results[..n]) == Ok(records)
      invariant table == Pivot(FieldNames, dates[..n], RecordCells(records))
    {
      var next := AddDay(table, hourly, daily[n]);
      TabulateStep(FieldNames, dates, results, records, n);
      if next.Err? {
        return next;
      }
      table := next.value;
      records := records + [results[n].value];
      n := n + 1;
    }
    TakeAll(results);
    TakeAll(dates);
    return Ok(table);
  }

  /** One step of the run: outcome n either ends it with its error or adds its row. */
  lemma TabulateStep(names: seq<string>, dates: seq<string>, results: seq<Result<ResultRow, Error>>, records: seq<ResultRow>, n: nat)
    requires |names| == FieldCount && |results| == |dates| && n < |results|
    requires Collect(results[..n]) == Ok(records)
    ensures results[n].Err? ==> TabulateResults(names, dates, results) == Err(results[n].error)
    ensures results[n].Ok? ==> Collect(results[..n + 1]) == Ok(records + [results[n].value])
    ensures results[n].Ok? ==>
      Pivot(names, dates[..n + 1], RecordCells(records + [results[n].value]))
      == AddRow(Pivot(names, dates[..n], RecordCells(records)), names, dates[n], Cells(results[n].value))
  {
    TakeOneMore(results, n);
    CollectSnoc(results[..n], results[n]);
    if results[n].Err? {
      CollectPrefixError(results, n + 1);
      TakeAll(results);
    } else {
      TakeOneMore(dates, n);
      RecordCellsSnoc(records, results[n].value);
      PivotSnoc(names, dates[..n], RecordCells(records), dates[n], Cells(results[n].value));
    }
  }

  /**
   * The run succeeds exactly when every outcome does; a failing run reports the
   * error of the first outcome that fails. Outcome n is `DayRecord` of day n.
   */
  lemma TabulateOutcome(names: seq<string>, dates: seq<string>, results: seq<Result<ResultRow, Error>>)
    requires |names| == FieldCount && |results| == |dates|
    ensures TabulateResults(names, dates, results).Ok? <==> forall n :: 0 <= n < |results| ==> results[n].Ok?
    ensures TabulateResults(names, dates, results).Err? ==>
      exists n :: && 0 <= n < |results|
                  && results[n] == Err(TabulateResults(names, dates, results).error)
                  && forall m :: 0 <= m < n ==> results[m].Ok?
  {
    CollectOk(results);
  }

  /**
   * A successful run's table is the table of the outcomes' records, row n holding
   * the cells of outcome n (its shape is given by `PivotShape`).
   */
  lemma TabulateRows(names: seq<string>, dates: seq<string>, results: seq<Result<ResultRow, Error>>) returns (rows: seq<seq<Cell>>)
    requires |names| == FieldCount && |results| == |dates|
    requires TabulateResults(names, dates, results).Ok?
    ensures forall n :: 0 <= n < |results| ==> results[n].Ok?
    ensures |rows| == |dates| && forall n :: 0 <= n < |rows| ==> |rows[n]| == |names|
    ensures forall n :: 0 <= n < |rows| ==> rows[n] == Cells(results[n].value)
    ensures TabulateResults(names, dates, results).value == Pivot(names, dates, rows)
  {
    CollectOk(results);
    rows := RecordCells(Collect(results).value);
  }
  /**
   * The shape of a successful run's table: `date` and then, once there is a day, the 38
   * fields in declaration order; one cell per day in every column; and every day's record built.
   */
  lemma TabulateShape(hourly: seq<HourlyRow>, daily: seq<DailyRow>)
    requires forall n :: 0 <= n < |daily| ==> InRange(daily[n].date)
    requires Tabulate(hourly, daily).Ok?
    ensures forall n :: 0 <= n < |daily| ==> DayRecord(hourly, daily[n]).Ok?
    ensures Tabulate(hourly, daily).value.columns == if daily == [] then ["date"] else ["date"] + FieldNames
    ensures forall c :: c in Tabulate(hourly, daily).value.data <==> c in Tabulate(hourly, daily).value.columns
    ensures forall c :: c in Tabulate(hourly, daily).value.data ==> |Tabulate(hourly, daily).value.data[c]| == |daily|
  {
    var results := DayResults(hourly, daily);
    FieldNamesDistinct();
    TabulateResultsShape(FieldNames, Dates(daily), results);
    assert daily == [] <==> results == [];
    forall n | 0 <= n < |daily|
      ensures DayRecord(hourly, daily[n]).Ok?
    {
      assert results[n] == DayRecord(hourly, daily[n]);
    }
  }

  lemma TabulateResultsShape(names: seq<string>, dates: seq<string>, results: seq<Result<ResultRow, Error>>)
    requires |names| == FieldCount && |results| == |dates|
    requires forall i, j :: 0 <= i < j < |names| ==> names[i] != names[j]
    requires "date" !in names
    requires TabulateResults(names, dates, results).Ok?
    ensures forall n :: 0 <= n < |results| ==> results[n].Ok?
    ensures TabulateResults(names, dates, results).value.columns == if results == [] then ["date"] else ["date"] + names
    ensures forall c :: c in TabulateResults(names, dates, results).value.data <==> c in TabulateResults(names, dates, results).value.columns
    ensures forall c :: c in TabulateResults(names, dates, results).value.data ==> |TabulateResults(names, dates, results).value.data[c]| == |results|
  {
    var rows := TabulateRows(names, dates, results);
    PivotColumns(names, dates, rows);
    PivotShape(names, dates, rows);
  }
}
