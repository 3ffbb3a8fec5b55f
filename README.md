# Weather statistics: the unit conversion and day aggregation core

This project models the data-shaping core of a small weather-statistics service. The
service fetches an hourly and a daily forecast from the Open-Meteo API. It converts every
variable out of the units the API reports (Fahrenheit, knots, feet, inches) into metric
units, and truncates WMO weather codes to integers. Each hourly or daily variable becomes a column, indexed by a
left-inclusive time grid. The service then aggregates each day into one flat record: 24-hour
and daylight means, 24-hour and daylight totals, per-hour series, the daylight hours, and the
sunrise and sunset times as ISO 8601 UTC strings. Finally it pivots the records into a table with one
column per record field.

The model is written over exact values:

- readings are `real`s, and Python's `round` is round-half-to-even on those reals (`Rounding`);
- times are POSIX seconds as `int`s, and the UTC calendar and the `strftime` renderings are spelled out (`Calendar`);
- frames are sequences of rows in index order (`Frames`);
- a raised exception is an `Err` of `Result` (`Wrappers`).

| file | module | models |
|---|---|---|
| `wrappers.dfy` | `Wrappers` | `Option` and `Result` |
| `integers.dfy` | `Integers` | Euclidean division facts shared by the calendar and the time grid |
| `rounding.dfy` | `Rounding` | Python `round(x)`, `round(x, n)` (half to even) and `int(x)` (toward zero) |
| `units.dfy` | `Units` | `app/utils.py`: the four list converters and their constants |
| `schema.dfy` | `Schema` | `app/constants.py`: the `HourlyParams` enumeration and `to_list` |
| `calendar.dfy` | `Calendar` | `datetime.fromtimestamp(t, UTC)` and the `%Y-%m-%dT%H:%M:%SZ` and `%Y-%m-%d` renderings |
| `request.dfy` | `Request` | `app/request.py`: `transform_units`, the `date_range` grid, the column-filling loops of `combine_dataframes` |
| `frames.dfy` | `Frames` | hourly and daily rows, half-open time windows, column sum and mean |
| `transform.dfy` | `Transform` | `app/open_meteo_data_transform.py`: `ResultRow`, `day_data_to_record`, `transform_dataframes` |

The model keeps these behaviours of the code exactly as written:

- `wind_speed_80m_m_per_s` is computed from the 10 m wind speed column, so it always equals `wind_speed_10m_m_per_s` (`Transform.RecordWindSeries`).
- The "km/h to m/s" conversion divides by 1000 and then by 60 (`Transform.KmhToMps`).
- `daylight_hours` is the daily `daylight_duration` divided by 3600 and rounded. It is not sunset minus sunrise, although the field's comment says so (`Transform.DaylightHoursNotSunsetMinusSunrise`).
- The daylight and 24-hour totals are plain, unrounded sums.
- A daylight mean over a day with no daylight hours is NaN, modelled as `None`.
- The 24-hour means always cover 24 rows, because any other row count raises.
- The year is rendered with glibc's `%Y` as Python 3.11 passes it through, which does not pad years below 1000.
- A day's start is a POSIX instant (the local midnight of the location's time zone), and its `date` label is that instant's UTC calendar date, so east of Greenwich the label is the previous calendar day (`Transform.Dates`).
- The result table's columns appear in first-insertion order: `date` first, then the 38 record fields in declaration order, which puts `sunset_iso` before `sunrise_iso`.

`main.py` passes the same two frames to `transform_dataframes` but annotates a different result
type (a list of dictionaries) than the core file declares. The model follows
`app/open_meteo_data_transform.py`.

## Model

| member | source | states |
|---|---|---|
| Rounding.RoundInt | app/utils.py:11-12 | `round(x)` is an integer within one half of x, and on a tie it is the even neighbour |
| Rounding.RoundTo | app/utils.py:5-6 | `round(x, n)` is a whole number of units 10^-n, and that number is the half-to-even rounding of x·10^n |
| Rounding.Trunc | app/request.py:43-44 | `int(v)` truncates toward zero: k ≤ v < k+1 for v ≥ 0 and k-1 < v ≤ k for v < 0 |
| Rounding.RoundIntUnique | app/utils.py:11-12 | only one integer satisfies the half-to-even definition, so `RoundInt` is exactly it |
| Rounding.RoundToUnique | app/utils.py:5-6 | only one value satisfies the rounding definition at 10^-n, so `RoundTo` is exactly it |
| Rounding.RoundIntOfInt | app/utils.py:11-12 | rounding an integer gives the integer back |
| Rounding.RoundIntMonotone | app/utils.py:11-12 | x ≤ y implies round(x) ≤ round(y) |
| Rounding.RoundIntNegate | app/utils.py:11-12 | round(-x) == -round(x) (ties to even are symmetric) |
| Rounding.RoundToError | app/utils.py:5-6 | round(x, n) differs from x by at most half of 10^-n |
| Rounding.RoundToIdempotent | app/utils.py:5-6 | rounding an already rounded value changes nothing |
| Rounding.RoundToMonotone | app/utils.py:5-6 | x ≤ y implies round(x, n) ≤ round(y, n) |
| Rounding.RoundToNegate | app/utils.py:5-6 | round(-x, n) == -round(x, n) |
| Units.KnotToKmh | app/utils.py:5-6 | one speed: v·1.852 rounded to 3 decimals |
| Units.FahrenheitToCelsiusOne | app/utils.py:8-9 | one temperature: (v - 32)·5/9 rounded to 2 decimals |
| Units.InchToMillimeters | app/utils.py:11-12 | one length: v·25.4 rounded to a whole number of millimetres |
| Units.FootToMeters | app/utils.py:14-15 | one length: v·0.3048 rounded to 2 decimals |
| Units.KnotsToKmh | app/utils.py:5-6 | the list has the input's length, and element i is the conversion of input i |
| Units.FahrenheitToCelsius | app/utils.py:8-9 | the list has the input's length, and element i is the conversion of input i |
| Units.InchesToMillimeters | app/utils.py:11-12 | the list has the input's length, and element i is the conversion of input i (an int) |
| Units.FeetToMeters | app/utils.py:14-15 | the list has the input's length, and element i is the conversion of input i |
| Units.KnotsToKmhExample | app/test_utils.py:6-9 | [1.7, 5.3, 0.1234] knots give [3.148, 9.816, 0.229] |
| Units.FahrenheitToCelsiusExample | app/test_utils.py:11-14 | [100.234, -5.5, 50] °F give [37.91, -20.83, 10] |
| Units.InchesToMillimetersExample | app/test_utils.py:16-19 | [50.5, -3.7, 10.5432] inches give [1283, -94, 268] |
| Units.FeetToMetersExample | app/test_utils.py:21-24 | [50.5, -3.7, 10.5432] feet give [15.39, -1.13, 3.21] |
| Units.ConvertersMonotone | app/utils.py:5-15 | each converter preserves order: a larger reading never converts to a smaller value |
| Schema.LowerIdentity | app/constants.py:5 | lower-casing text with no upper-case letter changes nothing |
| Schema.IdentifiersLowerCase | app/constants.py:4-27 | no member identifier holds an upper-case letter |
| Schema.ValueIsName | app/constants.py:4-27 | the `auto()` value of each member is its own identifier |
| Schema.MembersComplete | app/constants.py:4-27 | there are 18 members, and iteration yields each member at its declared position |
| Schema.MembersDistinct | app/constants.py:4-27 | iteration yields each member once |
| Schema.IdentifiersDistinct | app/constants.py:4-27 | the 18 identifiers are pairwise distinct |
| Schema.ToList | app/constants.py:29-31 | `to_list()` holds the members' values in declaration order |
| Schema.ToListIsIdentifiers | app/constants.py:29-31 | `to_list()` equals the declared identifiers in order, 18 pairwise distinct strings |
| Schema.ToListComplete | app/constants.py:29-31 | every member's value is in `to_list()`, so every hourly column the aggregation reads is requested |
| Calendar.YearOfDay | app/open_meteo_data_transform.py:142-145 | day n (from 0001-01-01) lies in a year between 1 and 9999, at an offset below that year's length |
| Calendar.DateOfDay | app/open_meteo_data_transform.py:142-145 | day n is a valid calendar date whose day number is n |
| Calendar.ToDateTime | app/open_meteo_data_transform.py:142-145 | `fromtimestamp(t, UTC)` is a valid date and time whose POSIX time is t |
| Calendar.DaysBeforeYearStep | app/open_meteo_data_transform.py:142-145 | each year adds 365 days, or 366 in a Gregorian leap year |
| Calendar.DayNumberInjective | app/open_meteo_data_transform.py:142-145 | distinct valid dates have distinct day numbers, all before year 10000 |
| Calendar.ToEpochInjective | app/open_meteo_data_transform.py:142-145 | distinct valid date-times have distinct POSIX times, within `datetime`'s range |
| Calendar.Pad2 | app/open_meteo_data_transform.py:142-145 | `%m`/`%d`/`%H`/`%M`/`%S`: two digits whose value is v |
| Calendar.Decimal | app/open_meteo_data_transform.py:142-145 | `%Y`: decimal digits whose value is v, as many as v needs |
| Calendar.RenderDate | app/open_meteo_data_transform.py:164 | `%Y-%m-%d` is the year's digits plus six characters |
| Calendar.RenderDateTime | app/open_meteo_data_transform.py:142-145 | `%Y-%m-%dT%H:%M:%SZ` is the year's digits plus sixteen characters |
| Calendar.ParseRenderDateTime | app/open_meteo_data_transform.py:142-145 | reading a rendered date-time back gives the same date-time |
| Calendar.FormatUtc | app/open_meteo_data_transform.py:142-145 | the rendering exists exactly for the times `datetime` can represent |
| Calendar.FormatUtcDate | app/open_meteo_data_transform.py:164 | the date rendering exists exactly for the times `datetime` can represent |
| Calendar.ParseFormatUtc | app/open_meteo_data_transform.py:142-145 | the rendering of t parses back to t, so distinct times render differently |
| Calendar.FormatUtcOf | app/open_meteo_data_transform.py:142-145 | the rendering of t is that of the one valid date-time whose POSIX time is t |
| Calendar.FormatUtcDatePrefix | app/open_meteo_data_transform.py:164 | the `%Y-%m-%d` rendering is the full rendering without its last ten characters |
| Calendar.FormatUtcExampleEpoch | app/open_meteo_data_transform.py:142-145 | time 0 renders as `1970-01-01T00:00:00Z` |
| Calendar.FormatUtcExampleDay | app/open_meteo_data_transform.py:142-145 | time 1750213829 renders as `2025-06-18T02:30:29Z` |
| Calendar.FormatUtcExampleBounds | app/open_meteo_data_transform.py:142-145 | times just outside the years 1 to 9999 have no rendering |
| Request.TransformUnits | app/request.py:33-46 | Fahrenheit, knots, feet and inches go through their converters; WMO codes are truncated to ints; other units pass through unchanged; the length is kept |
| Request.TransformUnitsPointwise | app/request.py:33-46 | output i depends only on the unit and input i |
| Request.DateRange | app/request.py:52-57 | grid point k is start + k·interval, every point is before end, and the next point would not be |
| Request.DateRangeMembership | app/request.py:52-57 | t is on the grid iff start ≤ t < end and t - start is a multiple of the interval |
| Request.DateRangeLength | app/request.py:79-84 | the grid has ⌈(end - start) / interval⌉ points |
| Request.FillColumns | app/request.py:60-67 | the loop leaves the `date` column and each requested key bound to its converted variable, later keys overwriting earlier ones |
| Request.FilledKeys | app/request.py:86-93 | the frame's columns are exactly `date` and the requested keys |
| Request.FilledLastAssigned | app/request.py:86-93 | a key requested several times holds the variable of its last request |
| Request.FilledDate | app/request.py:52-67 | unless a requested key is `date`, the `date` column is the grid |
| Request.FilledLengths | app/request.py:86-95 | when every variable has one value per grid point, every column has the grid's length, as the frame constructor demands |
| Frames.Window | app/open_meteo_data_transform.py:161-162 | the selection keeps exactly the rows whose time is in [lo, hi), as a subsequence of the rows in their original order (copies are counted by `WindowCounts`) |
| Frames.WindowCounts | app/open_meteo_data_transform.py:161-162 | the selection keeps every copy of a row inside [lo, hi) and no copy of a row outside it |
| Frames.WindowAppend | app/open_meteo_data_transform.py:161-162 | selecting from two stretches of rows selects from each in turn |
| Frames.WindowAll | app/open_meteo_data_transform.py:161-162 | when every row is inside the interval, the selection keeps them all |
| Frames.WindowNested | app/open_meteo_data_transform.py:97-98 | the daylight window of a day's window is the window of the intersected interval |
| Frames.Column | app/open_meteo_data_transform.py:105-140 | a column has one value per row, value i being row i's reading |
| Frames.Sum | app/open_meteo_data_transform.py:114-116 | `.sum()`: a left-to-right sum, 0.0 for an empty column (its algebra is in `SumAppend` and `SumBounds`) |
| Frames.Mean | app/open_meteo_data_transform.py:101 | the mean is missing (NaN) exactly for an empty column |
| Frames.SumAppend | app/open_meteo_data_transform.py:114-116 | the sum over two stretches is the sum of their sums |
| Frames.SumBounds | app/open_meteo_data_transform.py:114-116 | values within [lo, hi] sum to between n·lo and n·hi |
| Frames.MeanBounds | app/open_meteo_data_transform.py:101 | the mean of values within [lo, hi] is within [lo, hi] |
| Frames.MeanConstant | app/open_meteo_data_transform.py:101 | the mean of a constant column is that constant |
| Frames.WindowSumAtMost | app/open_meteo_data_transform.py:127-129 | for a non-negative quantity, a window's total is between 0 and the total over all rows |
| Transform.FieldNamesDistinct | app/open_meteo_data_transform.py:6-85 | the 38 field names are pairwise distinct, and none is `date` |
| Transform.DateNotAField | app/open_meteo_data_transform.py:6-85 | no field is named `date` |
| Transform.Cells | app/open_meteo_data_transform.py:165-168 | a record yields one cell per field, 38 in all |
| Transform.RoundedMean | app/open_meteo_data_transform.py:101 | `round(mean, 2)`: the rounded mean of a non-empty column, NaN for an empty one |
| Transform.RoundList | app/open_meteo_data_transform.py:100 | every value rounded to n decimals, at its position |
| Transform.KmhToMps | app/open_meteo_data_transform.py:102 | every speed divided by 1000 and by 60, rounded to 2 decimals |
| Transform.DaylightHours | app/open_meteo_data_transform.py:141 | the duration divided by 3600, rounded to 2 decimals |
| Transform.Daylight | app/open_meteo_data_transform.py:97-98 | the daylight rows are the rows with sunrise ≤ time < sunset, in order |
| Transform.DayDataToRecord | app/open_meteo_data_transform.py:89-148 | fails iff the slice does not have 24 rows or a sun time cannot be rendered, with the matching error and the row-count check first |
| Transform.RecordAverages24h | app/open_meteo_data_transform.py:105-113 | the nine 24-hour averages are the rounded means of the day's columns |
| Transform.RecordAveragesDaylight | app/open_meteo_data_transform.py:117-126 | the nine daylight averages are the rounded means over the daylight rows, NaN exactly when there are none |
| Transform.RecordTotals | app/open_meteo_data_transform.py:114-129 | the six totals are unrounded sums over the day and over daylight; daylight totals are 0 with no daylight |
| Transform.RecordTotalsBounded | app/open_meteo_data_transform.py:127-129 | for non-negative precipitation, each daylight total lies between 0 and the day's total |
| Transform.RecordTemperatureSeries | app/open_meteo_data_transform.py:132-137 | the six temperature series have 24 entries, entry i being hour i's value rounded to 2 decimals |
| Transform.RecordPrecipitationSeries | app/open_meteo_data_transform.py:138-140 | the three precipitation series have 24 entries, entry i being hour i's amount rounded to 2 decimals |
| Transform.RecordWindSeries | app/open_meteo_data_transform.py:130-131 | both wind series come from the 10 m speed: 24 entries of v/1000/60 rounded, and the 80 m series equals the 10 m one |
| Transform.RecordDaylightHours | app/open_meteo_data_transform.py:141 | daylight hours are a function of the daily duration alone |
| Transform.DaylightHoursNotSunsetMinusSunrise | app/open_meteo_data_transform.py:78-80 | a day with sunset two hours after sunrise but a one-hour duration gets 1.0, not the 2.0 the field's comment describes |
| Transform.RecordSunTimes | app/open_meteo_data_transform.py:142-145 | the sun times are the UTC renderings of the daily sunrise and sunset, and they parse back to the same seconds |
| Transform.DaySlice | app/open_meteo_data_transform.py:160-162 | a day's rows are exactly the hourly rows in [midnight, midnight + 1 day), in order |
| Transform.DayResults | app/open_meteo_data_transform.py:159-163 | outcome n is the record of daily row n built from its slice |
| Transform.Collect | app/open_meteo_data_transform.py:159-168 | a successful collection has one value per outcome |
| Transform.CollectOk | app/open_meteo_data_transform.py:159-168 | collecting succeeds iff every outcome does, keeping each value at its position; otherwise it fails with the first failing outcome's error |
| Transform.CollectPrefixError | app/open_meteo_data_transform.py:159-168 | once a prefix of the days fails, the whole run fails with that error |
| Transform.AddCellsKeys | app/open_meteo_data_transform.py:165-168 | after appending, the columns are the earlier ones plus the appended names |
| Transform.AddCellsValues | app/open_meteo_data_transform.py:165-168 | with distinct names, each named column gains exactly its cell and every other column is untouched |
| Transform.AddCellsColumnsKept | app/open_meteo_data_transform.py:165-168 | when every name already has a column, the column order is unchanged |
| Transform.AddCellsColumnsAdded | app/open_meteo_data_transform.py:165-168 | new distinct names are added at the end of the column order, in order |
| Transform.AppendCells | app/open_meteo_data_transform.py:165-168 | the inner loop's table is the field-by-field append of the record's cells |
| Transform.AddRowAppends | app/open_meteo_data_transform.py:164-168 | a day appends its date to `date` and each field's cell to that field's column |
| Transform.PivotShape | app/open_meteo_data_transform.py:155-171 | the table's columns are `date` and then, once there is a day, the 38 fields in order; every column has one cell per day; row n holds date n and record n's cells |
| Transform.PivotSnoc | app/open_meteo_data_transform.py:159-168 | the table of one more day is the previous table with that day's row added |
| Transform.Dates | app/open_meteo_data_transform.py:164 | date n is the `%Y-%m-%d` rendering of daily row n's start instant, that is its UTC calendar date |
| Transform.RecordCells | app/open_meteo_data_transform.py:165-168 | row n holds the 38 cells of record n |
| Transform.AddDay | app/open_meteo_data_transform.py:160-168 | one iteration: the day's record error, or the table with the day's date and record appended |
| Transform.TransformDataframes | app/open_meteo_data_transform.py:151-171 | the loop returns the first failing day's error, or the table of every day's record in daily order |
| Transform.TabulateStep | app/open_meteo_data_transform.py:159-168 | outcome n either ends the run with its error or adds its row to the table of the earlier days |
| Transform.TabulateOutcome | app/open_meteo_data_transform.py:159-168 | the run succeeds iff every day's record does; a failing run reports the first failing day's error |
| Transform.TabulateRows | app/open_meteo_data_transform.py:151-171 | a successful run's table is the table of the days' cells, row n being record n's cells |
| Transform.TabulateResultsShape | app/open_meteo_data_transform.py:155-171 | a successful run over any outcomes: every outcome succeeded, the columns are `date` then the names once there is a day, and each has one cell per day |
| Transform.TabulateShape | app/open_meteo_data_transform.py:151-171 | a successful run: every day's record was built, the table's columns are `date` and then (once there is a day) the 38 fields in order, and every column has one cell per day |

## Left out

- The network call, the response cache and retries, the binary response decoding and the console output of `app/request.py` are left out. The grid bounds, interval, and each variable's unit and values are parameters of the model.
- `main.py`, `app/args_parser.py`, `app/db_client.py`, `app/db_models.py`, `app/config.py` and the migrations are left out. They hold argument parsing, persistence and configuration.
- Floating point is not modelled: readings are exact reals. Python rounds the binary double nearest a decimal, so a value that looks like a tie may round differently in the program. NaN readings inside the API's columns are not modelled either; pandas' `mean` and `sum` skip them.
- Pandas mechanics are not modelled: `set_index`, the added `timestamp` column, the `Timestamp` type and `itertuples`. Rows are selected by their POSIX time directly, which is what the `timestamp` comparison computes.
- In `DailyRow`, `daylightDuration` is a real, and `date`, `sunrise` and `sunset` are integers.
- When the hourly block is missing (`hourly == None`), the program fails with an undefined-name error. That branch is not modelled.
- Request.DateRange: requires a positive interval. Pandas rejects a zero frequency, and a negative one builds a different (descending) range.
- Transform.TransformDataframes: requires every daily date to be representable by `datetime` (years 1 to 9999), since pandas timestamps always are. The sun times are checked, and they fail with an error.
- Calendar.Decimal: renders years below 1000 unpadded, as `strftime('%Y')` does on glibc under Python 3.11. From CPython 3.13 `%Y` pads to four digits on Linux, so there a sun time before year 1000 renders as `0999-…` where the model gives `999-…`. Dates from pandas never fall before year 1000.
- Calendar.ToDateTime: models `fromtimestamp` on a platform with no limit besides `datetime`'s own range (years 1 to 9999). Platforms whose C library rejects negative or very large times are not modelled.
- The model checks that the table's columns have equal lengths (`Transform.PivotShape`, `Request.FilledLengths`) instead of modelling the `DataFrame` constructor's own length check.
