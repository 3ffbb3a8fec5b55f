/**
 * The list converters of the ingest step: each maps a list of readings in one unit to a list of
 * the same length in another, element by element, with a fixed rounding.
 */
module Units {
  import opened Rounding

  /** Kilometres per hour in one knot (the source calls this constant KMH_TO_KNOT). */
  const KnotInKmh: real := 1.852
  /** Millimetres in one inch (the source calls this constant MILLIMETER_TO_INCH). */
  const InchInMillimeters: real := 25.4
  /** Metres in one foot (the source calls this constant METER_TO_FEET). */
  const FootInMeters: real := 0.3048

  /** One speed in knots as km/h, rounded to 3 decimals. */
  function KnotToKmh(v: real): (kmh: real)
    ensures IsRoundingTo(v * KnotInKmh, 3, kmh)
  {
    RoundTo(v * KnotInKmh, 3)
  }

  /** One temperature in degrees Fahrenheit as degrees Celsius, (v - 32) * 5 / 9 rounded to 2 decimals. */
  function FahrenheitToCelsiusOne(v: real): (celsius: real)
    ensures IsRoundingTo((v - 32.0) * 5.0 / 9.0, 2, celsius)
  {
    RoundTo((v - 32.0) * 5.0 / 9.0, 2)
  }

  /** One length in inches as a whole number of millimetres. */
  function InchToMillimeters(v: real): (mm: int)
    ensures IsHalfEvenRounding(v * InchInMillimeters, mm)
  {
    RoundInt(v * InchInMillimeters)
  }

  /** One length in feet as metres, rounded to 2 decimals. */
  function FootToMeters(v: real): (meters: real)
    ensures IsRoundingTo(v * FootInMeters, 2, meters)
  {
    RoundTo(v * FootInMeters, 2)
  }

  /** `knots_to_kmh`: the list converted element by element. */
  function KnotsToKmh(knots: seq<real>): (kmh: seq<real>)
    ensures |kmh| == |knots|
    ensures forall i :: 0 <= i < |knots| ==> kmh[i] == KnotToKmh(knots[i])
  {
    seq(|knots|, i requires 0 <= i < |knots| => KnotToKmh(knots[i]))
  }

  /** `farhenheits_to_celcius`: the list converted element by element. */
  function FahrenheitToCelsius(fahrenheit: seq<real>): (celsius: seq<real>)
    ensures |celsius| == |fahrenheit|
    ensures forall i :: 0 <= i < |fahrenheit| ==> celsius[i] == FahrenheitToCelsiusOne(fahrenheit[i])
  {
    seq(|fahrenheit|, i requires 0 <= i < |fahrenheit| => FahrenheitToCelsiusOne(fahrenheit[i]))
  }

  /** `inches_to_millimeter`: the list converted element by element (Python's `round` with no digits gives ints). */
  function InchesToMillimeters(inches: seq<real>): (mm: seq<int>)
    ensures |mm| == |inches|
    ensures forall i :: 0 <= i < |inches| ==> mm[i] == InchToMillimeters(inches[i])
  {
    seq(|inches|, i requires 0 <= i < |inches| => InchToMillimeters(inches[i]))
  }

  /** `feet_to_meter`: the list converted element by element. */
  function FeetToMeters(feet: seq<real>): (meters: seq<real>)
    ensures |meters| == |feet|
    ensures forall i :: 0 <= i < |feet| ==> meters[i] == FootToMeters(feet[i])
  {
    seq(|feet|, i requires 0 <= i < |feet| => FootToMeters(feet[i]))
  }

  // The values pinned by the unit tests of the converters.

  lemma KnotsToKmhExample()
    ensures KnotsToKmh([1.7, 5.3, 0.1234]) == [3.148, 9.816, 0.229]
  {
    RoundToUnique(1.7 * KnotInKmh, 3, 3.148);
    RoundToUnique(5.3 * KnotInKmh, 3, 9.816);
    RoundToUnique(0.1234 * KnotInKmh, 3, 0.229);
  }

  lemma FahrenheitToCelsiusExample()
    ensures FahrenheitToCelsius([100.234, -5.5, 50.0]) == [37.91, -20.83, 10.0]
  {
    RoundToUnique((100.234 - 32.0) * 5.0 / 9.0, 2, 37.91);
    RoundToUnique((-5.5 - 32.0) * 5.0 / 9.0, 2, -20.83);
    RoundToUnique((50.0 - 32.0) * 5.0 / 9.0, 2, 10.0);
  }

  lemma InchesToMillimetersExample()
    ensures InchesToMillimeters([50.5, -3.7, 10.5432]) == [1283, -94, 268]
  {
    RoundIntUnique(50.5 * InchInMillimeters, 1283);
    RoundIntUnique(-3.7 * InchInMillimeters, -94);
    RoundIntUnique(10.5432 * InchInMillimeters, 268);
  }

  lemma FeetToMetersExample()
    ensures FeetToMeters([50.5, -3.7, 10.5432]) == [15.39, -1.13, 3.21]
  {
    RoundToUnique(50.5 * FootInMeters, 2, 15.39);
    RoundToUnique(-3.7 * FootInMeters, 2, -1.13);
    RoundToUnique(10.5432 * FootInMeters, 2, 3.21);
  }

  /** Each converter keeps the order of the readings: a larger reading never converts to a smaller value. */
  lemma ConvertersMonotone(s: seq<real>, i: nat, j: nat)
    requires i < |s| && j < |s| && s[i] <= s[j]
    ensures KnotsToKmh(s)[i] <= KnotsToKmh(s)[j]
    ensures FahrenheitToCelsius(s)[i] <= FahrenheitToCelsius(s)[j]
    ensures InchesToMillimeters(s)[i] <= InchesToMillimeters(s)[j]
    ensures FeetToMeters(s)[i] <= FeetToMeters(s)[j]
  {
    RoundToMonotone(s[i] * KnotInKmh, s[j] * KnotInKmh, 3);
    RoundToMonotone((s[i] - 32.0) * 5.0 / 9.0, (s[j] - 32.0) * 5.0 / 9.0, 2);
    RoundIntMonotone(s[i] * InchInMillimeters, s[j] * InchInMillimeters);
    RoundToMonotone(s[i] * FootInMeters, s[j] * FootInMeters, 2);
  }
}
