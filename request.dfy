/**
 * The data-shaping part of the request layer: the unit dispatch applied to every
 * variable the forecast service returns, the left-inclusive time grid that indexes
 * the hourly and daily frames, and the loop that fills a frame's columns.
 * The service call and the decoding of its binary response are not modelled:
 * their results (the grid bounds, each variable's unit and values) are parameters.
 */
module Request {
  import opened Rounding
  import opened Units
  import opened Integers

  /** The units the service can report for a variable, as far as the dispatch distinguishes them. */
  datatype UnitType = Fahrenheit | Knots | Feet | Inch | WmoCode | OtherUnit(code: int)

  /** One column of a frame: the time grid, real values, or whole numbers. */
  datatype FrameColumn = Times(times: seq<int>) | Reals(reals: seq<real>) | Ints(ints: seq<int>)
  {
    function Length(): nat
    {
      match this
      case Times(t) => |t|
      case Reals(r) => |r|
      case Ints(k) => |k|
    }
  }

  /**
   * The unit dispatch: temperatures in Fahrenheit become Celsius, speeds in knots
   * km/h, lengths in feet metres, precipitation in inches whole millimetres, weather
   * codes are truncated to integers, and every other unit passes through unchanged.
   */
  function TransformUnits(unit: UnitType, values: seq<real>): (c: FrameColumn)
    ensures c.Length() == |values| && !c.Times?
    ensures unit == Fahrenheit ==> c.Reals? && forall i :: 0 <= i < |values| ==> IsRoundingTo((values[i] - 32.0) * 5.0 / 9.0, 2, c.reals[i])
    ensures unit == Knots ==> c.Reals? && forall i :: 0 <= i < |values| ==> IsRoundingTo(values[i] * 1.852, 3, c.reals[i])
    ensures unit == Feet ==> c.Reals? && forall i :: 0 <= i < |values| ==> IsRoundingTo(values[i] * 0.3048, 2, c.reals[i])
    ensures unit == Inch ==> c.Ints? && forall i :: 0 <= i < |values| ==> IsHalfEvenRounding(values[i] * 25.4, c.ints[i])
    ensures unit == WmoCode ==> c.Ints? && forall i :: 0 <= i < |values| ==>
      (0.0 <= values[i] ==> 0 <= c.ints[i] && c.ints[i] as real <= values[i] < c.ints[i] as real + 1.0) &&
      (values[i] < 0.0 ==> c.ints[i] <= 0 && c.ints[i] as real - 1.0 < values[i] <= c.ints[i] as real)
    ensures unit.OtherUnit? ==> c == Reals(values)
  {
    match unit
    case Fahrenheit => Reals(FahrenheitToCelsius(values))
    case Knots => Reals(KnotsToKmh(values))
    case Feet => Reals(FeetToMeters(values))
    case Inch => Ints(InchesToMillimeters(values))
    case WmoCode => Ints(seq(|values|, i requires 0 <= i < |values| => Trunc(values[i])))
    case OtherUnit(_) => Reals(values)
  }

  /** Element i of a column, read as a real number (times and whole numbers widened). */
  function At(c: FrameColumn, i: nat): real
    requires i < c.Length()
  {
    match c
    case Times(t) => t[i] as real
    case Reals(r) => r[i]
    case Ints(k) => k[i] as real
  }

  /** The dispatch works element by element: output i is decided by the unit and input i alone. */
  lemma TransformUnitsPointwise(unit: UnitType, s: seq<real>, t: seq<real>, i: nat)
    requires i < |s| && i < |t| && s[i] == t[i]
    ensures At(TransformUnits(unit, s), i) == At(TransformUnits(unit, t), i)
  {
  }

  /**
   * The left-inclusive grid `start, start + interval, ...` of every point strictly
   * before `end`; an empty grid when `end <= start`.
   */
  function DateRange(start: int, end: int, interval: int): (grid: seq<int>)
    requires interval > 0
    ensures forall k :: 0 <= k < |grid| ==> grid[k] == start + k * interval
    ensures forall k :: 0 <= k < |grid| ==> grid[k] < end
    ensures start + |grid| * interval >= end
    decreases end - start
  {
    if start >= end then [] else [start] + DateRange(start + interval, end, interval)
  }

  /** A time lies on the grid exactly when it is in [start, end) and a whole number of intervals after start. */
  lemma DateRangeMembership(start: int, end: int, interval: int, x: int)
    requires interval > 0
    ensures x in DateRange(start, end, interval) <==> start <= x < end && (x - start) % interval == 0
  {
    if start <= x < end && (x - start) % interval == 0 {
      DateRangeContains(start, end, interval, x);
    }
    if x in DateRange(start, end, interval) {
      DateRangeOnlyGrid(start, end, interval, x);
    }
  }

  lemma DateRangeContains(start: int, end: int, interval: int, x: int)
    requires interval > 0 && start <= x < end && (x - start) % interval == 0
    ensures x in DateRange(start, end, interval)
  {
    var grid := DateRange(start, end, interval);
    var k := (x - start) / interval;
    assert x == start + k * interval;
    if k >= |grid| {
      MulAtLeast(interval, k - |grid| + 1);
    }
    assert grid[k] == x;
  }

  lemma DateRangeOnlyGrid(start: int, end: int, interval: int, x: int)
    requires interval > 0 && x in DateRange(start, end, interval)
    ensures start <= x < end && (x - start) % interval == 0
  {
    var grid := DateRange(start, end, interval);
    var k :| 0 <= k < |grid| && grid[k] == x;
    assert x - start == k * interval;
    DivModOf(k * interval, interval, k, 0);
  }

  /** The grid's length is the number of intervals needed to reach `end` from `start`, rounded up. */
  lemma DateRangeLength(start: int, end: int, interval: int)
    requires interval > 0 && start < end
    ensures |DateRange(start, end, interval)| == (end - start + interval - 1) / interval
  {
    var n := |DateRange(start, end, interval)|;
    assert n >= 1;
    assert DateRange(start, end, interval)[n - 1] < end;
    assert start + n * interval >= end;
    CeilDiv(end - start, interval, n);
  }

  lemma CeilDiv(d: int, k: int, n: int)
    requires k > 0 && d > 0 && n >= 1 && (n - 1) * k < d <= n * k
    ensures (d + k - 1) / k == n
  {
    DivModOf(d + k - 1, k, n, d + k - 1 - k * n);
  }

  /** Key j is not assigned again among keys j + 1 .. n - 1: its column holds the value written at step j. */
  predicate LastAssigned(keys: seq<string>, j: int, n: int)
    requires n <= |keys|
  {
    0 <= j < n && forall l :: j < l < n ==> keys[l] != keys[j]
  }

  /**
   * The frame's columns after the first |keys| assignments: a `date` column holding
   * the grid, then each requested key bound to its variable converted by its unit,
   * a later assignment replacing an earlier one.
   */
  function Filled(grid: seq<int>, keys: seq<string>, units: seq<UnitType>, values: seq<seq<real>>): map<string, FrameColumn>
    requires |keys| <= |units| && |keys| <= |values|
  {
    if keys == [] then map["date" := Times(grid)]
    else
      var m := |keys| - 1;
      Filled(grid, keys[..m], units, values)[keys[m] := TransformUnits(units[m], values[m])]
  }

  /** The frame's columns are `date` and the requested keys, each once. */
  lemma {:induction false} FilledKeys(grid: seq<int>, keys: seq<string>, units: seq<UnitType>, values: seq<seq<real>>)
    requires |keys| <= |units| && |keys| <= |values|
    ensures forall key :: key in Filled(grid, keys, units, values) <==> key == "date" || key in keys
  {
    if keys != [] {
      var m := |keys| - 1;
      FilledKeys(grid, keys[..m], units, values);
      assert keys == keys[..m] + [keys[m]];
    }
  }

  /** A key requested several times keeps the variable of its last request. */
  lemma {:induction false} FilledLastAssigned(grid: seq<int>, keys: seq<string>, units: seq<UnitType>, values: seq<seq<real>>)
    requires |keys| <= |units| && |keys| <= |values|
    ensures forall j {:trigger LastAssigned(keys, j, |keys|)} :: LastAssigned(keys, j, |keys|) ==>
      keys[j] in Filled(grid, keys, units, values) && Filled(grid, keys, units, values)[keys[j]] == TransformUnits(units[j], values[j])
  {
    if keys != [] {
      var m := |keys| - 1;
      FilledLastAssigned(grid, keys[..m], units, values);
      forall j | LastAssigned(keys, j, |keys|) && j < m
        ensures LastAssigned(keys[..m], j, m)
      {
      }
    }
  }

  /** Unless a requested key is itself named `date`, the `date` column holds the grid. */
  lemma {:induction false} FilledDate(grid: seq<int>, keys: seq<string>, units: seq<UnitType>, values: seq<seq<real>>)
    requires |keys| <= |units| && |keys| <= |values|
    requires "date" !in keys
    ensures "date" in Filled(grid, keys, units, values) && Filled(grid, keys, units, values)["date"] == Times(grid)
  {
    if keys != [] {
      var m := |keys| - 1;
      assert keys[m] in keys;
      assert forall k :: k in keys[..m] ==> k in keys;
      FilledDate(grid, keys[..m], units, values);
    }
  }

  /** When every variable has one value per grid point, all columns have the grid's length, as the frame requires. */
  lemma {:induction false} FilledLengths(grid: seq<int>, keys: seq<string>, units: seq<UnitType>, values: seq<seq<real>>)
    requires |keys| <= |units| && |keys| <= |values|
    requires forall j :: 0 <= j < |keys| ==> |values[j]| == |grid|
    ensures forall key :: key in Filled(grid, keys, units, values) ==> Filled(grid, keys, units, values)[key].Length() == |grid|
  {
    if keys != [] {
      FilledLengths(grid, keys[..|keys| - 1], units, values);
    }
  }

  /**
   * The frame-filling loop: a `date` column holding the grid, then, for each
   * requested key in order, the key's variable converted by its unit.
   */
  method FillColumns(grid: seq<int>, keys: seq<string>, units: seq<UnitType>, values: seq<seq<real>>)
    returns (data: map<string, FrameColumn>)
    requires |keys| <= |units| && |keys| <= |values|
    ensures data == Filled(grid, keys, units, values)
  {
    data := map["date" := Times(grid)];
    var i := 0;
    while i < |keys|
      invariant 0 <= i <= |keys|
      invariant data == Filled(grid, keys[..i], units, values)
    {
      var key := keys[i];
      assert keys[..i + 1][..i] == keys[..i];
      data := data[key := TransformUnits(units[i], values[i])];
      i := i + 1;
    }
    assert keys[..i] == keys;
  }
}
