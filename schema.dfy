/**
 * The fixed hourly variable schema: the `HourlyParams` string enumeration, whose members are
 * requested from the weather service in declaration order and name the hourly columns.
 */
module Schema {

  /** The members of `HourlyParams`, in declaration order. */
  datatype HourlyParam =
    | Temperature2m
    | RelativeHumidity2m
    | DewPoint2m
    | ApparentTemperature
    | Temperature80m
    | Temperature120m
    | WindSpeed10m
    | WindSpeed80m
    | WindDirection10m
    | WindDirection80m
    | Visibility
    | Evapotranspiration
    | WeatherCode
    | SoilTemperature0cm
    | SoilTemperature6cm
    | Rain
    | Showers
    | Snowfall
  {
    /** The member's position in the declaration. */
    function Index(): (k: nat)
      ensures k < |Identifiers|
    {
      match this
      case Temperature2m => 0
      case RelativeHumidity2m => 1
      case DewPoint2m => 2
      case ApparentTemperature => 3
      case Temperature80m => 4
      case Temperature120m => 5
      case WindSpeed10m => 6
      case WindSpeed80m => 7
      case WindDirection10m => 8
      case WindDirection80m => 9
      case Visibility => 10
      case Evapotranspiration => 11
      case WeatherCode => 12
      case SoilTemperature0cm => 13
      case SoilTemperature6cm => 14
      case Rain => 15
      case Showers => 16
      case Snowfall => 17
    }

    /** The member's identifier as declared. */
    function Name(): string
    {
      Identifiers[Index()]
    }

    /** The member's value: `auto()` on a `StrEnum` gives the lower-cased member name. */
    function Value(): string
    {
      Lower(Name())
    }
  }

  /** The identifiers of the members, in declaration order. */
  const Identifiers: seq<string> := [
    "temperature_2m", "relative_humidity_2m", "dew_point_2m",
    "apparent_temperature", "temperature_80m", "temperature_120m",
    "wind_speed_10m", "wind_speed_80m", "wind_direction_10m", "wind_direction_80m",
    "visibility", "evapotranspiration", "weather_code",
    "soil_temperature_0cm", "soil_temperature_6cm",
    "rain", "showers", "snowfall"
  ]

  /** The members in declaration order: what iterating over the enumeration class yields. */
  const Members: seq<HourlyParam> := [
    Temperature2m, RelativeHumidity2m, DewPoint2m,
    ApparentTemperature, Temperature80m, Temperature120m,
    WindSpeed10m, WindSpeed80m, WindDirection10m, WindDirection80m,
    Visibility, Evapotranspiration, WeatherCode,
    SoilTemperature0cm, SoilTemperature6cm,
    Rain, Showers, Snowfall
  ]

  /** Python's `str.lower` on one ASCII character. */
  function LowerChar(c: char): char
  {
    if 'A' <= c <= 'Z' then (c as int + 32) as char else c
  }

  /** Python's `str.lower` on ASCII text. */
  function Lower(s: string): (r: string)
    ensures |r| == |s|
  {
    if s == [] then [] else [LowerChar(s[0])] + Lower(s[1..])
  }

  /** Lower-casing text that has no upper-case letter changes nothing. */
  lemma {:induction false} LowerIdentity(s: string)
    requires forall c :: c in s ==> !('A' <= c <= 'Z')
    ensures Lower(s) == s
  {
    if s != [] {
      assert s[0] in s;
      assert forall c :: c in s[1..] ==> c in s;
      LowerIdentity(s[1..]);
      assert s == [s[0]] + s[1..];
    }
  }

  /** No declared identifier holds an upper-case letter. */
  lemma IdentifiersLowerCase(k: nat)
    requires k < |Identifiers|
    ensures forall c :: c in Identifiers[k] ==> !('A' <= c <= 'Z')
  {
  }

  /** Every member identifier is already lower case, so each value is the member's own name. */
  lemma ValueIsName(p: HourlyParam)
    ensures p.Value() == p.Name()
  {
    IdentifiersLowerCase(p.Index());
    LowerIdentity(p.Name());
  }

  /** There are exactly 18 members and iteration visits every member at its declared position. */
  lemma MembersComplete(p: HourlyParam)
    ensures |Members| == 18
    ensures Members[p.Index()] == p
  {
  }

  /** Iteration visits each member once. */
  lemma MembersDistinct()
    ensures forall i, j :: 0 <= i < j < |Members| ==> Members[i] != Members[j]
  {
    MembersInOrder();
  }

  /** `HourlyParams.to_list()`: the member values in declaration order. */
  function ToList(): (values: seq<string>)
    ensures |values| == |Members|
    ensures forall i :: 0 <= i < |Members| ==> values[i] == Members[i].Value()
  {
    seq(|Members|, i requires 0 <= i < |Members| => Members[i].Value())
  }

  /** `to_list()` gives exactly the declared identifiers, in order, so its 18 entries are pairwise distinct. */
  lemma ToListIsIdentifiers()
    ensures ToList() == Identifiers
    ensures |ToList()| == 18
    ensures forall i, j :: 0 <= i < j < |ToList()| ==> ToList()[i] != ToList()[j]
  {
    MembersInOrder();
    forall i | 0 <= i < |Members| ensures ToList()[i] == Identifiers[i] {
      ValueIsName(Members[i]);
    }
    IdentifiersDistinct();
  }

  lemma MembersInOrder()
    ensures forall i :: 0 <= i < |Members| ==> Members[i].Index() == i
  {
  }

  lemma IdentifiersDistinct()
    ensures forall i, j :: 0 <= i < j < |Identifiers| ==> Identifiers[i] != Identifiers[j]
  {
  }

  /** Every member's value appears in the list, so every column the aggregation reads is requested. */
  lemma ToListComplete(p: HourlyParam)
    ensures p.Value() in ToList()
  {
    MembersComplete(p);
    assert ToList()[p.Index()] == p.Value();
  }
}
