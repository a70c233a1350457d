/**
 * The altitude guard of AirPressureAtAltitude in Program.cs. The barometric
 * formula P0 * (T / T0)^(g*M/(R*L)) is single-precision floating point and
 * stays abstract: the power term is a parameter of the sea-level and
 * current temperatures.
 */
module Atmosphere {
  import opened Wrappers

  /** The formula is valid up to this altitude, in metres. */
  const MaxAltitude: real := 11000.0
  /** Standard pressure at sea level, in pascals. */
  const SeaLevelPressure: real := 101325.0
  /** Temperature lapse rate, in kelvin per metre. */
  const LapseRate: real := 0.0065
  /** Offset between degrees Celsius and kelvin. */
  const KelvinOffset: real := 273.15

  /** The ArgumentOutOfRangeException the source throws. */
  datatype AtmosphereError = AltitudeOutOfRange(altitudeMeters: real)

  function CelsiusToKelvin(celsius: real): real { celsius + KelvinOffset }

  /** The temperature at an altitude, falling linearly with the lapse rate. */
  function TemperatureAt(celsius: real, altitudeMeters: real): real
  {
    CelsiusToKelvin(celsius) - LapseRate * altitudeMeters
  }

  /** AirPressureAtAltitude: fails above 11000 m; otherwise the sea-level
      pressure times powerTerm(T, T0), which stands for MathF.Pow(T / T0,
      g * M / (R * L)). */
  function AirPressureAtAltitude(celsius: real, altitudeMeters: real, powerTerm: (real, real) -> real)
    : (r: Result<real, AtmosphereError>)
    ensures r.Failure? <==> altitudeMeters > MaxAltitude
    ensures r.Failure? ==> r.error == AltitudeOutOfRange(altitudeMeters)
  {
    if altitudeMeters > MaxAltitude then Failure(AltitudeOutOfRange(altitudeMeters))
    else
      var t0 := CelsiusToKelvin(celsius);
      var t := TemperatureAt(celsius, altitudeMeters);
      Success(SeaLevelPressure * powerTerm(t, t0))
  }

  /** The boundary altitude itself is accepted. */
  lemma BoundaryAccepted(celsius: real, powerTerm: (real, real) -> real)
    ensures AirPressureAtAltitude(celsius, 11000.0, powerTerm).Success?
    ensures AirPressureAtAltitude(celsius, 11000.000001, powerTerm).Failure?
  {
  }

  /** At sea level the temperature ratio is one, so for a sea-level
      temperature other than absolute zero a power term that is one for equal
      non-zero temperatures gives the standard sea-level pressure. */
  lemma PressureAtSeaLevel(celsius: real, powerTerm: (real, real) -> real)
    requires CelsiusToKelvin(celsius) != 0.0
    requires forall t: real :: t != 0.0 ==> powerTerm(t, t) == 1.0
    ensures AirPressureAtAltitude(celsius, 0.0, powerTerm) == Success(SeaLevelPressure)
  {
    var t0 := CelsiusToKelvin(celsius);
    assert t0 - LapseRate * 0.0 == t0;
    assert powerTerm(t0, t0) == 1.0;
  }

  /** Within the valid range and for a positive sea-level temperature that
      stays non-negative up to the higher altitude, a power term that grows
      with the temperature, as (T / T0)^k does for T0 > 0 and k > 0, gives a
      pressure that falls as the altitude rises. */
  lemma PressureFalls(celsius: real, low: real, high: real, powerTerm: (real, real) -> real)
    requires low <= high <= MaxAltitude
    requires 0.0 < CelsiusToKelvin(celsius) && 0.0 <= TemperatureAt(celsius, high)
    requires forall a: real, b: real, t0: real :: 0.0 < t0 && 0.0 <= a <= b ==> powerTerm(a, t0) <= powerTerm(b, t0)
    ensures AirPressureAtAltitude(celsius, low, powerTerm).Success?
    ensures AirPressureAtAltitude(celsius, high, powerTerm).Success?
    ensures AirPressureAtAltitude(celsius, high, powerTerm).value
         <= AirPressureAtAltitude(celsius, low, powerTerm).value
  {
    var t0 := CelsiusToKelvin(celsius);
    assert TemperatureAt(celsius, high) <= TemperatureAt(celsius, low);
    assert powerTerm(TemperatureAt(celsius, high), t0) <= powerTerm(TemperatureAt(celsius, low), t0);
  }
}
