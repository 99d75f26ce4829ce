/** The linear conversions from raw 16-bit sensor readings to physical units,
    over exact rationals (the driver computes them in `float`). */
module Conversion {
  import opened TempHum11

  /** Degrees Celsius for a raw temperature reading: `v / 65536 * 165 - 40`. */
  function Celsius(v: u16): (c: real)
    ensures -40.0 <= c < 125.0
  {
    (v as real / 65536.0) * 165.0 - 40.0
  }

  /** Relative humidity in percent for a raw humidity reading: `v / 65536 * 100`. */
  function Humidity(v: u16): (h: real)
    ensures 0.0 <= h < 100.0
  {
    (v as real / 65536.0) * 100.0
  }

  /** Celsius to Kelvin: add 273.15 (an exact rational here). The Kelvin
      scale is the Celsius scale moved down by 273.15 degrees. */
  function Kelvin(c: real): (k: real)
    ensures k - c == 273.15
    ensures c >= -273.15 <==> k >= 0.0
  {
    c + 273.15
  }

  /** Celsius to Fahrenheit: `c * 9 / 5 + 32`. Water freezes at 32 degrees
      Fahrenheit, and the two scales meet at -40. */
  function Fahrenheit(c: real): (f: real)
    ensures c == 0.0 ==> f == 32.0
    ensures f == c <==> c == -40.0
    ensures (f - 32.0) * 5.0 / 9.0 == c
  {
    c * 9.0 / 5.0 + 32.0
  }

  /** A raw temperature reading in the unit the selector asks for: 1 is
      Kelvin, 2 is Fahrenheit, and every other selector gives Celsius. */
  function Temperature(v: u16, unit: byte): (t: real)
    ensures unit == TEMP_IN_KELVIN ==> 233.15 <= t < 398.15
    ensures unit == TEMP_IN_FAHRENHEIT ==> -40.0 <= t < 257.0
    ensures unit != TEMP_IN_KELVIN && unit != TEMP_IN_FAHRENHEIT ==> -40.0 <= t < 125.0
  {
    var c := Celsius(v);
    if unit == TEMP_IN_KELVIN then Kelvin(c)
    else if unit == TEMP_IN_FAHRENHEIT then Fahrenheit(c)
    else c
  }

  // Independent inverses, used to show that no information is lost.

  /** The raw reading a Celsius value stands for. */
  function RawFromCelsius(c: real): real {
    (c + 40.0) * 65536.0 / 165.0
  }

  /** The raw reading a relative humidity stands for. */
  function RawFromHumidity(h: real): real {
    h * 65536.0 / 100.0
  }

  function CelsiusFromKelvin(k: real): real {
    k - 273.15
  }

  function CelsiusFromFahrenheit(f: real): real {
    (f - 32.0) * 5.0 / 9.0
  }

  lemma CelsiusInverse(v: u16)
    ensures RawFromCelsius(Celsius(v)) == v as real
  {
  }

  lemma HumidityInverse(v: u16)
    ensures RawFromHumidity(Humidity(v)) == v as real
  {
  }

  lemma KelvinRoundTrip(c: real)
    ensures CelsiusFromKelvin(Kelvin(c)) == c
    ensures Kelvin(c) - c == 273.15
  {
  }

  lemma FahrenheitRoundTrip(c: real)
    ensures CelsiusFromFahrenheit(Fahrenheit(c)) == c
    ensures Fahrenheit(CelsiusFromFahrenheit(c)) == c
  {
  }

  /** Celsius is strictly increasing in the raw value, one step of the raw
      value being 165/65536 of a degree. */
  lemma CelsiusStrictlyIncreasing(v1: u16, v2: u16)
    requires v1 < v2
    ensures Celsius(v1) < Celsius(v2)
    ensures Celsius(v2) - Celsius(v1) == (v2 - v1) as real * 165.0 / 65536.0
  {
  }

  lemma HumidityStrictlyIncreasing(v1: u16, v2: u16)
    requires v1 < v2
    ensures Humidity(v1) < Humidity(v2)
    ensures Humidity(v2) - Humidity(v1) == (v2 - v1) as real * 100.0 / 65536.0
  {
  }

  /** In every unit the converted temperature is strictly increasing. */
  lemma TemperatureStrictlyIncreasing(v1: u16, v2: u16, unit: byte)
    requires v1 < v2
    ensures Temperature(v1, unit) < Temperature(v2, unit)
  {
    CelsiusStrictlyIncreasing(v1, v2);
  }

  /** The unit selector only changes the scale applied to the Celsius value. */
  lemma TemperatureByUnit(v: u16, unit: byte)
    ensures unit == TEMP_IN_KELVIN ==> CelsiusFromKelvin(Temperature(v, unit)) == Celsius(v)
    ensures unit == TEMP_IN_FAHRENHEIT ==> CelsiusFromFahrenheit(Temperature(v, unit)) == Celsius(v)
    ensures unit != TEMP_IN_KELVIN && unit != TEMP_IN_FAHRENHEIT ==> Temperature(v, unit) == Celsius(v)
  {
    KelvinRoundTrip(Celsius(v));
    FahrenheitRoundTrip(Celsius(v));
  }

  /** The extreme readings. */
  lemma ConversionEndpoints()
    ensures Celsius(0) == -40.0 && Humidity(0) == 0.0
    ensures Celsius(0xFFFF) == 125.0 - 165.0 / 65536.0
    ensures Humidity(0xFFFF) == 100.0 - 100.0 / 65536.0
  {
  }

  /** Raw 0x8000 is 42.5 degrees Celsius, 315.65 K and 108.5 degrees Fahrenheit;
      raw humidity 0x4000 is 25 percent. */
  lemma WorkedExamples()
    ensures Temperature(0x8000, TEMP_IN_CELSIUS) == 42.5
    ensures Temperature(0x8000, TEMP_IN_KELVIN) == 315.65
    ensures Temperature(0x8000, TEMP_IN_FAHRENHEIT) == 108.5
    ensures Humidity(0x4000) == 25.0
  {
  }
}
