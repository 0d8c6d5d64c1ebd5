/** A parsed measurement, and the big-endian fields all three frame formats are made of. */
module Measurements {
  import opened Bytes

  /** Readings a frame does not carry are None. Decimals are exact: 0.005 means 1/200. */
  datatype Measurement = Measurement(
    nameonly format: int,
    nameonly mac: string := "",
    nameonly name: string := "",
    nameonly timestamp: int := 0,
    nameonly rssi: int := 0,
    nameonly temperature: Option<real> := None,
    nameonly humidity: Option<real> := None,
    nameonly pressure: Option<int> := None,
    nameonly accelerationX: Option<int> := None,
    nameonly accelerationY: Option<int> := None,
    nameonly accelerationZ: Option<int> := None,
    nameonly batteryVoltage: Option<real> := None,
    nameonly txPower: Option<int> := None,
    nameonly movementCounter: Option<int> := None,
    nameonly sequence: Option<int> := None,
    nameonly pm1: Option<real> := None,
    nameonly pm25: Option<real> := None,
    nameonly pm4: Option<real> := None,
    nameonly pm10: Option<real> := None,
    nameonly co2: Option<int> := None,
    nameonly vocIndex: Option<int> := None,
    nameonly noxIndex: Option<int> := None,
    nameonly luminosity: Option<real> := None,
    nameonly airQualityIndex: Option<int> := None)

  datatype Error = InvalidDataLength | InvalidFormat | TemperatureOutOfRange

  datatype Result = Ok(m: Measurement) | Failed(error: Error)

  /** binary.BigEndian.Uint16(d[i:i+2]) */
  function U16(d: seq<byte>, i: nat): (v: nat)
    requires i + 2 <= |d|
    ensures v < 0x1_0000
  {
    256 * d[i] as nat + d[i + 1] as nat
  }

  /** int16 of a uint16 */
  function Signed16(v: nat): (r: int)
    requires v < 0x1_0000
    ensures -0x8000 <= r < 0x8000 && r % 0x1_0000 == v
  {
    if v < 0x8000 then v else v - 0x1_0000
  }

  /** A raw value that stands for no reading. */
  function Unless(raw: int, sentinel: int, value: int): Option<int> {
    if raw == sentinel then None else Some(value)
  }

  function UnlessReal(raw: int, sentinel: int, value: real): Option<real> {
    if raw == sentinel then None else Some(value)
  }

  /** 0.005 degrees per unit; the raw value 0x8000 means no reading. */
  function Celsius(raw: nat): Option<real>
    requires raw < 0x1_0000
  {
    UnlessReal(raw, 0x8000, Signed16(raw) as real * 0.005)
  }

  predicate SensorRange(celsius: real) {
    -40.0 <= celsius <= 85.0
  }

  /** 0.0025 % per unit, at most 100 %. */
  function Percent(raw: nat): Option<real> {
    var h := raw as real * 0.0025;
    UnlessReal(raw, 0xFFFF, if h > 100.0 then 100.0 else h)
  }

  function Pascal(raw: nat): Option<int> {
    Unless(raw, 0xFFFF, raw + 50000)
  }

  function MilliG(raw: nat): Option<int>
    requires raw < 0x1_0000
  {
    Unless(raw, 0x8000, Signed16(raw))
  }

  /** 0.1 micrograms per cubic metre per unit. */
  function Micrograms(raw: nat): Option<real> {
    UnlessReal(raw, 0xFFFF, raw as real * 0.1)
  }

  // ---------------------------------------------------------------------------------------------------------
  // The way back: the raw value a reading came from, None giving the sentinel.

  function RawCelsius(t: Option<real>): int {
    if t.None? then 0x8000
    else var v := (t.value * 200.0).Floor; if v >= 0 then v else v + 0x1_0000
  }

  function RawPercent(h: Option<real>): int {
    if h.None? then 0xFFFF else (h.value * 400.0).Floor
  }

  function RawPascal(p: Option<int>): int {
    if p.None? then 0xFFFF else p.value - 50000
  }

  function RawMilliG(a: Option<int>): int {
    if a.None? then 0x8000 else if a.value >= 0 then a.value else a.value + 0x1_0000
  }

  function RawMicrograms(c: Option<real>): int {
    if c.None? then 0xFFFF else (c.value * 10.0).Floor
  }

  function RawOr(x: Option<int>, sentinel: int): int {
    if x.None? then sentinel else x.value
  }

  /** The humidity is the one reading that is clamped. */
  predicate HumidityKept(raw: nat) {
    raw <= 40000 || raw == 0xFFFF
  }

  /** Each field comes back from its reading; humidity exactly when it was not clamped. */
  lemma FieldsComeBack(raw: nat)
    requires raw < 0x1_0000
    ensures RawCelsius(Celsius(raw)) == raw
    ensures RawPercent(Percent(raw)) == raw <==> HumidityKept(raw)
    ensures RawPascal(Pascal(raw)) == raw
    ensures RawMilliG(MilliG(raw)) == raw
    ensures RawMicrograms(Micrograms(raw)) == raw
  {
    assert Signed16(raw) as real * 0.005 * 200.0 == Signed16(raw) as real;
    assert raw as real * 0.0025 * 400.0 == raw as real;
    assert raw as real * 0.1 * 10.0 == raw as real;
  }

  /** Byte k of a big-endian number at position i. */
  function Pair(raw: int, i: nat, k: nat): int {
    if k == i then raw / 256 else raw % 256
  }

  /** Two bytes are their big-endian number. */
  lemma PairOfU16(d: seq<byte>, i: nat)
    requires i + 2 <= |d|
    ensures Pair(U16(d, i), i, i) == d[i] as int && Pair(U16(d, i), i, i + 1) == d[i + 1] as int
    ensures forall raw: int | 0 <= raw < 0x1_0000 ::
              Pair(raw, i, i) == d[i] as int && Pair(raw, i, i + 1) == d[i + 1] as int <==> raw == U16(d, i)
  {
  }

  /** The two humidity bytes come back exactly when the humidity was not clamped. */
  lemma HumidityComesBack(d: seq<byte>, i: nat)
    requires i + 2 <= |d|
    ensures var raw := RawPercent(Percent(U16(d, i)));
            Pair(raw, i, i) == d[i] as int && Pair(raw, i, i + 1) == d[i + 1] as int <==> HumidityKept(U16(d, i))
  {
    FieldsComeBack(U16(d, i));
    PairOfU16(d, i);
  }

  /** A raw temperature in the range of the sensors, or the sentinel. */
  predicate TemperatureInRange(raw: nat)
    requires raw < 0x1_0000
  {
    raw == 0x8000 || -8000 <= Signed16(raw) <= 17000
  }
}
