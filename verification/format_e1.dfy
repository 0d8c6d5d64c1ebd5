/** Frame format E1: its parser, and the proof that its bit fields neither overlap nor lose a bit. */
module FormatE1 {
  import opened Bytes
  import opened Measurements

  const FORMAT: byte := 0xE1
  const MIN_LENGTH := 28

  /** uint16(d[i])<<1 | uint16(d[i+1]>>7) */
  function Nine(d: seq<byte>, i: nat): (v: nat)
    requires i + 2 <= |d|
    ensures v < 512
  {
    d[i] as nat * 2 + d[i + 1] as nat / 128
  }

  /** uint16(d[i]&0x7F)<<2 | uint16(d[i+1]>>6) */
  function NextNine(d: seq<byte>, i: nat): (v: nat)
    requires i + 2 <= |d|
    ensures v < 512
  {
    d[i] as nat % 128 * 4 + d[i + 1] as nat / 64
  }

  /** uint32(d[i]&0x3F)<<16 | uint32(d[i+1])<<8 | uint32(d[i+2]) */
  function TwentyTwo(d: seq<byte>, i: nat): (v: nat)
    requires i + 3 <= |d|
    ensures v < 0x40_0000
  {
    d[i] as nat % 64 * 0x1_0000 + d[i + 1] as nat * 256 + d[i + 2] as nat
  }

  function U24(d: seq<byte>, i: nat): (v: nat)
    requires i + 3 <= |d|
    ensures v < 0x100_0000
  {
    d[i] as nat * 0x1_0000 + d[i + 1] as nat * 256 + d[i + 2] as nat
  }

  /** ParseFormatE1 as a function: the fields of the frame, or the first reason to reject it. */
  function Decode(d: seq<byte>): Result {
    if |d| < MIN_LENGTH then Failed(InvalidDataLength)
    else if d[0] != FORMAT then Failed(InvalidFormat)
    else
      var t := Celsius(U16(d, 1));
      if t.Some? && !SensorRange(t.value) then Failed(TemperatureOutOfRange)
      else
        Ok(Measurement(
          format := 0xE1,
          temperature := t,
          humidity := Percent(U16(d, 3)),
          pressure := Pascal(U16(d, 5)),
          pm1 := Micrograms(U16(d, 7)),
          pm25 := Micrograms(U16(d, 9)),
          pm4 := Micrograms(U16(d, 11)),
          pm10 := Micrograms(U16(d, 13)),
          co2 := Unless(U16(d, 15), 0xFFFF, U16(d, 15)),
          vocIndex := Unless(Nine(d, 17), 511, Nine(d, 17)),
          noxIndex := Unless(NextNine(d, 18), 511, NextNine(d, 18)),
          luminosity := UnlessReal(TwentyTwo(d, 19), 0x3F_FFFF, TwentyTwo(d, 19) as real * 0.01),
          sequence := Unless(U24(d, 25), 0xFF_FFFF, U24(d, 25))))
  }

  /** The parser: the fields of a fresh measurement are filled one after another. */
  method ParseFormatE1(d: seq<byte>) returns (r: Result)
    ensures r == Decode(d)
  {
    if |d| < MIN_LENGTH {
      return Failed(InvalidDataLength);
    }
    if d[0] != FORMAT {
      return Failed(InvalidFormat);
    }
    var temperature, humidity, pressure := None, None, None;
    var pm1, pm25, pm4, pm10, co2 := None, None, None, None, None;
    var vocIndex, noxIndex, luminosity, sequence := None, None, None, None;
    var tempRaw := Signed16(U16(d, 1));
    if tempRaw != -32768 {
      var tempC := tempRaw as real * 0.005;
      if tempC < -40.0 || tempC > 85.0 {
        return Failed(TemperatureOutOfRange);
      }
      temperature := Some(tempC);
    }
    assert temperature == Celsius(U16(d, 1));
    var humidityRaw := U16(d, 3);
    if humidityRaw != 65535 {
      var h := humidityRaw as real * 0.0025;
      if h > 100.0 {
        h := 100.0;
      }
      humidity := Some(h);
    }
    assert humidity == Percent(humidityRaw);
    var pressureRaw := U16(d, 5);
    if pressureRaw != 65535 {
      pressure := Some(pressureRaw + 50000);
    }
    assert pressure == Pascal(pressureRaw);
    var pm1Raw := U16(d, 7);
    if pm1Raw != 65535 {
      pm1 := Some(pm1Raw as real * 0.1);
    }
    assert pm1 == Micrograms(pm1Raw);
    var pm25Raw := U16(d, 9);
    if pm25Raw != 65535 {
      pm25 := Some(pm25Raw as real * 0.1);
    }
    assert pm25 == Micrograms(pm25Raw);
    var pm4Raw := U16(d, 11);
    if pm4Raw != 65535 {
      pm4 := Some(pm4Raw as real * 0.1);
    }
    assert pm4 == Micrograms(pm4Raw);
    var pm10Raw := U16(d, 13);
    if pm10Raw != 65535 {
      pm10 := Some(pm10Raw as real * 0.1);
    }
    assert pm10 == Micrograms(pm10Raw);
    var co2Raw := U16(d, 15);
    if co2Raw != 65535 {
      co2 := Some(co2Raw);
    }
    assert co2 == Unless(co2Raw, 0xFFFF, co2Raw);
    if |d| >= 20 {
      var vocRaw := Nine(d, 17);
      if vocRaw != 511 {
        vocIndex := Some(vocRaw);
      }
      var noxRaw := NextNine(d, 18);
      if noxRaw != 511 {
        noxIndex := Some(noxRaw);
      }
    }
    assert vocIndex == Unless(Nine(d, 17), 511, Nine(d, 17)) && noxIndex == Unless(NextNine(d, 18), 511, NextNine(d, 18));
    if |d| >= 22 {
      var luxRaw := TwentyTwo(d, 19);
      if luxRaw != 0xFF_FFFF && luxRaw != 0x3F_FFFF {
        luminosity := Some(luxRaw as real * 0.01);
      }
    }
    assert luminosity == UnlessReal(TwentyTwo(d, 19), 0x3F_FFFF, TwentyTwo(d, 19) as real * 0.01);
    if |d| >= 28 {
      var seqRaw := U24(d, 25);
      if seqRaw != 0xFF_FFFF {
        sequence := Some(seqRaw);
      }
    }
    assert sequence == Unless(U24(d, 25), 0xFF_FFFF, U24(d, 25));
    return Ok(Measurement(format := 0xE1, temperature := temperature, humidity := humidity, pressure := pressure,
                          pm1 := pm1, pm25 := pm25, pm4 := pm4, pm10 := pm10, co2 := co2, vocIndex := vocIndex,
                          noxIndex := noxIndex, luminosity := luminosity, sequence := sequence));
  }

  // ---------------------------------------------------------------------------------------------------------
  // The way back.

  function RawLuminosity(l: Option<real>): int {
    if l.None? then 0x3F_FFFF else (l.value * 100.0).Floor
  }

  /** The five bytes that hold a 9-bit, a 9-bit and a 22-bit field. */
  function Packed(voc: int, nox: int, lux: int, k: nat): int {
    if k == 17 then voc / 2
    else if k == 18 then voc % 2 * 128 + nox / 4
    else if k == 19 then nox % 4 * 64 + lux / 0x1_0000
    else if k == 20 then lux / 256 % 256
    else lux % 256
  }

  /** A number of three digits to the base 256, the first of any size. */
  lemma Digits(a: nat, b: nat, c: nat)
    requires b < 256 && c < 256
    ensures var v := a * 0x1_0000 + b * 256 + c; v / 0x1_0000 == a && v / 256 % 256 == b && v % 256 == c
  {
    var v := a * 0x1_0000 + b * 256 + c;
    assert v == (a * 256 + b) * 256 + c;
    assert v / 256 == a * 256 + b;
  }

  lemma NineParts(d: seq<byte>, i: nat)
    requires i + 2 <= |d|
    ensures Nine(d, i) / 2 == d[i] as nat && Nine(d, i) % 2 == d[i + 1] as nat / 128
    ensures NextNine(d, i) / 4 == d[i] as nat % 128 && NextNine(d, i) % 4 == d[i + 1] as nat / 64
  {
  }

  /** The 9 + 9 + 22 bits neither overlap nor lose a bit. */
  lemma PackedComesBack(d: seq<byte>, k: nat)
    requires |d| >= 22 && 17 <= k <= 21
    ensures Packed(Nine(d, 17), NextNine(d, 18), TwentyTwo(d, 19), k) == d[k] as int
  {
    hide Nine, NextNine;
    NineParts(d, 17);
    NineParts(d, 18);
    Digits(d[19] as nat % 64, d[20] as nat, d[21] as nat);
  }

  function Pack24(v: int, i: nat, k: nat): int {
    if k == i then v / 0x1_0000 else if k == i + 1 then v / 256 % 256 else v % 256
  }

  lemma Pack24OfU24(d: seq<byte>, i: nat, k: nat)
    requires i + 3 <= |d| && i <= k <= i + 2
    ensures Pack24(U24(d, i), i, k) == d[k] as int
  {
    Digits(d[i] as nat, d[i + 1] as nat, d[i + 2] as nat);
  }

  /** Byte k of the frame a measurement came from; bytes 22 to 24 and the flags are not part of a measurement. */
  function Encoded(m: Measurement, k: nat): int {
    if k == 0 then m.format
    else if k <= 2 then Pair(RawCelsius(m.temperature), 1, k)
    else if k <= 4 then Pair(RawPercent(m.humidity), 3, k)
    else if k <= 6 then Pair(RawPascal(m.pressure), 5, k)
    else if k <= 8 then Pair(RawMicrograms(m.pm1), 7, k)
    else if k <= 10 then Pair(RawMicrograms(m.pm25), 9, k)
    else if k <= 12 then Pair(RawMicrograms(m.pm4), 11, k)
    else if k <= 14 then Pair(RawMicrograms(m.pm10), 13, k)
    else if k <= 16 then Pair(RawOr(m.co2, 0xFFFF), 15, k)
    else if k <= 21 then Packed(RawOr(m.vocIndex, 511), RawOr(m.noxIndex, 511), RawLuminosity(m.luminosity), k)
    else Pack24(RawOr(m.sequence, 0xFF_FFFF), 25, k)
  }

  /** The format and the raw values of all fields but the humidity come back. */
  lemma RawsComeBack(d: seq<byte>)
    requires Decode(d).Ok?
    ensures |d| >= MIN_LENGTH && Decode(d).m.format == d[0] as int && Decode(d).m.humidity == Percent(U16(d, 3))
    ensures var m := Decode(d).m;
            && RawCelsius(m.temperature) == U16(d, 1) && RawPascal(m.pressure) == U16(d, 5)
            && RawMicrograms(m.pm1) == U16(d, 7) && RawMicrograms(m.pm25) == U16(d, 9)
            && RawMicrograms(m.pm4) == U16(d, 11) && RawMicrograms(m.pm10) == U16(d, 13)
            && RawOr(m.co2, 0xFFFF) == U16(d, 15)
            && RawOr(m.vocIndex, 511) == Nine(d, 17) && RawOr(m.noxIndex, 511) == NextNine(d, 18)
            && RawLuminosity(m.luminosity) == TwentyTwo(d, 19) && RawOr(m.sequence, 0xFF_FFFF) == U24(d, 25)
  {
    FieldsComeBack(U16(d, 1));
    FieldsComeBack(U16(d, 5));
    FieldsComeBack(U16(d, 7));
    FieldsComeBack(U16(d, 9));
    FieldsComeBack(U16(d, 11));
    FieldsComeBack(U16(d, 13));
    assert TwentyTwo(d, 19) as real * 0.01 * 100.0 == TwentyTwo(d, 19) as real;
  }

  /** What the readings with decimals stand for, to the last digit; the way back alone would not see less than a unit. */
  lemma ReadingsExactly(d: seq<byte>)
    requires Decode(d).Ok?
    ensures var m := Decode(d).m;
            && (m.temperature.Some? ==> m.temperature.value * 200.0 == Signed16(U16(d, 1)) as real)
            && (m.humidity.Some? ==> m.humidity.value * 400.0 == (if U16(d, 3) > 40000 then 40000 else U16(d, 3)) as real)
            && (m.humidity.None? <==> U16(d, 3) == 0xFFFF)
            && (m.pm1.Some? ==> m.pm1.value * 10.0 == U16(d, 7) as real)
            && (m.pm25.Some? ==> m.pm25.value * 10.0 == U16(d, 9) as real)
            && (m.pm4.Some? ==> m.pm4.value * 10.0 == U16(d, 11) as real)
            && (m.pm10.Some? ==> m.pm10.value * 10.0 == U16(d, 13) as real)
            && (m.luminosity.Some? ==> m.luminosity.value * 100.0 == TwentyTwo(d, 19) as real)
  {
  }

  /**
   Every accepted frame comes back from its measurement: all of bytes 0 to 21 and 25 to 27 but the humidity, and the
   humidity exactly when it was not clamped.
   */
  lemma FrameComesBack(d: seq<byte>, k: nat)
    requires Decode(d).Ok? && (k <= 21 || 25 <= k <= 27)
    ensures k != 3 && k != 4 ==> Encoded(Decode(d).m, k) == d[k] as int
    ensures Encoded(Decode(d).m, 3) == d[3] as int && Encoded(Decode(d).m, 4) == d[4] as int <==> HumidityKept(U16(d, 3))
  {
    hide Decode, Nine, NextNine, TwentyTwo, U24, U16, Packed, Pack24, Percent, RawPercent, Pair, HumidityKept;
    RawsComeBack(d);
    HumidityComesBack(d, 3);
    if 1 <= k <= 16 {
      PairOfU16(d, (k - 1) / 2 * 2 + 1);
    } else if 17 <= k <= 21 {
      PackedComesBack(d, k);
    } else if k > 21 {
      Pack24OfU24(d, 25, k);
    }
  }

  /** Exactly the frames that are accepted. */
  lemma AcceptedExactly(d: seq<byte>)
    ensures Decode(d).Ok? <==> |d| >= MIN_LENGTH && d[0] == FORMAT && TemperatureInRange(U16(d, 1))
    ensures |d| >= MIN_LENGTH && d[0] == FORMAT && !TemperatureInRange(U16(d, 1)) ==> Decode(d) == Failed(TemperatureOutOfRange)
    ensures Decode(d).Ok? ==> Decode(d).m.format == d[0] as int
  {
  }
}
