/** Frame format 6 (Ruuvi Air): its parser, and exactly which frames come back from their measurement. */
module Format6 {
  import opened Bytes
  import opened Measurements
  import FormatE1

  const FORMAT: byte := 0x06
  const MIN_LENGTH := 15

  /** A temperature outside the range of the sensors is taken as no reading. */
  function TolerantCelsius(raw: nat): Option<real>
    requires raw < 0x1_0000
  {
    var t := Celsius(raw);
    if t.Some? && !SensorRange(t.value) then None else t
  }

  /** Zero counts as no reading, like the sentinel. */
  function NonZero(raw: int, sentinel: int): Option<int> {
    if raw == 0 then None else Unless(raw, sentinel, raw)
  }

  function NonZeroMicrograms(raw: nat): Option<real> {
    if raw == 0 then None else Micrograms(raw)
  }

  /** ParseFormat6 as a function; the 9-bit fields are packed as in format E1. */
  function Decode(d: seq<byte>): Result {
    if |d| < MIN_LENGTH then Failed(InvalidDataLength)
    else if d[0] != FORMAT then Failed(InvalidFormat)
    else
      Ok(Measurement(
        format := 6,
        temperature := TolerantCelsius(U16(d, 1)),
        humidity := Percent(U16(d, 3)),
        pressure := Pascal(U16(d, 5)),
        pm25 := NonZeroMicrograms(U16(d, 7)),
        co2 := NonZero(U16(d, 9), 0xFFFF),
        vocIndex := NonZero(FormatE1.Nine(d, 11), 511),
        noxIndex := Unless(FormatE1.NextNine(d, 12), 511, FormatE1.NextNine(d, 12)),
        sequence := Unless(d[14], 0xFF, d[14])))
  }

  /** The parser: the fields of a fresh measurement are filled one after another. */
  method ParseFormat6(d: seq<byte>) returns (r: Result)
    ensures r == Decode(d)
  {
    if |d| < MIN_LENGTH {
      return Failed(InvalidDataLength);
    }
    if d[0] != FORMAT {
      return Failed(InvalidFormat);
    }
    var temperature, humidity, pressure, pm25 := None, None, None, None;
    var co2, vocIndex, noxIndex, sequence := None, None, None, None;
    var tempRaw := Signed16(U16(d, 1));
    if tempRaw != -32768 {
      var tempC := tempRaw as real * 0.005;
      if -40.0 <= tempC && tempC <= 85.0 {
        temperature := Some(tempC);
      }
    }
    assert temperature == TolerantCelsius(U16(d, 1));
    var humidityRaw := U16(d, 3);
    if humidityRaw != 65535 {
      var h := humidityRaw as real * 0.0025;
      if h > 100.0 {
        h := 100.0;
      }
      humidity := Some(h);
    }
    assert humidity == Percent(humidityRaw);
    var pressureRaw := U16(d, 5);
    if pressureRaw != 65535 {
      pressure := Some(pressureRaw + 50000);
    }
    assert pressure == Pascal(pressureRaw);
    if |d| >= 9 {
      var pm25Raw := U16(d, 7);
      if pm25Raw != 65535 && pm25Raw != 0 {
        pm25 := Some(pm25Raw as real * 0.1);
      }
    }
    assert pm25 == NonZeroMicrograms(U16(d, 7));
    if |d| >= 11 {
      var co2Raw := U16(d, 9);
      if co2Raw != 65535 && co2Raw != 0 {
        co2 := Some(co2Raw);
      }
    }
    assert co2 == NonZero(U16(d, 9), 0xFFFF);
    if |d| >= 14 {
      var vocRaw := FormatE1.Nine(d, 11);
      if vocRaw != 511 && vocRaw > 0 {
        vocIndex := Some(vocRaw);
      }
      var noxRaw := FormatE1.NextNine(d, 12);
      if noxRaw != 511 {
        noxIndex := Some(noxRaw);
      }
    }
    assert vocIndex == NonZero(FormatE1.Nine(d, 11), 511);
    assert noxIndex == Unless(FormatE1.NextNine(d, 12), 511, FormatE1.NextNine(d, 12));
    if |d| >= 15 {
      var seqByte := d[14];
      if seqByte != 0xFF {
        sequence := Some(seqByte as int);
      }
    }
    assert sequence == Unless(d[14], 0xFF, d[14]);
    return Ok(Measurement(format := 6, temperature := temperature, humidity := humidity, pressure := pressure,
                          pm25 := pm25, co2 := co2, vocIndex := vocIndex, noxIndex := noxIndex, sequence := sequence));
  }

  // ---------------------------------------------------------------------------------------------------------
  // The way back.

  /** The raw fields of a frame: temperature, humidity, pressure, PM2.5, CO2, VOC, NOx, sequence. */
  datatype Raw = Raw(t: int, h: int, p: int, pm25: int, co2: int, voc: int, nox: int, sequence: int)

  function RawOf(d: seq<byte>): Raw
    requires |d| >= MIN_LENGTH
  {
    Raw(U16(d, 1), U16(d, 3), U16(d, 5), U16(d, 7), U16(d, 9), FormatE1.Nine(d, 11), FormatE1.NextNine(d, 12), d[14])
  }

  /** The raw fields read back from a measurement, None giving the sentinel. */
  function RawFrom(m: Measurement): Raw {
    Raw(RawCelsius(m.temperature), RawPercent(m.humidity), RawPascal(m.pressure), RawMicrograms(m.pm25),
        RawOr(m.co2, 0xFFFF), RawOr(m.vocIndex, 511), RawOr(m.noxIndex, 511), RawOr(m.sequence, 0xFF))
  }

  /** The raw fields determine bytes 1 to 12, the top two bits of byte 13, and byte 14. */
  lemma RawDeterminesBytes(d: seq<byte>, e: seq<byte>)
    requires |d| >= MIN_LENGTH && |e| >= MIN_LENGTH
    ensures RawOf(d) == RawOf(e) <==> d[1..13] == e[1..13] && d[13] / 64 == e[13] / 64 && d[14] == e[14]
  {
    hide U16, Pair, FormatE1.Nine, FormatE1.NextNine;
    FormatE1.NineParts(d, 11);
    FormatE1.NineParts(d, 12);
    FormatE1.NineParts(e, 11);
    FormatE1.NineParts(e, 12);
    if RawOf(d) == RawOf(e) {
      forall k | 1 <= k <= 10
        ensures d[k] == e[k]
      {
        PairOfU16(d, (k - 1) / 2 * 2 + 1);
        PairOfU16(e, (k - 1) / 2 * 2 + 1);
      }
      assert d[12] == d[12] / 128 * 128 + d[12] % 128 && e[12] == e[12] / 128 * 128 + e[12] % 128;
    } else if d[1..13] == e[1..13] && d[13] / 64 == e[13] / 64 && d[14] == e[14] {
      SameBytes(d, e);
    }
  }

  lemma SameBytes(d: seq<byte>, e: seq<byte>)
    requires |d| >= MIN_LENGTH && |e| >= MIN_LENGTH
    requires d[1..13] == e[1..13] && d[13] / 64 == e[13] / 64 && d[14] == e[14]
    ensures RawOf(d) == RawOf(e)
  {
    assert forall k | 1 <= k <= 12 :: d[k] == d[1..13][k - 1] == e[1..13][k - 1] == e[k];
  }

  /** Which readings there are, and what those with decimals stand for, to the last digit. */
  lemma ReadingsExactly(d: seq<byte>)
    requires Decode(d).Ok?
    ensures var m, t := Decode(d).m, U16(d, 1);
            && (m.temperature.None? <==> t == 0x8000 || Signed16(t) < -8000 || Signed16(t) > 17000)
            && (m.temperature.Some? ==> m.temperature.value * 200.0 == Signed16(t) as real)
            && (m.humidity.None? <==> U16(d, 3) == 0xFFFF)
            && (m.humidity.Some? ==> m.humidity.value * 400.0 == (if U16(d, 3) > 40000 then 40000 else U16(d, 3)) as real)
            && (m.pm25.None? <==> U16(d, 7) == 0xFFFF || U16(d, 7) == 0)
            && (m.pm25.Some? ==> m.pm25.value * 10.0 == U16(d, 7) as real)
            && m.co2 == (if U16(d, 9) == 0xFFFF || U16(d, 9) == 0 then None else Some(U16(d, 9)))
            && (m.vocIndex.None? <==> FormatE1.Nine(d, 11) == 511 || FormatE1.Nine(d, 11) == 0)
            && (m.vocIndex.Some? ==> m.vocIndex.value == FormatE1.Nine(d, 11))
  {
  }

  /** A frame comes back from its measurement exactly when nothing in it was clamped, dropped or taken for no reading. */
  lemma FrameComesBack(d: seq<byte>)
    requires Decode(d).Ok?
    ensures RawFrom(Decode(d).m) == RawOf(d) <==>
            && TemperatureInRange(U16(d, 1)) && HumidityKept(U16(d, 3))
            && U16(d, 7) != 0 && U16(d, 9) != 0 && FormatE1.Nine(d, 11) != 0
  {
    FieldsComeBack(U16(d, 1));
    FieldsComeBack(U16(d, 3));
    FieldsComeBack(U16(d, 5));
    FieldsComeBack(U16(d, 7));
  }

  /** Only the length and the first byte decide whether a frame is accepted. */
  lemma AcceptedExactly(d: seq<byte>)
    ensures Decode(d).Ok? <==> |d| >= MIN_LENGTH && d[0] == FORMAT
    ensures Decode(d).Ok? ==> Decode(d).m.format == d[0] as int
  {
  }
}
