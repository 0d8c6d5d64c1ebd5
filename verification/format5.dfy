/** Frame format 5 (RAWv2): its parser, and the proof that a frame comes back from its measurement. */
module Format5 {
  import opened Bytes
  import opened Measurements

  const FORMAT: byte := 0x05
  const MIN_LENGTH := 24

  /** Bits 15 to 5 of the power word, offset 1600 mV; all ones mean no reading. */
  function Volts(power: nat): Option<real> {
    UnlessReal(power / 32, 0x7FF, (power / 32 + 1600) as real / 1000.0)
  }

  /** Bits 4 to 0 of the power word, 2 dBm per unit, offset -40; all ones mean no reading. */
  function Dbm(power: nat): Option<int> {
    Unless(power % 32, 0x1F, power % 32 * 2 - 40)
  }

  /** ParseFormat5 as a function: the fields of the frame, or the first reason to reject it. */
  function Decode(d: seq<byte>): Result {
    if |d| < MIN_LENGTH then Failed(InvalidDataLength)
    else if d[0] != FORMAT then Failed(InvalidFormat)
    else
      var t := Celsius(U16(d, 1));
      if t.Some? && !SensorRange(t.value) then Failed(TemperatureOutOfRange)
      else
        Ok(Measurement(
          format := 5,
          temperature := t,
          humidity := Percent(U16(d, 3)),
          pressure := Pascal(U16(d, 5)),
          accelerationX := MilliG(U16(d, 7)),
          accelerationY := MilliG(U16(d, 9)),
          accelerationZ := MilliG(U16(d, 11)),
          batteryVoltage := Volts(U16(d, 13)),
          txPower := Dbm(U16(d, 13)),
          movementCounter := Unless(d[15], 0xFF, d[15]),
          sequence := Unless(U16(d, 16), 0xFFFF, U16(d, 16))))
  }

  /** The parser: the fields of a fresh measurement are filled one after another. */
  method ParseFormat5(d: seq<byte>) returns (r: Result)
    ensures r == Decode(d)
  {
    if |d| < MIN_LENGTH {
      return Failed(InvalidDataLength);
    }
    if d[0] != FORMAT {
      return Failed(InvalidFormat);
    }
    var temperature, humidity, pressure := None, None, None;
    var accelerationX, accelerationY, accelerationZ := None, None, None;
    var batteryVoltage, movementCounter, sequence := None, None, None;
    var txPower: Option<int> := None;
    var tempRaw := Signed16(U16(d, 1));
    if tempRaw != -32768 {
      var tempC := tempRaw as real * 0.005;
      if tempC < -40.0 || tempC > 85.0 {
        return Failed(TemperatureOutOfRange);
      }
      temperature := Some(tempC);
    }
    assert temperature == Celsius(U16(d, 1));
    var humidityRaw := U16(d, 3);
    if humidityRaw != 65535 {
      var h := humidityRaw as real * 0.0025;
      if h > 100.0 {
        h := 100.0;
      }
      humidity := Some(h);
    }
    assert humidity == Percent(humidityRaw);
    var pressureRaw := U16(d, 5);
    if pressureRaw != 65535 {
      pressure := Some(pressureRaw + 50000);
    }
    assert pressure == Pascal(pressureRaw);
    var accelXRaw := Signed16(U16(d, 7));
    if accelXRaw != -32768 {
      accelerationX := Some(accelXRaw);
    }
    assert accelerationX == MilliG(U16(d, 7));
    var accelYRaw := Signed16(U16(d, 9));
    if accelYRaw != -32768 {
      accelerationY := Some(accelYRaw);
    }
    assert accelerationY == MilliG(U16(d, 9));
    var accelZRaw := Signed16(U16(d, 11));
    if accelZRaw != -32768 {
      accelerationZ := Some(accelZRaw);
    }
    assert accelerationZ == MilliG(U16(d, 11));
    var powerRaw := U16(d, 13);
    if powerRaw != 0xFFFF {
      var voltageRaw := powerRaw / 32;
      if voltageRaw != 0x7FF {
        batteryVoltage := Some((voltageRaw + 1600) as real / 1000.0);
      }
      var txRaw: int := powerRaw % 32;
      if txRaw != 0x1F {
        txPower := Some(txRaw * 2 - 40);
      }
    }
    assert batteryVoltage == Volts(powerRaw) && txPower == Dbm(powerRaw);
    var movementRaw := d[15];
    if movementRaw != 255 {
      movementCounter := Some(movementRaw as int);
    }
    assert movementCounter == Unless(d[15], 0xFF, d[15]);
    var sequenceRaw := U16(d, 16);
    if sequenceRaw != 65535 {
      sequence := Some(sequenceRaw);
    }
    assert sequence == Unless(sequenceRaw, 0xFFFF, sequenceRaw);
    return Ok(Measurement(format := 5, temperature := temperature, humidity := humidity, pressure := pressure,
                          accelerationX := accelerationX, accelerationY := accelerationY, accelerationZ := accelerationZ,
                          batteryVoltage := batteryVoltage, txPower := txPower, movementCounter := movementCounter,
                          sequence := sequence));
  }

  /** Exactly the frames that are accepted. */
  lemma AcceptedExactly(d: seq<byte>)
    ensures Decode(d).Ok? <==> |d| >= MIN_LENGTH && d[0] == FORMAT && TemperatureInRange(U16(d, 1))
    ensures |d| >= MIN_LENGTH && d[0] == FORMAT && !TemperatureInRange(U16(d, 1)) ==> Decode(d) == Failed(TemperatureOutOfRange)
    ensures Decode(d).Ok? ==> Decode(d).m.format == d[0] as int
  {
  }

  // ---------------------------------------------------------------------------------------------------------
  // The way back.

  /** The power word: 11 bits of voltage, 5 bits of transmission power. */
  function RawPower(volts: Option<real>, dbm: Option<int>): int {
    32 * (if volts.None? then 0x7FF else (volts.value * 1000.0).Floor - 1600)
    + (if dbm.None? then 0x1F else (dbm.value + 40) / 2)
  }

  lemma PowerComesBack(power: nat)
    requires power < 0x1_0000
    ensures RawPower(Volts(power), Dbm(power)) == power
  {
    var raw := power / 32 + 1600;
    assert raw as real / 1000.0 * 1000.0 == raw as real;
  }

  /** Byte k of the frame a measurement came from; the address in bytes 18 to 23 is not part of a measurement. */
  function Encoded(m: Measurement, k: nat): int {
    if k == 0 then m.format
    else if k <= 2 then Pair(RawCelsius(m.temperature), 1, k)
    else if k <= 4 then Pair(RawPercent(m.humidity), 3, k)
    else if k <= 6 then Pair(RawPascal(m.pressure), 5, k)
    else if k <= 8 then Pair(RawMilliG(m.accelerationX), 7, k)
    else if k <= 10 then Pair(RawMilliG(m.accelerationY), 9, k)
    else if k <= 12 then Pair(RawMilliG(m.accelerationZ), 11, k)
    else if k <= 14 then Pair(RawPower(m.batteryVoltage, m.txPower), 13, k)
    else if k == 15 then RawOr(m.movementCounter, 0xFF)
    else Pair(RawOr(m.sequence, 0xFFFF), 16, k)
  }

  /** The raw values of all fields but the humidity come back. */
  lemma RawsComeBack(d: seq<byte>)
    requires Decode(d).Ok?
    ensures var m := Decode(d).m;
            && RawCelsius(m.temperature) == U16(d, 1) && RawPascal(m.pressure) == U16(d, 5)
            && RawMilliG(m.accelerationX) == U16(d, 7) && RawMilliG(m.accelerationY) == U16(d, 9)
            && RawMilliG(m.accelerationZ) == U16(d, 11) && RawPower(m.batteryVoltage, m.txPower) == U16(d, 13)
            && RawOr(m.movementCounter, 0xFF) == d[15] as int && RawOr(m.sequence, 0xFFFF) == U16(d, 16)
  {
    FieldsComeBack(U16(d, 1));
    FieldsComeBack(U16(d, 5));
    FieldsComeBack(U16(d, 7));
    FieldsComeBack(U16(d, 9));
    FieldsComeBack(U16(d, 11));
    PowerComesBack(U16(d, 13));
  }

  /** What the readings with decimals stand for, to the last digit; the way back alone would not see less than a unit. */
  lemma ReadingsExactly(d: seq<byte>)
    requires Decode(d).Ok?
    ensures var m := Decode(d).m;
            && (m.temperature.Some? ==> m.temperature.value * 200.0 == Signed16(U16(d, 1)) as real)
            && (m.humidity.Some? ==> m.humidity.value * 400.0 == (if U16(d, 3) > 40000 then 40000 else U16(d, 3)) as real)
            && (m.humidity.None? <==> U16(d, 3) == 0xFFFF)
            && (m.batteryVoltage.Some? ==> m.batteryVoltage.value * 1000.0 == (1600 + U16(d, 13) / 32) as real)
            && (m.txPower.Some? ==> m.txPower.value == 2 * (U16(d, 13) % 32) - 40)
  {
  }

  /** Every accepted frame comes back up to byte 17, the humidity exactly when it was not clamped. */
  lemma FrameComesBack(d: seq<byte>, k: nat)
    requires Decode(d).Ok? && k <= 17
    ensures k != 3 && k != 4 ==> Encoded(Decode(d).m, k) == d[k] as int
    ensures Encoded(Decode(d).m, 3) == d[3] as int && Encoded(Decode(d).m, 4) == d[4] as int <==> HumidityKept(U16(d, 3))
  {
    var m := Decode(d).m;
    assert Encoded(m, 3) == Pair(RawPercent(m.humidity), 3, 3) && Encoded(m, 4) == Pair(RawPercent(m.humidity), 3, 4);
    HumidityComesBack(d, 3);
    RawsComeBack(d);
    if 1 <= k <= 14 {
      PairOfU16(d, (k - 1) / 2 * 2 + 1);
    } else if k >= 16 {
      PairOfU16(d, 16);
    }
  }
}
