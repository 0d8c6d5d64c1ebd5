/** Parse dispatches on the first byte and adds the air quality index. */
module FrameParser {
  import opened Bytes
  import opened Measurements
  import Format5
  import Format6
  import FormatE1

  /** int(x) of a float: towards zero. */
  function Trunc(x: real): int {
    if x >= 0.0 then x.Floor else -(-x).Floor
  }

  /** a / b of integers: towards zero. */
  function Quo(a: int, b: int): int
    requires b > 0
  {
    if a >= 0 then a / b else -(-a / b)
  }

  function AtMost500(score: int): int {
    if score > 500 then 500 else score
  }

  /** The score of a PM2.5 reading. */
  function PmScore(pm: real): int {
    AtMost500(
      if pm <= 12.0 then Trunc(pm * 50.0 / 12.0)
      else if pm <= 35.4 then 50 + Trunc((pm - 12.0) * 50.0 / 23.4)
      else if pm <= 55.4 then 100 + Trunc((pm - 35.4) * 50.0 / 20.0)
      else if pm <= 150.4 then 150 + Trunc((pm - 55.4) * 50.0 / 95.0)
      else if pm <= 250.4 then 200 + Trunc((pm - 150.4) * 100.0 / 100.0)
      else 300 + Trunc((pm - 250.4) * 200.0 / 250.0))
  }

  /** The score of a VOC index. */
  function VocScore(voc: int): int {
    AtMost500(
      if voc <= 100 then Quo(voc, 2)
      else if voc <= 200 then 50 + Quo(voc - 100, 2)
      else if voc <= 300 then 100 + Quo(voc - 200, 2)
      else if voc <= 400 then 150 + Quo(voc - 300, 2)
      else 200 + Quo(voc - 400, 2))
  }

  /** The score of a CO2 reading. */
  function Co2Score(co2: int): int {
    AtMost500(
      if co2 <= 600 then Quo(co2 * 50, 600)
      else if co2 <= 1000 then 50 + Quo((co2 - 600) * 50, 400)
      else if co2 <= 1500 then 100 + Quo((co2 - 1000) * 50, 500)
      else if co2 <= 2000 then 150 + Quo((co2 - 1500) * 50, 500)
      else 200 + Quo((co2 - 2000) * 100, 1000))
  }

  /** The scores of the readings a measurement has. */
  function Scores(m: Measurement): set<int> {
    (if m.pm25.Some? then {PmScore(m.pm25.value)} else {})
    + (if m.vocIndex.Some? then {VocScore(m.vocIndex.value)} else {})
    + (if m.co2.Some? then {Co2Score(m.co2.value)} else {})
  }

  predicate IsGreatest(x: int, s: set<int>) {
    x in s && forall y | y in s :: y <= x
  }

  function Max(a: int, b: int): int {
    if b > a then b else a
  }

  function AirQuality(m: Measurement): (aqi: Option<int>)
    ensures aqi.None? <==> Scores(m) == {}
    ensures aqi.Some? ==> IsGreatest(aqi.value, Scores(m) + {0})
  {
    var pm := if m.pm25.Some? then PmScore(m.pm25.value) else 0;
    var voc := if m.vocIndex.Some? then VocScore(m.vocIndex.value) else 0;
    var co2 := if m.co2.Some? then Co2Score(m.co2.value) else 0;
    assert m.pm25.Some? ==> pm in Scores(m);
    assert m.vocIndex.Some? ==> voc in Scores(m);
    assert m.co2.Some? ==> co2 in Scores(m);
    if m.pm25.None? && m.vocIndex.None? && m.co2.None? then None else Some(Max(Max(Max(0, pm), voc), co2))
  }

  /** calculateAQI: the greatest of the scores present, and never below zero. */
  method CalculateAQI(m: Measurement) returns (aqi: Option<int>)
    ensures aqi == AirQuality(m)
  {
    var maxScore := 0;
    var hasScore := false;
    if m.pm25.Some? {
      var score := PmScore(m.pm25.value);
      if score > maxScore {
        maxScore := score;
      }
      hasScore := true;
    }
    if m.vocIndex.Some? {
      var score := VocScore(m.vocIndex.value);
      if score > maxScore {
        maxScore := score;
      }
      hasScore := true;
    }
    if m.co2.Some? {
      var score := Co2Score(m.co2.value);
      if score > maxScore {
        maxScore := score;
      }
      hasScore := true;
    }
    aqi := if hasScore then Some(maxScore) else None;
  }

  lemma TruncMonotone(x: real, y: real)
    requires x <= y
    ensures Trunc(x) <= Trunc(y)
  {
  }

  /** Each branch of the PM2.5 score ends where the next one starts. */
  lemma PmScoreBounds(pm: real)
    ensures pm <= 12.0 ==> PmScore(pm) <= 50
    ensures 12.0 < pm <= 35.4 ==> 50 <= PmScore(pm) <= 100
    ensures 35.4 < pm <= 55.4 ==> 100 <= PmScore(pm) <= 150
    ensures 55.4 < pm <= 150.4 ==> 150 <= PmScore(pm) <= 200
    ensures 150.4 < pm <= 250.4 ==> 200 <= PmScore(pm) <= 300
    ensures 250.4 < pm ==> 300 <= PmScore(pm)
  {
  }

  /** The scores never fall as the reading grows, across all breakpoints. */
  lemma PmScoreMonotone(a: real, b: real)
    requires a <= b
    ensures PmScore(a) <= PmScore(b)
  {
    hide Trunc;
    PmScoreBounds(a);
    PmScoreBounds(b);
    TruncMonotone(a * 50.0 / 12.0, b * 50.0 / 12.0);
    TruncMonotone((a - 12.0) * 50.0 / 23.4, (b - 12.0) * 50.0 / 23.4);
    TruncMonotone((a - 35.4) * 50.0 / 20.0, (b - 35.4) * 50.0 / 20.0);
    TruncMonotone((a - 55.4) * 50.0 / 95.0, (b - 55.4) * 50.0 / 95.0);
    TruncMonotone((a - 150.4) * 100.0 / 100.0, (b - 150.4) * 100.0 / 100.0);
    TruncMonotone((a - 250.4) * 200.0 / 250.0, (b - 250.4) * 200.0 / 250.0);
  }

  /** The five VOC branches are one line: half the index, at most 500. */
  lemma VocScoreIsHalf(voc: int)
    ensures VocScore(voc) == AtMost500(Quo(voc, 2))
  {
  }

  lemma Co2ScoreMonotone(a: int, b: int)
    requires a <= b
    ensures Co2Score(a) <= Co2Score(b)
  {
  }

  /** The score is the line through two breakpoints, rounded down. */
  predicate OnLine(score: int, x: real, x0: real, s0: int, x1: real, s1: int) {
    && (score - s0) as real * (x1 - x0) <= (x - x0) * (s1 - s0) as real
    && (x - x0) * (s1 - s0) as real < (score - s0 + 1) as real * (x1 - x0)
  }

  /** The PM2.5 score of any reading, breakpoint by breakpoint. */
  lemma PmScoreExactly(pm: real)
    requires pm >= 0.0
    ensures pm <= 12.0 ==> OnLine(PmScore(pm), pm, 0.0, 0, 12.0, 50)
    ensures 12.0 <= pm <= 35.4 ==> OnLine(PmScore(pm), pm, 12.0, 50, 35.4, 100)
    ensures 35.4 <= pm <= 55.4 ==> OnLine(PmScore(pm), pm, 35.4, 100, 55.4, 150)
    ensures 55.4 <= pm <= 150.4 ==> OnLine(PmScore(pm), pm, 55.4, 150, 150.4, 200)
    ensures 150.4 <= pm <= 250.4 ==> OnLine(PmScore(pm), pm, 150.4, 200, 250.4, 300)
    ensures 250.4 <= pm <= 500.4 ==> OnLine(PmScore(pm), pm, 250.4, 300, 500.4, 500)
    ensures pm >= 500.4 ==> PmScore(pm) == 500
  {
    assert pm <= 12.0 ==> pm * 50.0 / 12.0 >= 0.0;
    assert pm > 12.0 ==> (pm - 12.0) * 50.0 / 23.4 >= 0.0;
    assert pm > 35.4 ==> (pm - 35.4) * 50.0 / 20.0 >= 0.0;
    assert pm > 55.4 ==> (pm - 55.4) * 50.0 / 95.0 >= 0.0;
    assert pm > 150.4 ==> (pm - 150.4) * 100.0 / 100.0 >= 0.0;
    assert pm > 250.4 ==> (pm - 250.4) * 200.0 / 250.0 >= 0.0;
  }

  /** The CO2 score of any reading, breakpoint by breakpoint. */
  lemma Co2ScoreExactly(co2: nat)
    ensures co2 <= 600 ==> OnLine(Co2Score(co2), co2 as real, 0.0, 0, 600.0, 50)
    ensures 600 <= co2 <= 1000 ==> OnLine(Co2Score(co2), co2 as real, 600.0, 50, 1000.0, 100)
    ensures 1000 <= co2 <= 1500 ==> OnLine(Co2Score(co2), co2 as real, 1000.0, 100, 1500.0, 150)
    ensures 1500 <= co2 <= 2000 ==> OnLine(Co2Score(co2), co2 as real, 1500.0, 150, 2000.0, 200)
    ensures 2000 <= co2 <= 5000 ==> OnLine(Co2Score(co2), co2 as real, 2000.0, 200, 5000.0, 500)
    ensures co2 >= 5000 ==> Co2Score(co2) == 500
  {
  }

  /** The VOC score of any index: half of it, rounded down, up to 500. */
  lemma VocScoreExactly(voc: nat)
    ensures voc <= 1000 ==> 2 * VocScore(voc) <= voc < 2 * VocScore(voc) + 2
    ensures voc >= 1000 ==> VocScore(voc) == 500
  {
  }

  /** b has every reading a has, and none of them lower. */
  predicate NoCleaner(a: Measurement, b: Measurement) {
    && (a.pm25.Some? ==> b.pm25.Some? && a.pm25.value <= b.pm25.value)
    && (a.vocIndex.Some? ==> b.vocIndex.Some? && a.vocIndex.value <= b.vocIndex.value)
    && (a.co2.Some? ==> b.co2.Some? && a.co2.value <= b.co2.value)
  }

  /** The index is monotone in every reading and never falls when a reading is added; it lies in 0 to 500. */
  lemma AirQualityMonotone(a: Measurement, b: Measurement)
    requires NoCleaner(a, b) && AirQuality(a).Some?
    ensures AirQuality(b).Some? && 0 <= AirQuality(a).value <= AirQuality(b).value <= 500
  {
    if a.pm25.Some? {
      PmScoreMonotone(a.pm25.value, b.pm25.value);
    }
    if a.vocIndex.Some? {
      VocScoreIsHalf(a.vocIndex.value);
      VocScoreIsHalf(b.vocIndex.value);
    }
    if a.co2.Some? {
      Co2ScoreMonotone(a.co2.value, b.co2.value);
    }
  }

  // ---------------------------------------------------------------------------------------------------------
  // Dispatch.

  function WithAirQuality(m: Measurement): Measurement {
    if m.format == 6 || m.format == 0xE1 then m.(airQualityIndex := AirQuality(m)) else m
  }

  /** Parser.Parse as a function. */
  function Parse(extendedValues: bool, d: seq<byte>): Result {
    if |d| < 1 then Failed(InvalidDataLength)
    else
      var r := if d[0] == Format5.FORMAT then Format5.Decode(d)
               else if d[0] == Format6.FORMAT then Format6.Decode(d)
               else if d[0] == FormatE1.FORMAT then FormatE1.Decode(d)
               else Failed(InvalidFormat);
      if r.Ok? && extendedValues then Ok(WithAirQuality(r.m)) else r
  }

  method ParseFrame(extendedValues: bool, d: seq<byte>) returns (r: Result)
    ensures r == Parse(extendedValues, d)
  {
    if |d| < 1 {
      return Failed(InvalidDataLength);
    }
    match d[0] {
      case 0x05 => r := Format5.ParseFormat5(d);
      case 0x06 => r := Format6.ParseFormat6(d);
      case 0xE1 => r := FormatE1.ParseFormatE1(d);
      case _ => return Failed(InvalidFormat);
    }
    if r.Ok? && extendedValues && (r.m.format == 6 || r.m.format == 0xE1) {
      var aqi := CalculateAQI(r.m);
      if aqi.Some? {
        r := Ok(r.m.(airQualityIndex := aqi));
      }
    }
  }

  /**
   Exactly the frames that are accepted: a known first byte, the length of its format, and for formats 5 and E1 a
   temperature in range or absent. The readings are those of the format's own decoder.
   */
  lemma ParsedExactly(extendedValues: bool, d: seq<byte>)
    ensures Parse(extendedValues, d).Ok? <==>
            || (|d| >= 24 && d[0] == 0x05 && TemperatureInRange(U16(d, 1)))
            || (|d| >= 15 && d[0] == 0x06)
            || (|d| >= 28 && d[0] == 0xE1 && TemperatureInRange(U16(d, 1)))
    ensures Parse(extendedValues, d).Ok? ==>
              Parse(extendedValues, d).m.(airQualityIndex := None) ==
              (if d[0] == 0x05 then Format5.Decode(d) else if d[0] == 0x06 then Format6.Decode(d) else FormatE1.Decode(d)).m
  {
    hide Format5.Decode, Format6.Decode, FormatE1.Decode;
    if d != [] {
      Format5.AcceptedExactly(d);
      Format6.AcceptedExactly(d);
      FormatE1.AcceptedExactly(d);
      DecodedNonNegative(d);
    }
  }

  /** An accepted frame has an index exactly when values are extended and it is of format 6 or E1 with a reading to score. */
  lemma IndexExactly(extendedValues: bool, d: seq<byte>)
    requires Parse(extendedValues, d).Ok?
    ensures var m := Parse(extendedValues, d).m;
            m.airQualityIndex.Some? <==>
            extendedValues && d[0] != 0x05 && (m.pm25.Some? || m.vocIndex.Some? || m.co2.Some?)
  {
    hide Format5.Decode, Format6.Decode, FormatE1.Decode, PmScore, VocScore, Co2Score;
    Format5.AcceptedExactly(d);
    Format6.AcceptedExactly(d);
    FormatE1.AcceptedExactly(d);
    DecodedNonNegative(d);
  }

  /** What an accepted frame says of itself: its format is its first byte, one of three. */
  lemma ParsedFormat(extendedValues: bool, d: seq<byte>)
    requires Parse(extendedValues, d).Ok?
    ensures d != [] && d[0] in {0x05, 0x06, 0xE1} && Parse(extendedValues, d).m.format == d[0] as int
  {
    Format5.AcceptedExactly(d);
    Format6.AcceptedExactly(d);
    FormatE1.AcceptedExactly(d);
  }

  predicate NonNegative(m: Measurement) {
    && (m.pm25.Some? ==> m.pm25.value >= 0.0)
    && (m.vocIndex.Some? ==> m.vocIndex.value >= 0)
    && (m.co2.Some? ==> m.co2.value >= 0)
  }

  /** Without negative readings the index is one of the scores. */
  lemma AirQualityIsScore(m: Measurement)
    requires NonNegative(m) && AirQuality(m).Some?
    ensures IsGreatest(AirQuality(m).value, Scores(m)) && 0 <= AirQuality(m).value <= 500
    ensures var aqi := AirQuality(m).value;
            && (m.pm25.Some? ==> PmScore(m.pm25.value) <= aqi)
            && (m.vocIndex.Some? ==> VocScore(m.vocIndex.value) <= aqi)
            && (m.co2.Some? ==> Co2Score(m.co2.value) <= aqi)
            && ((m.pm25.Some? && aqi == PmScore(m.pm25.value)) || (m.vocIndex.Some? && aqi == VocScore(m.vocIndex.value))
                || (m.co2.Some? && aqi == Co2Score(m.co2.value)))
  {
    hide PmScore, VocScore, Co2Score;
    AirQualityMonotone(m, m);
    ScoresNonNegative(m);
    assert Scores(m) != {};
    var s :| s in Scores(m);
    assert 0 <= s <= AirQuality(m).value;
  }

  lemma ScoresNonNegative(m: Measurement)
    requires NonNegative(m)
    ensures forall s | s in Scores(m) :: s >= 0
  {
    if m.pm25.Some? {
      PmScoreMonotone(0.0, m.pm25.value);
    }
  }

  lemma DecodedNonNegative(d: seq<byte>)
    ensures Format5.Decode(d).Ok? ==> Format5.Decode(d).m.airQualityIndex.None?
    ensures Format6.Decode(d).Ok? ==> NonNegative(Format6.Decode(d).m) && Format6.Decode(d).m.airQualityIndex.None?
    ensures FormatE1.Decode(d).Ok? ==> NonNegative(FormatE1.Decode(d).m) && FormatE1.Decode(d).m.airQualityIndex.None?
  {
  }

  /** The index of an accepted frame is the greatest score of the readings it has, in 0 to 500. */
  lemma ParsedAirQuality(d: seq<byte>)
    requires Parse(true, d).Ok? && Parse(true, d).m.airQualityIndex.Some?
    ensures var m := Parse(true, d).m;
            var aqi := m.airQualityIndex.value;
            && m.format != 5 && 0 <= aqi <= 500
            && (m.pm25.Some? ==> PmScore(m.pm25.value) <= aqi)
            && (m.vocIndex.Some? ==> VocScore(m.vocIndex.value) <= aqi)
            && (m.co2.Some? ==> Co2Score(m.co2.value) <= aqi)
            && ((m.pm25.Some? && aqi == PmScore(m.pm25.value)) || (m.vocIndex.Some? && aqi == VocScore(m.vocIndex.value))
                || (m.co2.Some? && aqi == Co2Score(m.co2.value)))
  {
    hide PmScore, VocScore, Co2Score, Format5.Decode, Format6.Decode, FormatE1.Decode;
    ParsedFormat(true, d);
    DecodedNonNegative(d);
    Format5.AcceptedExactly(d);
    Format6.AcceptedExactly(d);
    FormatE1.AcceptedExactly(d);
    AirQualityIsScore(Parse(true, d).m);
  }
}
