/** LE Advertising Report and LE Extended Advertising Report events: the bytes, their printer and their parser. */
module AdvReports {
  import opened Bytes

  const LE_META: byte := 0x3E
  const ADV_REPORT: byte := 0x02
  const EXT_ADV_REPORT: byte := 0x0D

  /** advReport; D is the representation of its AD data. */
  datatype AdvReport<D> = AdvReport(addr: string, rssi: int, data: D, sid: byte, status: byte)

  type Report = AdvReport<seq<byte>>

  /** A report is a header ending in the data length, the data, and a trailer. */
  datatype Layout = Legacy | Extended {
    function Subevent(): byte {
      if Legacy? then ADV_REPORT else EXT_ADV_REPORT
    }

    function Header(): nat {
      if Legacy? then 9 else 24
    }

    function Trailer(): nat {
      if Legacy? then 1 else 0
    }
  }

  datatype ParseError = TruncatedHeader(report: nat) | TruncatedData(report: nat)

  datatype Parsed = Parsed(reports: seq<Report>, error: Option<ParseError>)

  /** Where the report that starts at p ends. */
  function End(l: Layout, ev: seq<byte>, p: nat): nat
    requires p + l.Header() <= |ev|
  {
    p + l.Header() + ev[p + l.Header() - 1] as nat + l.Trailer()
  }

  /** These bytes are exactly one report. */
  predicate IsReport(l: Layout, w: seq<byte>) {
    |w| >= l.Header() && |w| == End(l, w, 0)
  }

  /** The report held in exactly these bytes. */
  function Decode(l: Layout, w: seq<byte>): Report
    requires IsReport(l, w)
  {
    match l
    case Legacy =>
      AdvReport(AddrText(w[2..8]), Signed8(w[|w| - 1]), w[9..|w| - 1], 0, 0)
    case Extended =>
      AdvReport(AddrText(w[3..9]), Signed8(w[13]), w[24..], w[11], (LE16(w[0], w[1]) / 32 % 4) as byte)
  }

  /** n reports, the first of them numbered i, from position p on. */
  function ParseFrom(l: Layout, ev: seq<byte>, p: nat, n: nat, i: nat): Parsed
    decreases n
  {
    if n == 0 then Parsed([], None)
    else if p + l.Header() > |ev| then Parsed([], Some(TruncatedHeader(i)))
    else if End(l, ev, p) > |ev| then Parsed([], Some(TruncatedData(i)))
    else
      var end := End(l, ev, p);
      var tail := ParseFrom(l, ev, end, n - 1, i + 1);
      Parsed([Decode(l, ev[p..end])] + tail.reports, tail.error)
  }

  /** A report's data fit its length byte, and its address is written out in full and in upper case. */
  lemma {:induction false} ParsedInBounds(l: Layout, ev: seq<byte>, p: nat, n: nat, i: nat)
    ensures forall r | r in ParseFrom(l, ev, p, n, i).reports :: |r.data| <= 255 && |r.addr| == 17 && NoLowerCase(r.addr)
    decreases n
  {
    hide HexPairs;
    if n > 0 && p + l.Header() <= |ev| && End(l, ev, p) <= |ev| {
      HexPairsUpperCase(if l.Legacy? then ev[p..End(l, ev, p)][2..8] else ev[p..End(l, ev, p)][3..9]);
      ParsedInBounds(l, ev, End(l, ev, p), n - 1, i + 1);
    }
  }

  /** What fits into an event of limited length, whose reports start at 4 or later. */
  lemma {:induction false} ParsedInBuffer(l: Layout, ev: seq<byte>, p: nat, n: nat, i: nat)
    requires p >= 4
    ensures forall r | r in ParseFrom(l, ev, p, n, i).reports ::
              && |r.data| + 14 <= |ev|
              && (r.status == 1 ==> |r.data| + 28 <= |ev|)
    decreases n
  {
    if n > 0 && p + l.Header() <= |ev| && End(l, ev, p) <= |ev| {
      ParsedInBuffer(l, ev, End(l, ev, p), n - 1, i + 1);
    }
  }

  /** Which kind of report event these bytes announce, if any. */
  function EventLayout(ev: seq<byte>): Option<Layout> {
    if |ev| < 4 || ev[0] != LE_META then None
    else if ev[2] == EXT_ADV_REPORT then Some(Extended)
    else if ev[2] == ADV_REPORT then Some(Legacy)
    else None
  }

  /** parseAdvReports as a function of the event's bytes. */
  function Parse(ev: seq<byte>): Parsed {
    match EventLayout(ev)
    case None => Parsed([], None)
    case Some(l) => ParseFrom(l, ev, 4, ev[3], 0)
  }

  /** Any other event, or one too short, holds no reports and is no error. */
  lemma OtherEventsIgnored(ev: seq<byte>)
    requires |ev| < 4 || ev[0] != 0x3E || (ev[2] != 0x02 && ev[2] != 0x0D)
    ensures Parse(ev) == Parsed([], None)
  {
  }

  // ---------------------------------------------------------------------------------------------------------
  // The printer.

  /** The fields of one report as the controller sends them. */
  datatype WireReport =
    | LegacyWire(eventType: byte, addrType: byte, addr: seq<byte>, data: seq<byte>, rssi: byte)
    | ExtendedWire(eventBits: nat, addrType: byte, addr: seq<byte>, primaryPhy: byte, secondaryPhy: byte, sid: byte,
                   txPower: byte, rssi: byte, interval: nat, directType: byte, directAddr: seq<byte>, data: seq<byte>)
  {
    predicate Encodable() {
      && |addr| == 6
      && |data| <= 255
      && (ExtendedWire? ==> eventBits < 0x1_0000 && interval < 0x1_0000 && |directAddr| == 6)
    }

    function Layout(): Layout {
      if LegacyWire? then Legacy else Extended
    }

    function Encode(): seq<byte>
      requires Encodable()
    {
      match this
      case LegacyWire(_, _, _, _, _) =>
        [eventType, addrType] + addr + [|data| as byte] + data + [rssi]
      case ExtendedWire(_, _, _, _, _, _, _, _, _, _, _, _) =>
        [Low(eventBits), High(eventBits), addrType] + addr + [primaryPhy, secondaryPhy, sid, txPower, rssi,
        Low(interval), High(interval), directType] + directAddr + [|data| as byte] + data
    }

    /** What the scanner is meant to see; bits 5 and 6 of an extended event type are the data status. */
    function Meaning(): Report
      requires Encodable()
    {
      match this
      case LegacyWire(_, _, _, _, _) => AdvReport(AddrText(addr), Signed8(rssi), data, 0, 0)
      case ExtendedWire(_, _, _, _, _, _, _, _, _, _, _, _) =>
        AdvReport(AddrText(addr), Signed8(rssi), data, sid, (eventBits / 32 % 4) as byte)
    }
  }

  ghost predicate AllOf(l: Layout, ws: seq<WireReport>) {
    forall w | w in ws :: w.Encodable() && w.Layout() == l
  }

  function Encodings(ws: seq<WireReport>): seq<seq<byte>>
    requires forall w | w in ws :: w.Encodable()
  {
    seq(|ws|, i requires 0 <= i < |ws| => ws[i].Encode())
  }

  function Meanings(ws: seq<WireReport>): seq<Report>
    requires forall w | w in ws :: w.Encodable()
  {
    seq(|ws|, i requires 0 <= i < |ws| => ws[i].Meaning())
  }

  /** An event carrying up to 255 reports; the parameter length byte is not looked at. */
  function EncodeEvent(l: Layout, paramLen: byte, ws: seq<WireReport>): seq<byte>
    requires |ws| <= 255 && forall w | w in ws :: w.Encodable()
  {
    [LE_META, paramLen, l.Subevent(), |ws| as byte] + Join(Encodings(ws))
  }

  /** An encoded report is exactly one report. */
  lemma EncodedIsReport(w: WireReport)
    requires w.Encodable()
    ensures IsReport(w.Layout(), w.Encode())
  {
  }

  /** Field by field, decoding one encoded report gives its meaning. */
  lemma DecodeEncode(w: WireReport)
    requires w.Encodable() && IsReport(w.Layout(), w.Encode())
    ensures Decode(w.Layout(), w.Encode()) == w.Meaning()
  {
    var b := w.Encode();
    match w
    case LegacyWire(_, _, addr, data, _) =>
      assert b[2..8] == addr && b[9..|b| - 1] == data;
    case ExtendedWire(bits, _, addr, _, _, _, _, _, _, _, _, data) =>
      assert b[3..9] == addr && b[24..] == data;
      WordComesBack(bits);
  }

  function Join(bs: seq<seq<byte>>): seq<byte> {
    if bs == [] then [] else bs[0] + Join(bs[1..])
  }

  /** How many of the blocks lie wholly inside the first k bytes of their concatenation. */
  function Whole(bs: seq<seq<byte>>, k: nat): (m: nat)
    ensures m <= |bs|
  {
    if bs == [] || |bs[0]| > k then 0 else 1 + Whole(bs[1..], k - |bs[0]|)
  }

  /** Whole counts exactly the blocks whose last byte is inside: the next one, if any, is cut. */
  lemma {:induction false} WholeIsExact(bs: seq<seq<byte>>, k: nat)
    ensures |Join(bs[..Whole(bs, k)])| <= k
    ensures Whole(bs, k) < |bs| ==> |Join(bs[..Whole(bs, k) + 1])| > k
    ensures k >= |Join(bs)| ==> Whole(bs, k) == |bs|
  {
    if bs != [] {
      assert forall m | 1 <= m <= |bs| :: bs[..m][1..] == bs[1..][..m - 1] && bs[..m][0] == bs[0];
      if |bs[0]| <= k {
        WholeIsExact(bs[1..], k - |bs[0]|);
      }
    }
  }

  function Decodings(l: Layout, bs: seq<seq<byte>>): seq<Report>
    requires forall b | b in bs :: IsReport(l, b)
  {
    seq(|bs|, i requires 0 <= i < |bs| => Decode(l, bs[i]))
  }

  /** What the parse of the first k bytes of these reports must be, report by report. */
  function Prefix(l: Layout, bs: seq<seq<byte>>, k: nat, i: nat): Parsed
    requires forall b | b in bs :: IsReport(l, b)
  {
    if bs == [] then Parsed([], None)
    else if |bs[0]| > k then Parsed([], Some(if k < l.Header() then TruncatedHeader(i) else TruncatedData(i)))
    else
      var tail := Prefix(l, bs[1..], k - |bs[0]|, i + 1);
      Parsed([Decode(l, bs[0])] + tail.reports, tail.error)
  }

  /** Prefix holds the reports wholly inside the k bytes, and an error exactly when some report is cut. */
  lemma {:induction false} PrefixIsWhole(l: Layout, bs: seq<seq<byte>>, k: nat, i: nat)
    requires forall b | b in bs :: IsReport(l, b)
    ensures var p, m := Prefix(l, bs, k, i), Whole(bs, k);
            && p.reports == Decodings(l, bs)[..m]
            && p.error == if m == |bs| then None
                          else if k - |Join(bs[..m])| < l.Header() then Some(TruncatedHeader(i + m))
                          else Some(TruncatedData(i + m))
    decreases bs
  {
    hide Decode, IsReport;
    var m := Whole(bs, k);
    if bs != [] && |bs[0]| <= k {
      PrefixIsWhole(l, bs[1..], k - |bs[0]|, i + 1);
      assert Decodings(l, bs) == [Decode(l, bs[0])] + Decodings(l, bs[1..]);
      assert bs[..m][0] == bs[0] && bs[..m][1..] == bs[1..][..m - 1];
    } else {
      assert bs[..0] == [];
    }
  }

  lemma JoinedAt(bs: seq<seq<byte>>, ev: seq<byte>, p: nat)
    requires bs != [] && p <= |ev| && Join(bs) <= ev[p..]
    ensures p + |bs[0]| <= |ev| && ev[p..p + |bs[0]|] == bs[0] && Join(bs[1..]) <= ev[p + |bs[0]|..]
  {
    var n := |bs[0]|;
    assert bs[0] == Join(bs)[..n] == ev[p..][..n] == ev[p..p + n];
    assert Join(bs[1..]) == Join(bs)[n..] <= ev[p..][n..] == ev[p + n..];
  }

  /** The parse from p of an event cut to k bytes, when b is the next report. */
  lemma ParseNext(l: Layout, b: seq<byte>, ev: seq<byte>, p: nat, k: nat, n: nat, i: nat)
    requires p <= k <= |ev| && IsReport(l, b) && b <= ev[p..]
    ensures var whole := ParseFrom(l, ev[..k], p, n + 1, i);
            if |b| <= k - p then
              var tail := ParseFrom(l, ev[..k], p + |b|, n, i + 1);
              whole == Parsed([Decode(l, b)] + tail.reports, tail.error)
            else
              whole == Parsed([], Some(if k - p < l.Header() then TruncatedHeader(i) else TruncatedData(i)))
  {
    hide Decode;
    var cut := ev[..k];
    if p + l.Header() <= k {
      assert cut[p + l.Header() - 1] == ev[p..][l.Header() - 1] == b[l.Header() - 1];
      assert End(l, cut, p) == p + |b|;
    }
    if |b| <= k - p {
      assert cut[p..p + |b|] == ev[p..][..|b|] == b;
    }
  }

  /** The list part of the round trip: any bytes may follow, any number of bytes may be missing at the end. */
  lemma {:induction false} ParseJoined(l: Layout, bs: seq<seq<byte>>, ev: seq<byte>, p: nat, k: nat, i: nat)
    requires p <= k <= |ev| && Join(bs) <= ev[p..] && forall b | b in bs :: IsReport(l, b)
    ensures ParseFrom(l, ev[..k], p, |bs|, i) == Prefix(l, bs, k - p, i)
    decreases bs
  {
    hide Decode, IsReport, Join, End;
    if bs != [] {
      var b := bs[0];
      assert b in bs;
      JoinedAt(bs, ev, p);
      ParseNext(l, b, ev, p, k, |bs| - 1, i);
      if |b| <= k - p {
        ParseJoined(l, bs[1..], ev, p + |b|, k, i + 1);
      }
    }
  }

  /** Event level of the same: the header is four bytes, the fourth being the number of reports. */
  lemma ParseEvent(l: Layout, ev: seq<byte>, bs: seq<seq<byte>>, k: nat)
    requires 4 <= k <= |ev| && ev[0] == LE_META && ev[2] == l.Subevent() && ev[3] as nat == |bs|
    requires Join(bs) <= ev[4..] && forall b | b in bs :: IsReport(l, b)
    ensures Parse(ev[..k]) == Prefix(l, bs, k - 4, 0)
  {
    ParseJoined(l, bs, ev, 4, k, 0);
  }

  lemma DecodingsOfEncodings(l: Layout, ws: seq<WireReport>)
    requires AllOf(l, ws)
    ensures forall b | b in Encodings(ws) :: IsReport(l, b)
    ensures Decodings(l, Encodings(ws)) == Meanings(ws)
  {
    forall i | 0 <= i < |ws|
      ensures IsReport(l, Encodings(ws)[i]) && Decode(l, Encodings(ws)[i]) == ws[i].Meaning()
    {
      EncodedIsReport(ws[i]);
      DecodeEncode(ws[i]);
    }
  }

  /** The bytes of an encoded event, one by one and as a whole. */
  lemma EncodedEvent(l: Layout, paramLen: byte, ws: seq<WireReport>, tail: seq<byte>)
    requires |ws| <= 255 && AllOf(l, ws)
    ensures var ev := EncodeEvent(l, paramLen, ws) + tail;
            && |ev| >= 4 && ev[0] == LE_META && ev[2] == l.Subevent() && ev[3] as nat == |ws|
            && Join(Encodings(ws)) <= ev[4..]
  {
    hide Join, Encodings;
    var ev := EncodeEvent(l, paramLen, ws) + tail;
    assert ev[4..] == Join(Encodings(ws)) + tail;
  }

  /**
   Round trip with truncation: the first k >= 4 bytes of an encoded event, with anything after it, parse to exactly the
   reports wholly inside those bytes, and to an error exactly when some report is cut.
   */
  lemma ParseEncodedEvent(l: Layout, paramLen: byte, ws: seq<WireReport>, tail: seq<byte>, k: nat)
    requires |ws| <= 255 && AllOf(l, ws)
    requires 4 <= k <= |EncodeEvent(l, paramLen, ws) + tail|
    ensures var p, m := Parse((EncodeEvent(l, paramLen, ws) + tail)[..k]), Whole(Encodings(ws), k - 4);
            && p.reports == Meanings(ws)[..m]
            && (p.error.None? <==> m == |ws|)
            && (p.error.Some? ==> p.error.value.report == m)
  {
    hide Parse, EncodeEvent, Whole, Decodings, Prefix, IsReport, Join, Meanings;
    DecodingsOfEncodings(l, ws);
    EncodedEvent(l, paramLen, ws, tail);
    PrefixIsWhole(l, Encodings(ws), k - 4, 0);
    ParseEvent(l, EncodeEvent(l, paramLen, ws) + tail, Encodings(ws), k);
  }

  /** An uncut event parses without error to the meaning of its reports; what follows the last report changes nothing. */
  lemma ParseWholeEvent(l: Layout, paramLen: byte, ws: seq<WireReport>, tail: seq<byte>)
    requires |ws| <= 255 && AllOf(l, ws)
    ensures Parse(EncodeEvent(l, paramLen, ws) + tail) == Parsed(Meanings(ws), None)
  {
    var ev := EncodeEvent(l, paramLen, ws) + tail;
    ParseEncodedEvent(l, paramLen, ws, tail, |ev|);
    WholeIsExact(Encodings(ws), |ev| - 4);
    assert ev[..|ev|] == ev && Meanings(ws)[..|ws|] == Meanings(ws);
  }
}
