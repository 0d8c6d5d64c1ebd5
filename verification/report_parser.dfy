/** parseAdvReports and parseExtAdvReports as loops over the event slice; report data stay windows on its array. */
module ReportParser {
  import opened Bytes
  import opened GoSlices
  import opened AdvReports

  ghost function Snapshot(r: AdvReport<Slice>): Report
    requires r.data.Valid()
    reads r.data.base
  {
    AdvReport(r.addr, r.rssi, r.data.Bytes(), r.sid, r.status)
  }

  /** out are windows on base that read as these reports. */
  ghost predicate Holds(base: array<byte>, out: seq<AdvReport<Slice>>, reports: seq<Report>)
    reads base
  {
    && |out| == |reports|
    && forall i | 0 <= i < |out| ::
         out[i].data.base == base && out[i].data.Valid() && Snapshot(out[i]) == reports[i]
  }

  lemma HoldsNone(base: array<byte>)
    ensures Holds(base, [], [])
  {
  }

  lemma HoldsSnoc(base: array<byte>, out: seq<AdvReport<Slice>>, reports: seq<Report>, r: AdvReport<Slice>, one: Report)
    requires Holds(base, out, reports) && r.data.base == base && r.data.Valid() && Snapshot(r) == one
    ensures Holds(base, out + [r], reports + [one])
  {
  }

  lemma SubSub(s: seq<byte>, lo: nat, hi: nat, from: nat, to: nat)
    requires lo <= hi <= |s| && from <= to <= hi - lo
    ensures s[lo..hi][from..to] == s[lo + from..lo + to]
  {
    var a, b := s[lo..hi][from..to], s[lo + from..lo + to];
    assert forall k | 0 <= k < |a| :: a[k] == s[lo + from + k] == b[k];
  }

  /** The reports read so far followed by what the bytes from p on still give. */
  ghost function ReadOn(reports: seq<Report>, l: Layout, ev: seq<byte>, p: nat, n: nat, i: nat): Parsed {
    var tail := ParseFrom(l, ev, p, n, i);
    Parsed(reports + tail.reports, tail.error)
  }

  /** The report at p joins those already read. */
  lemma Advance(wanted: Parsed, reports: seq<Report>, l: Layout, ev: seq<byte>, p: nat, end: nat, n: nat, i: nat)
    requires p + l.Header() <= |ev| && end == End(l, ev, p) <= |ev|
    requires n > 0 && wanted == ReadOn(reports, l, ev, p, n, i)
    ensures IsReport(l, ev[p..end])
    ensures wanted == ReadOn(reports + [Decode(l, ev[p..end])], l, ev, end, n - 1, i + 1)
  {
    var one := Decode(l, ev[p..end]);
    var tail := ParseFrom(l, ev, end, n - 1, i + 1);
    assert reports + ([one] + tail.reports) == reports + [one] + tail.reports;
  }

  /** The legacy report at p, with l data bytes. */
  method ReadLegacy(ev: Slice, p: nat, l: nat, ghost bytes: seq<byte>, ghost wanted: Parsed, ghost reports: seq<Report>,
              ghost n: nat, ghost i: nat)
    returns (r: AdvReport<Slice>, ghost one: Report)
    requires ev.Valid() && p + 9 + l + 1 <= ev.len && ev.At(p + 8) as nat == l
    requires bytes == ev.Bytes() && n > 0 && wanted == ReadOn(reports, Legacy, bytes, p, n, i)
    ensures r.data.base == ev.base && r.data.Valid() && Snapshot(r) == one
    ensures wanted == ReadOn(reports + [one], Legacy, bytes, p + 9 + l + 1, n - 1, i + 1)
  {
    hide Slice.At, Slice.Bytes, Slice.Sub, AddrText, Signed8, ReadOn;
    var a, data := ev.Sub(p + 2, p + 8), ev.Sub(p + 9, p + 9 + l);
    r := AdvReport(AddrText(a.Bytes()), Signed8(ev.At(p + 9 + l)), data, 0, 0);
    ghost var end := p + 9 + l + 1;
    Advance(wanted, reports, Legacy, bytes, p, end, n, i);
    SubSub(bytes, p, end, 2, 8);
    SubSub(bytes, p, end, 9, 9 + l);
    one := Decode(Legacy, bytes[p..end]);
  }

  /** The extended report at p, with l data bytes. */
  method ReadExtended(ev: Slice, p: nat, l: nat, ghost bytes: seq<byte>, ghost wanted: Parsed, ghost reports: seq<Report>,
              ghost n: nat, ghost i: nat)
    returns (r: AdvReport<Slice>, ghost one: Report)
    requires ev.Valid() && p + 24 + l <= ev.len && ev.At(p + 23) as nat == l
    requires bytes == ev.Bytes() && n > 0 && wanted == ReadOn(reports, Extended, bytes, p, n, i)
    ensures r.data.base == ev.base && r.data.Valid() && Snapshot(r) == one
    ensures wanted == ReadOn(reports + [one], Extended, bytes, p + 24 + l, n - 1, i + 1)
  {
    var et := LE16(ev.At(p), ev.At(p + 1));
    var a, data := ev.Sub(p + 3, p + 9), ev.Sub(p + 24, p + 24 + l);
    r := AdvReport(AddrText(a.Bytes()), Signed8(ev.At(p + 13)), data, ev.At(p + 11), (et / 32 % 4) as byte);
    ghost var end := p + 24 + l;
    Advance(wanted, reports, Extended, bytes, p, end, n, i);
    SubSub(bytes, p, end, 3, 9);
    SubSub(bytes, p, end, 24, 24 + l);
    one := Decode(Extended, bytes[p..end]);
  }

  method ParseLegacy(ev: Slice) returns (out: seq<AdvReport<Slice>>, err: Option<ParseError>, ghost reports: seq<Report>)
    requires ev.Valid() && ev.len >= 4
    ensures Holds(ev.base, out, reports)
    ensures ParseFrom(Legacy, ev.Bytes(), 4, ev.At(3), 0) == Parsed(reports, err)
  {
    hide Holds, Slice.At, Slice.Bytes, Slice.Sub, Decode, Snapshot;
    ghost var bytes := ev.Bytes();
    var n, p, i := ev.At(3) as nat, 4, 0;
    out, reports := [], [];
    HoldsNone(ev.base);
    ghost var wanted, left := ParseFrom(Legacy, bytes, 4, n, 0), n;
    while i < n
      invariant 0 <= i <= n && 4 <= p <= ev.len
      invariant Holds(ev.base, out, reports)
      invariant left == n - i && wanted == ReadOn(reports, Legacy, bytes, p, left, i)
    {
      if p + 9 > ev.len {
        return out, Some(TruncatedHeader(i)), reports;
      }
      var l := ev.At(p + 8) as nat;
      if p + 9 + l + 1 > ev.len {
        return out, Some(TruncatedData(i)), reports;
      }
      var r, one := ReadLegacy(ev, p, l, bytes, wanted, reports, left, i);
      HoldsSnoc(ev.base, out, reports, r, one);
      out, reports, p, i := out + [r], reports + [one], p + 9 + l + 1, i + 1;
      left := left - 1;
    }
    err := None;
  }

  method ParseExtended(ev: Slice) returns (out: seq<AdvReport<Slice>>, err: Option<ParseError>, ghost reports: seq<Report>)
    requires ev.Valid() && ev.len >= 4
    ensures Holds(ev.base, out, reports)
    ensures ParseFrom(Extended, ev.Bytes(), 4, ev.At(3), 0) == Parsed(reports, err)
  {
    hide Holds, Slice.At, Slice.Bytes, Slice.Sub, Decode, Snapshot;
    ghost var bytes := ev.Bytes();
    var n, p, i := ev.At(3) as nat, 4, 0;
    out, reports := [], [];
    HoldsNone(ev.base);
    ghost var wanted, left := ParseFrom(Extended, bytes, 4, n, 0), n;
    while i < n
      invariant 0 <= i <= n && 4 <= p <= ev.len
      invariant Holds(ev.base, out, reports)
      invariant left == n - i && wanted == ReadOn(reports, Extended, bytes, p, left, i)
    {
      if p + 24 > ev.len {
        return out, Some(TruncatedHeader(i)), reports;
      }
      var l := ev.At(p + 23) as nat;
      if p + 24 + l > ev.len {
        return out, Some(TruncatedData(i)), reports;
      }
      var r, one := ReadExtended(ev, p, l, bytes, wanted, reports, left, i);
      HoldsSnoc(ev.base, out, reports, r, one);
      out, reports, p, i := out + [r], reports + [one], p + 24 + l, i + 1;
      left := left - 1;
    }
    err := None;
  }

  /** parseAdvReports: the reports found, as windows on the event's array, and the error that ended the parse, if any. */
  method ParseAdvReports(ev: Slice) returns (out: seq<AdvReport<Slice>>, err: Option<ParseError>)
    requires ev.Valid()
    ensures Holds(ev.base, out, Parse(ev.Bytes()).reports)
    ensures err == Parse(ev.Bytes()).error
  {
    ghost var reports: seq<Report>;
    if ev.len >= 4 && ev.At(0) == LE_META && ev.At(2) == EXT_ADV_REPORT {
      out, err, reports := ParseExtended(ev);
    } else if ev.len < 4 || ev.At(0) != LE_META || ev.At(2) != ADV_REPORT {
      out, err := [], None;
    } else {
      out, err, reports := ParseLegacy(ev);
    }
  }
}
