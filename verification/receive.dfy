/**
 The receive loop itself, with one read buffer for all packets. Its handler calls read as the session specification says
 after any number of further reads, so reusing the buffer is harmless.
 */
module Receive {
  import opened Bytes
  import opened GoSlices
  import AdStructures
  import R = AdvReports
  import opened ReportParser
  import Reassembly
  import opened Fragments
  import opened Session

  /** A handler call as made: the payload is a slice of its own. */
  datatype Handed = Handed(addr: string, rssi: int, payload: Slice)

  ghost function ArraysOf(handed: seq<Handed>): set<array<byte>> {
    set i | 0 <= i < |handed| :: handed[i].payload.base
  }

  /** The handler calls, as their payloads read now, are these. */
  ghost predicate ReadAs(handed: seq<Handed>, calls: seq<Call>)
    reads ArraysOf(handed)
  {
    && |handed| == |calls|
    && forall i | 0 <= i < |handed| ::
         var h := handed[i];
         h.payload.Valid() && Call(h.addr, h.rssi, h.payload.Bytes()) == calls[i]
  }

  lemma HandedLength(handed: seq<Handed>, calls: seq<Call>)
    requires ReadAs(handed, calls)
    ensures |handed| == |calls|
  {
  }

  lemma NoneHanded()
    ensures ReadAs([], []) && ArraysOf([]) == {}
  {
  }

  lemma HandedConcat(a: seq<Handed>, b: seq<Handed>, x: seq<Call>, y: seq<Call>)
    requires ReadAs(a, x) && ReadAs(b, y)
    ensures ReadAs(a + b, x + y)
    ensures ArraysOf(a + b) == ArraysOf(a) + ArraysOf(b)
  {
    forall i | 0 <= i < |b|
      ensures b[i].payload.base in ArraysOf(a + b)
    {
      assert (a + b)[|a| + i] == b[i];
    }
    forall i | 0 <= i < |a|
      ensures a[i].payload.base in ArraysOf(a + b)
    {
      assert (a + b)[i] == a[i];
    }
  }

  lemma HandleSnoc(t: Reassembly.Table, rs: seq<R.Report>, i: nat)
    requires i < |rs|
    ensures var (t', calls) := HandleAll(t, rs[..i]);
            var (t'', more) := Handle(t', rs[i]);
            HandleAll(t, rs[..i + 1]) == (t'', calls + more)
  {
    assert rs[..i + 1] == rs[..i] + [rs[i]];
    HandleConcat(t, rs[..i], [rs[i]]);
    HandleCons(HandleAll(t, rs[..i]).0, rs[i], []);
    var (t', calls) := HandleAll(t, rs[..i]);
    assert [rs[i]] + [] == [rs[i]] && Handle(t', rs[i]).1 + [] == Handle(t', rs[i]).1;
  }

  /** read(fd, buf): the packet overwrites the front of the buffer and leaves the rest. */
  method ReadInto(buf: array<byte>, packet: seq<byte>)
    requires |packet| <= buf.Length
    modifies buf
    ensures buf[..|packet|] == packet && buf[|packet|..] == old(buf[|packet|..])
  {
    forall k | 0 <= k < |packet| {
      buf[k] := packet[k];
    }
  }

  /** The handler calls made for one report. */
  method HandleReport(frag: FragmentTable, r: R.AdvReport<Slice>) returns (handed: seq<Handed>)
    requires frag.Valid() && r.data.Valid() && r.data.base !in frag.Arrays()
    modifies frag, frag.Arrays()
    ensures frag.Valid() && forall a | a in frag.Arrays() :: a in old(frag.Arrays()) || fresh(a)
    ensures fresh(ArraysOf(handed)) && ArraysOf(handed) !! frag.Arrays()
    ensures frag.Contents() == Handle(old(frag.Contents()), old(Snapshot(r))).0
    ensures ReadAs(handed, Handle(old(frag.Contents()), old(Snapshot(r))).1)
  {
    hide Slice.Bytes, Reassembly.Add, AdStructures.ManufacturerData, FragmentTable.Contents, FragmentTable.Valid;
    handed := [];
    var full := frag.Add(r);
    if full.Some? {
      var payload := AdStructures.FindManufacturerData(full.value, RUUVI);
      if payload.Some? && payload.value.len > 0 {
        var copy := Clone(payload.value);
        handed := [Handed(r.addr, r.rssi, copy)];
      }
    }
  }

  /** The handler calls made for the reports of one event, whose data are windows on the read buffer. */
  method HandleReports(frag: FragmentTable, buf: array<byte>, rs: seq<R.AdvReport<Slice>>, ghost reports: seq<R.Report>)
    returns (handed: seq<Handed>)
    requires frag.Valid() && buf !in frag.Arrays() && Holds(buf, rs, reports)
    modifies frag, frag.Arrays()
    ensures frag.Valid() && forall a | a in frag.Arrays() :: a in old(frag.Arrays()) || fresh(a)
    ensures fresh(ArraysOf(handed)) && ArraysOf(handed) !! frag.Arrays()
    ensures frag.Contents() == HandleAll(old(frag.Contents()), reports).0
    ensures ReadAs(handed, HandleAll(old(frag.Contents()), reports).1)
  {
    hide ReadAs, Snapshot, FragmentTable.Valid, FragmentTable.Contents, HandleAll;
    handed := [];
    NoneHanded();
    HandleNone(frag.Contents());
    ghost var start, calls := frag.Contents(), [];
    for i := 0 to |rs|
      invariant frag.Valid() && buf !in frag.Arrays() && forall a | a in frag.Arrays() :: a in old(frag.Arrays()) || fresh(a)
      invariant Holds(buf, rs, reports)
      invariant fresh(ArraysOf(handed)) && ArraysOf(handed) !! frag.Arrays()
      invariant (frag.Contents(), calls) == HandleAll(start, reports[..i])
      invariant ReadAs(handed, calls)
    {
      ghost var before := frag.Contents();
      var more := HandleReport(frag, rs[i]);
      HandleSnoc(start, reports, i);
      HandedConcat(handed, more, calls, Handle(before, reports[i]).1);
      handed, calls := handed + more, calls + Handle(before, reports[i]).1;
    }
    assert reports[..|rs|] == reports;
  }

  /** One packet read into the shared buffer, parsed there and handled. */
  method HandlePacket(frag: FragmentTable, buf: array<byte>, packet: seq<byte>) returns (handed: seq<Handed>)
    requires frag.Valid() && buf !in frag.Arrays() && |packet| <= buf.Length
    modifies frag, frag.Arrays(), buf
    ensures frag.Valid() && forall a | a in frag.Arrays() :: a in old(frag.Arrays()) || fresh(a)
    ensures fresh(ArraysOf(handed)) && ArraysOf(handed) !! frag.Arrays()
    ensures frag.Contents() == HandleAll(old(frag.Contents()), Heard(Packet(packet))).0
    ensures ReadAs(handed, HandleAll(old(frag.Contents()), Heard(Packet(packet))).1)
  {
    hide HandleAll, ReadAs, Holds, R.Parse, FragmentTable.Valid, FragmentTable.Contents, ArraysOf;
    ghost var before := frag.Contents();
    var n := |packet|;
    ReadInto(buf, packet);
    assert frag.Contents() == before;
    if n < 3 || buf[0] != EVENT_PACKET {
      NoneHanded();
      HandleNone(before);
      return [];
    }
    var ev := Slice(buf, 1, n - 1);
    assert ev.Bytes() == buf[..n][1..] == packet[1..];
    var rs, err := ParseAdvReports(ev);
    handed := HandleReports(frag, buf, rs, Heard(Packet(packet)));
  }

  lemma RunEnds(s: State, turns: seq<Turn>)
    ensures Run(s, turns[|turns|..]) == s
  {
  }

  lemma RunNext(s: State, turns: seq<Turn>, i: nat)
    requires s.ending.Running? && i < |turns|
    ensures Run(s, turns[i..]) == Run(Step(s, turns[i]), turns[i + 1..])
    ensures !Step(s, turns[i]).ending.Running? ==> Run(s, turns[i..]) == Step(s, turns[i])
  {
    assert turns[i..][1..] == turns[i + 1..];
  }

  /** The loop of runHCISession: its ending and its handler calls, read after it ended, are those of the specification. */
  method Receive(turns: seq<Turn>, now: int) returns (ending: Ending, handed: seq<Handed>)
    requires forall turn | turn in turns && turn.read.Packet? :: |turn.read.bytes| <= READ_BUFFER
    ensures ending == Run(Start(now), turns).ending
    ensures ReadAs(handed, Run(Start(now), turns).calls)
  {
    hide HandleAll, ReadAs, FragmentTable.Valid, FragmentTable.Contents, FragmentTable.Arrays, Run, Step, Heard;
    NoneHanded();
    var buf := new byte[READ_BUFFER](_ => 0);
    var frag := new FragmentTable();
    var last := now;
    handed := [];
    ghost var s, whole := Start(now), Run(Start(now), turns);
    assert turns[0..] == turns;
    for i := 0 to |turns|
      invariant fresh(frag) && fresh(frag.Arrays()) && frag.Valid() && buf !in frag.Arrays()
      invariant ArraysOf(handed) !! frag.Arrays() && buf !in ArraysOf(handed)
      invariant s == State(frag.Contents(), last, s.calls, Running) && ReadAs(handed, s.calls)
      invariant whole == Run(s, turns[i..])
    {
      var turn := turns[i];
      RunNext(s, turns, i);
      StepReads(s, turn);
      if turn.cancelled {
        return Cancelled, handed;
      }
      match turn.read {
        case Retry =>
          if turn.checkedAt - last > SILENCE_TIMEOUT {
            return Silent, handed;
          }
        case Broken =>
          return ReadFailed, handed;
        case Packet(bytes) =>
          var more := HandlePacket(frag, buf, bytes);
          ghost var calls := HandleAll(s.table, Heard(turn.read)).1;
          HandedLength(more, calls);
          HandedConcat(handed, more, s.calls, calls);
          handed := handed + more;
          if |more| > 0 {
            last := turn.heardAt;
          }
          if IsEvent(turn.read) && turn.checkedAt - last > SILENCE_TIMEOUT {
            return Silent, handed;
          }
      }
      s := Step(s, turn);
    }
    RunEnds(s, turns);
    return Running, handed;
  }
}
