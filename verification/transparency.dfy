/**
 Fragmentation is transparent: whatever way advertisements are split into reports, interleaved and packed into events, the
 session calls the handler as if each had arrived whole.
 */
module Transparency {
  import opened Bytes
  import opened AdStructures
  import R = AdvReports
  import opened Reassembly
  import opened Session

  type Advert = seq<R.Report>

  // ---------------------------------------------------------------------------------------------------------
  // Advertisements and the order in which their reports are sent.

  function Datas(ad: Advert): seq<seq<byte>> {
    seq(|ad|, i requires 0 <= i < |ad| => ad[i].data)
  }

  /** The data sent by the first k reports. */
  function SentData(ad: Advert, k: nat): seq<byte>
    requires k <= |ad|
  {
    Concat(Datas(ad[..k]))
  }

  /**
   The reports of one advertisement: one stream, status 1 but for the last, which has status 0, and no more data before the
   last than the bound. A legacy report is an advertisement of its own.
   */
  ghost predicate IsAdvert(ad: Advert) {
    && ad != []
    && (forall i | 0 <= i < |ad| :: KeyOf(ad[i]) == KeyOf(ad[0]))
    && (forall i | 0 <= i < |ad| :: ad[i].status == if i < |ad| - 1 then 1 else 0)
    && |SentData(ad, |ad| - 1)| <= 1650
  }

  ghost predicate AreAdverts(ads: seq<Advert>) {
    forall i | 0 <= i < |ads| :: IsAdvert(ads[i])
  }

  function AdKey(ad: Advert): string
    requires ad != []
  {
    KeyOf(ad[0])
  }

  /** The structures an advertisement's data decode to, and whether the first Ruuvi structure holds a payload. */
  function StructuresOf(ad: Advert): seq<AdStructure> {
    Structures(SentData(ad, |ad|))
  }

  predicate HasPayload(ad: Advert) {
    var ss := StructuresOf(ad);
    exists k :: 0 <= k < |ss| && IsRuuvi(ss[k]) && |ss[k].body| > 2 && forall j | 0 <= j < k :: !IsRuuvi(ss[j])
  }

  /**
   The handler call an advertisement deserves: the payload of its first Ruuvi structure, whole, with the address and the
   signal strength of its last report.
   */
  function Deserved(ad: Advert): (calls: seq<Call>)
    requires ad != []
    ensures |calls| == if HasPayload(ad) then 1 else 0
  {
    var last, ss, k := ad[|ad| - 1], StructuresOf(ad), FirstRuuvi(StructuresOf(ad));
    if k < |ss| && |ss[k].body| > 2 then [Call(last.addr, last.rssi, ss[k].body[2..])] else []
  }

  /** How many reports of each advertisement have been sent. */
  ghost predicate IsProgress(ads: seq<Advert>, sent: seq<nat>) {
    |sent| == |ads| && AreAdverts(ads) && forall i | 0 <= i < |ads| :: sent[i] <= |ads[i]|
  }

  ghost predicate UnderWay(ads: seq<Advert>, sent: seq<nat>, i: nat)
    requires IsProgress(ads, sent)
  {
    i < |ads| && 0 < sent[i] < |ads[i]|
  }

  /** Advertisement i may send its next report: no other advertisement of its stream is under way. */
  ghost predicate MaySend(ads: seq<Advert>, sent: seq<nat>, i: nat)
    requires IsProgress(ads, sent)
  {
    && i < |ads| && sent[i] < |ads[i]|
    && forall j: nat | j != i && UnderWay(ads, sent, j) :: AdKey(ads[j]) != AdKey(ads[i])
  }

  function Sent(sent: seq<nat>, i: nat): seq<nat>
    requires i < |sent|
  {
    sent[i := sent[i] + 1]
  }

  /** A schedule names, step by step, the advertisement that sends its next report. */
  ghost predicate IsSchedule(ads: seq<Advert>, sent: seq<nat>, schedule: seq<nat>)
    requires IsProgress(ads, sent)
    decreases schedule
  {
    schedule == [] ||
    (MaySend(ads, sent, schedule[0]) && IsSchedule(ads, Sent(sent, schedule[0]), schedule[1..]))
  }

  /** The reports a schedule emits. */
  ghost function Emitted(ads: seq<Advert>, sent: seq<nat>, schedule: seq<nat>): seq<R.Report>
    requires IsProgress(ads, sent) && IsSchedule(ads, sent, schedule)
    decreases schedule
  {
    if schedule == [] then []
    else var i := schedule[0]; [ads[i][sent[i]]] + Emitted(ads, Sent(sent, i), schedule[1..])
  }

  /** The advertisements in the order in which the schedule completes them. */
  ghost function Completed(ads: seq<Advert>, sent: seq<nat>, schedule: seq<nat>): (order: seq<nat>)
    requires IsProgress(ads, sent) && IsSchedule(ads, sent, schedule)
    ensures forall k | 0 <= k < |order| :: order[k] < |ads|
    decreases schedule
  {
    if schedule == [] then []
    else
      var i := schedule[0];
      (if sent[i] + 1 == |ads[i]| then [i] else []) + Completed(ads, Sent(sent, i), schedule[1..])
  }

  ghost function SentAfter(ads: seq<Advert>, sent: seq<nat>, schedule: seq<nat>): (after: seq<nat>)
    requires IsProgress(ads, sent) && IsSchedule(ads, sent, schedule)
    ensures IsProgress(ads, after)
    decreases schedule
  {
    if schedule == [] then sent else SentAfter(ads, Sent(sent, schedule[0]), schedule[1..])
  }

  ghost function AllDeserved(ads: seq<Advert>, order: seq<nat>): seq<Call>
    requires AreAdverts(ads) && forall k | 0 <= k < |order| :: order[k] < |ads|
  {
    if order == [] then [] else Deserved(ads[order[0]]) + AllDeserved(ads, order[1..])
  }

  // ---------------------------------------------------------------------------------------------------------
  // The table follows the senders.

  /** A stream has an entry exactly when one of its advertisements is under way, and the entry is what that one has sent. */
  ghost predicate Follows(t: Table, ads: seq<Advert>, sent: seq<nat>)
    requires IsProgress(ads, sent)
  {
    && (forall i: nat | UnderWay(ads, sent, i) :: AdKey(ads[i]) in t && t[AdKey(ads[i])] == SentData(ads[i], sent[i]))
    && (forall key | key in t :: exists i: nat :: UnderWay(ads, sent, i) && AdKey(ads[i]) == key)
  }

  lemma SentDataNext(ad: Advert, k: nat)
    requires k < |ad|
    ensures SentData(ad, k + 1) == SentData(ad, k) + ad[k].data
  {
    var pieces := Datas(ad[..k + 1]);
    assert pieces[..k] == Datas(ad[..k]) && pieces[k] == ad[k].data;
  }

  lemma {:induction false} SentDataGrows(ad: Advert, k: nat, n: nat)
    requires k <= n <= |ad|
    ensures |SentData(ad, k)| <= |SentData(ad, n)|
    decreases n
  {
    if k < n {
      SentDataNext(ad, n - 1);
      SentDataGrows(ad, k, n - 1);
    }
  }

  /** It is the call the session makes for the data. */
  lemma DeservedCall(ad: Advert)
    requires ad != []
    ensures Deserved(ad) == CallFor(ad[|ad| - 1].addr, ad[|ad| - 1].rssi, SentData(ad, |ad|))
  {
    hide CallFor, SentData, Structures, HasPayload;
    CallForStructures(ad[|ad| - 1].addr, ad[|ad| - 1].rssi, SentData(ad, |ad|));
  }

  /** What one report does to the entry of its stream, when the entry is what its advertisement has sent. */
  lemma AddNext(t: Table, ad: Advert, k: nat)
    requires IsAdvert(ad) && k < |ad| && Lookup(t, AdKey(ad)) == SentData(ad, k)
    ensures Handle(t, ad[k]) ==
            if k + 1 == |ad| then (t - {AdKey(ad)}, Deserved(ad)) else (t[AdKey(ad) := SentData(ad, k + 1)], [])
  {
    hide Deserved, CallFor, SentData, StreamKey;
    SentDataNext(ad, k);
    DeservedCall(ad);
    if k + 1 < |ad| {
      SentDataGrows(ad, k + 1, |ad| - 1);
    }
  }

  /** Before advertisement i sends, the entry of its stream is what it has sent so far. */
  lemma EntryOfSender(t: Table, ads: seq<Advert>, sent: seq<nat>, i: nat)
    requires IsProgress(ads, sent) && Follows(t, ads, sent) && MaySend(ads, sent, i)
    ensures Lookup(t, AdKey(ads[i])) == SentData(ads[i], sent[i])
  {
    if sent[i] == 0 {
      assert AdKey(ads[i]) !in t;
      assert Datas(ads[i][..0]) == [];
    } else {
      assert UnderWay(ads, sent, i);
    }
  }

  /** Sending leaves all other advertisements where they are. */
  lemma ProgressNext(ads: seq<Advert>, sent: seq<nat>, i: nat)
    requires IsProgress(ads, sent) && MaySend(ads, sent, i)
    ensures IsProgress(ads, Sent(sent, i)) && Sent(sent, i)[i] == sent[i] + 1
    ensures UnderWay(ads, Sent(sent, i), i) <==> sent[i] + 1 < |ads[i]|
    ensures forall j: nat | j != i :: UnderWay(ads, Sent(sent, i), j) <==> UnderWay(ads, sent, j)
    ensures forall j: nat | j != i && UnderWay(ads, sent, j) :: Sent(sent, i)[j] == sent[j]
  {
  }

  /** Sending changes the entry of its own stream only. */
  lemma FollowsNext(t: Table, t': Table, ads: seq<Advert>, sent: seq<nat>, i: nat)
    requires IsProgress(ads, sent) && Follows(t, ads, sent) && MaySend(ads, sent, i)
    requires var key, k := AdKey(ads[i]), sent[i] + 1;
             t' == if k == |ads[i]| then t - {key} else t[key := SentData(ads[i], k)]
    ensures IsProgress(ads, Sent(sent, i)) && Follows(t', ads, Sent(sent, i))
  {
    hide Sent, SentData, AdKey;
    var sent' := Sent(sent, i);
    ProgressNext(ads, sent, i);
    forall j: nat | UnderWay(ads, sent', j)
      ensures AdKey(ads[j]) in t' && t'[AdKey(ads[j])] == SentData(ads[j], sent'[j])
    {
      if j != i {
        assert UnderWay(ads, sent, j) && AdKey(ads[j]) != AdKey(ads[i]);
      }
    }
    forall key | key in t'
      ensures exists j: nat :: UnderWay(ads, sent', j) && AdKey(ads[j]) == key
    {
      if key == AdKey(ads[i]) {
        assert UnderWay(ads, sent', i);
      } else {
        var j: nat :| UnderWay(ads, sent, j) && AdKey(ads[j]) == key;
        assert UnderWay(ads, sent', j);
      }
    }
  }

  /** One report sent: the table keeps following, and completing an advertisement calls the handler as it deserves. */
  lemma SendStep(t: Table, ads: seq<Advert>, sent: seq<nat>, i: nat)
    requires IsProgress(ads, sent) && Follows(t, ads, sent) && MaySend(ads, sent, i)
    ensures IsProgress(ads, Sent(sent, i)) && Follows(Handle(t, ads[i][sent[i]]).0, ads, Sent(sent, i))
    ensures Handle(t, ads[i][sent[i]]).1 == if sent[i] + 1 == |ads[i]| then Deserved(ads[i]) else []
  {
    hide Handle, Follows, Deserved, SentData, Lookup, Sent, IsAdvert;
    EntryOfSender(t, ads, sent, i);
    AddNext(t, ads[i], sent[i]);
    FollowsNext(t, Handle(t, ads[i][sent[i]]).0, ads, sent, i);
  }

  /** Handling what a schedule emits makes the deserved calls, in order of completion. */
  lemma {:induction false} ScheduleHandled(t: Table, ads: seq<Advert>, sent: seq<nat>, schedule: seq<nat>)
    requires IsProgress(ads, sent) && IsSchedule(ads, sent, schedule) && Follows(t, ads, sent)
    ensures HandleAll(t, Emitted(ads, sent, schedule)).1 == AllDeserved(ads, Completed(ads, sent, schedule))
    decreases schedule
  {
    if schedule != [] {
      var i := schedule[0];
      SendStep(t, ads, sent, i);
      var next, r := Sent(sent, i), ads[i][sent[i]];
      var rest, later := Emitted(ads, next, schedule[1..]), Completed(ads, next, schedule[1..]);
      ScheduleHandled(Handle(t, r).0, ads, next, schedule[1..]);
      HandleCons(t, r, rest);
      assert Emitted(ads, sent, schedule) == [r] + rest;
      if sent[i] + 1 == |ads[i]| {
        assert Completed(ads, sent, schedule) == [i] + later;
        assert ([i] + later)[1..] == later;
      } else {
        assert Completed(ads, sent, schedule) == [] + later == later;
      }
    }
  }

  /** A schedule completes each advertisement it finishes exactly once, and no other. */
  lemma {:induction false} CompletedOnce(ads: seq<Advert>, sent: seq<nat>, schedule: seq<nat>, i: nat)
    requires IsProgress(ads, sent) && IsSchedule(ads, sent, schedule) && i < |ads|
    ensures SentAfter(ads, sent, schedule)[i] >= sent[i]
    ensures multiset(Completed(ads, sent, schedule))[i]
         == if sent[i] < |ads[i]| && SentAfter(ads, sent, schedule)[i] == |ads[i]| then 1 else 0
    decreases schedule
  {
    if schedule != [] {
      CompletedOnce(ads, Sent(sent, schedule[0]), schedule[1..], i);
    }
  }

  // ---------------------------------------------------------------------------------------------------------
  // Packing into events.

  /** What a read is made of: nothing of interest, or an event with some reports and any bytes after them. */
  datatype Load = Quiet | Event(layout: R.Layout, paramLen: byte, reports: seq<R.WireReport>, tail: seq<byte>)

  /** A read that carries no report event: interrupted, no event packet, too short, or some other event. */
  predicate IsQuiet(read: Read) {
    read.Retry? || (read.Packet? && (!IsEvent(read) || R.EventLayout(read.bytes[1..]).None?))
  }

  ghost predicate Carries(read: Read, load: Load) {
    match load
    case Quiet => IsQuiet(read)
    case Event(l, paramLen, ws, tail) =>
      |ws| <= 255 && R.AllOf(l, ws) && read == Packet([EVENT_PACKET] + (R.EncodeEvent(l, paramLen, ws) + tail))
  }

  ghost predicate CarriesAll(turns: seq<Turn>, loads: seq<Load>) {
    |turns| == |loads| && forall j | 0 <= j < |turns| :: Carries(turns[j].read, loads[j])
  }

  ghost function ReportsIn(read: Read, load: Load): seq<R.Report>
    requires Carries(read, load)
  {
    if load.Quiet? then [] else R.Meanings(load.reports)
  }

  /** All the reports the reads carry, in order. */
  ghost function AllReports(turns: seq<Turn>, loads: seq<Load>): seq<R.Report>
    requires CarriesAll(turns, loads)
  {
    if turns == [] then [] else ReportsIn(turns[0].read, loads[0]) + AllReports(turns[1..], loads[1..])
  }

  lemma HeardInRead(read: Read, load: Load)
    requires Carries(read, load)
    ensures Heard(read) == ReportsIn(read, load)
  {
    match load
    case Quiet =>
    case Event(l, paramLen, ws, tail) =>
      assert read.bytes[1..] == R.EncodeEvent(l, paramLen, ws) + tail;
      R.ParseWholeEvent(l, paramLen, ws, tail);
  }

  lemma {:induction false} HeardInTurns(turns: seq<Turn>, loads: seq<Load>)
    requires CarriesAll(turns, loads)
    ensures HeardAll(turns) == AllReports(turns, loads)
    decreases turns
  {
    if turns != [] {
      HeardInRead(turns[0].read, loads[0]);
      HeardInTurns(turns[1..], loads[1..]);
    }
  }

  ghost function NoneSent(ads: seq<Advert>): (sent: seq<nat>)
    requires AreAdverts(ads)
    ensures IsProgress(ads, sent) && forall i | 0 <= i < |ads| :: sent[i] == 0
  {
    seq(|ads|, _ => 0)
  }

  // ---------------------------------------------------------------------------------------------------------
  // Other traffic on the air.

  /** The reports of these addresses. */
  function From(addrs: set<string>, rs: seq<R.Report>): seq<R.Report> {
    if rs == [] then [] else (if rs[0].addr in addrs then [rs[0]] else []) + From(addrs, rs[1..])
  }

  /** The handler calls for these addresses. */
  function CallsFrom(addrs: set<string>, calls: seq<Call>): seq<Call> {
    if calls == [] then [] else (if calls[0].addr in addrs then [calls[0]] else []) + CallsFrom(addrs, calls[1..])
  }

  /** Two tables have the same entries for these addresses. */
  ghost predicate Agree(addrs: set<string>, a: Table, b: Table) {
    forall addr, sid | addr in addrs && |addr| == 17 :: SameEntry(a, b, StreamKey(addr, sid))
  }

  lemma KeyTellsAddress(a: string, x: byte, b: string, y: byte)
    requires |a| == |b| && StreamKey(a, x) == StreamKey(b, y)
    ensures a == b
  {
    assert StreamKey(a, x)[..|a|] == a && StreamKey(b, y)[..|b|] == b;
  }

  /** A report of these addresses does the same to both tables. */
  lemma OursNext(addrs: set<string>, t: Table, alone: Table, r: R.Report)
    requires Agree(addrs, t, alone) && r.addr in addrs && |r.addr| == 17
    ensures Handle(t, r).1 == Handle(alone, r).1 && Agree(addrs, Handle(t, r).0, Handle(alone, r).0)
  {
    hide SameEntry, Add, StreamKey, CallFor;
    assert SameEntry(t, alone, StreamKey(r.addr, r.sid));
    SameStream(t, alone, r);
    forall addr, sid | addr in addrs && |addr| == 17
      ensures SameEntry(Add(t, r).0, Add(alone, r).0, StreamKey(addr, sid))
    {
      if KeyOf(r) != StreamKey(addr, sid) {
        var key := StreamKey(addr, sid);
        OtherStream(key, t, alone, r);
        SameEntrySwaps(Add(t, r).0, alone, key);
        OtherStream(key, alone, Add(t, r).0, r);
        SameEntrySwaps(Add(alone, r).0, Add(t, r).0, key);
      }
    }
  }

  lemma SameEntrySwaps(a: Table, b: Table, key: string)
    requires SameEntry(a, b, key)
    ensures SameEntry(b, a, key)
  {
  }

  /** A report of any other address leaves the entries alone. */
  lemma OthersNext(addrs: set<string>, t: Table, alone: Table, r: R.Report)
    requires Agree(addrs, t, alone) && r.addr !in addrs && |r.addr| == 17
    ensures Agree(addrs, Handle(t, r).0, alone)
  {
    hide SameEntry, Add, StreamKey, CallFor;
    forall addr, sid | addr in addrs && |addr| == 17
      ensures SameEntry(Add(t, r).0, alone, StreamKey(addr, sid))
    {
      if KeyOf(r) == StreamKey(addr, sid) {
        KeyTellsAddress(r.addr, r.sid, addr, sid);
      }
      OtherStream(StreamKey(addr, sid), t, alone, r);
    }
  }

  lemma {:induction false} CallsFromConcat(addrs: set<string>, a: seq<Call>, b: seq<Call>)
    ensures CallsFrom(addrs, a + b) == CallsFrom(addrs, a) + CallsFrom(addrs, b)
  {
    if a == [] {
      assert a + b == b;
    } else {
      var head := if a[0].addr in addrs then [a[0]] else [];
      assert (a + b)[0] == a[0] && (a + b)[1..] == a[1..] + b;
      CallsFromConcat(addrs, a[1..], b);
      assert head + (CallsFrom(addrs, a[1..]) + CallsFrom(addrs, b)) == head + CallsFrom(addrs, a[1..]) + CallsFrom(addrs, b);
    }
  }

  lemma CallsOfReport(addrs: set<string>, t: Table, r: R.Report)
    ensures CallsFrom(addrs, Handle(t, r).1) == if r.addr in addrs then Handle(t, r).1 else []
  {
    var calls := Handle(t, r).1;
    if calls != [] {
      assert calls[1..] == [];
    }
  }

  /** Whatever other addresses send, these addresses get the calls they would get alone. */
  lemma {:induction false} OthersDoNotMatter(addrs: set<string>, t: Table, alone: Table, rs: seq<R.Report>)
    requires Agree(addrs, t, alone) && forall r | r in rs :: |r.addr| == 17
    ensures CallsFrom(addrs, HandleAll(t, rs).1) == HandleAll(alone, From(addrs, rs)).1
    decreases rs
  {
    hide Handle, Agree;
    if rs != [] {
      var r, rest := rs[0], From(addrs, rs[1..]);
      var (t', calls) := Handle(t, r);
      assert r in rs;
      CallsFromConcat(addrs, calls, HandleAll(t', rs[1..]).1);
      CallsOfReport(addrs, t, r);
      if r.addr in addrs {
        OursNext(addrs, t, alone, r);
        OthersDoNotMatter(addrs, t', Handle(alone, r).0, rs[1..]);
        HandleCons(alone, r, rest);
        assert From(addrs, rs) == [r] + rest;
      } else {
        OthersNext(addrs, t, alone, r);
        OthersDoNotMatter(addrs, t', alone, rs[1..]);
        assert From(addrs, rs) == rest;
      }
    }
  }

  // ---------------------------------------------------------------------------------------------------------
  // The whole session.

  /** Of these reports, those of some addresses are what a schedule of advertisements emits. */
  ghost predicate Scheduled(addrs: set<string>, ads: seq<Advert>, schedule: seq<nat>, rs: seq<R.Report>) {
    && AreAdverts(ads) && IsSchedule(ads, NoneSent(ads), schedule)
    && From(addrs, rs) == Emitted(ads, NoneSent(ads), schedule)
  }

  /**
   What some addresses send is advertisements, split into reports in any way the bound allows and emitted on any schedule
   that keeps each stream in order; other addresses may send anything, truncated and overflowing data among it. However the
   session ends, its handler calls for these addresses are the deserved ones, in order of completion.
   */
  lemma StreamsTransparent(addrs: set<string>, ads: seq<Advert>, schedule: seq<nat>, turns: seq<Turn>, now: int)
    requires Scheduled(addrs, ads, schedule, HeardAll(Attended(Start(now), turns)))
    ensures CallsFrom(addrs, Run(Start(now), turns).calls) == AllDeserved(ads, Completed(ads, NoneSent(ads), schedule))
  {
    hide Attended, Run, IsSchedule, IsAdvert;
    var heard := HeardAll(Attended(Start(now), turns));
    RunHandlesAll(Start(now), turns);
    HeardInBounds(Attended(Start(now), turns));
    OthersDoNotMatter(addrs, map[], map[], heard);
    ScheduleHandled(map[], ads, NoneSent(ads), schedule);
    assert [] + HandleAll(map[], heard).1 == HandleAll(map[], heard).1;
  }

  /**
   The same with the packing: the reports of all addresses are packed into events in any grouping, with any other traffic
   between. Each advertisement with a non-empty Ruuvi payload gets a handler call with exactly that payload when it is
   complete, which CompletedOnce says is once, and no other.
   */
  lemma FragmentationTransparent(addrs: set<string>, ads: seq<Advert>, schedule: seq<nat>, loads: seq<Load>,
                                 turns: seq<Turn>, now: int)
    requires CarriesAll(Attended(Start(now), turns), loads)
    requires Scheduled(addrs, ads, schedule, AllReports(Attended(Start(now), turns), loads))
    ensures CallsFrom(addrs, Run(Start(now), turns).calls) == AllDeserved(ads, Completed(ads, NoneSent(ads), schedule))
  {
    hide Attended, Run, IsSchedule, IsAdvert, Carries, AllDeserved, Completed, Emitted, NoneSent;
    HeardInTurns(Attended(Start(now), turns), loads);
    StreamsTransparent(addrs, ads, schedule, turns, now);
  }
}
