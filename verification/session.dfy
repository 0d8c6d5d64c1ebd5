/** The receive loop of a direct HCI session as a function of what is read and when. */
module Session {
  import opened Bytes
  import opened AdStructures
  import opened AdvReports
  import opened Reassembly
  import opened Durations

  const EVENT_PACKET: byte := 0x04
  const RUUVI := 0x0499
  const READ_BUFFER := 260
  const SILENCE_TIMEOUT := 60 * SECOND

  /** A call of the advertisement handler. */
  datatype Call = Call(addr: string, rssi: int, payload: seq<byte>)

  /** One read of the socket: a packet, an interrupted or timed-out read, or any other failure. */
  datatype Read = Packet(bytes: seq<byte>) | Retry | Broken

  /**
   One turn of the loop: whether the context was cancelled before it, what the read gave, the time of the last handler
   call it makes and the time at which it looks at the silence timeout, in nanoseconds.
   */
  datatype Turn = Turn(cancelled: bool, read: Read, heardAt: int, checkedAt: int)

  datatype Ending = Running | Cancelled | Silent | ReadFailed

  datatype State = State(table: Table, last: int, calls: seq<Call>, ending: Ending)

  function Start(now: int): State {
    State(map[], now, [], Running)
  }

  /** The handler call made for complete data, if it holds a non-empty Ruuvi payload. */
  function CallFor(addr: string, rssi: int, data: seq<byte>): seq<Call> {
    match ManufacturerData(data, RUUVI)
    case None => []
    case Some(payload) => if |payload| > 0 then [Call(addr, rssi, payload)] else []
  }

  /** One report: the table afterwards and the handler call, if any. */
  function Handle(t: Table, r: Report): (Table, seq<Call>) {
    var (t', full) := Add(t, r);
    (t', if full.Some? then CallFor(r.addr, r.rssi, full.value) else [])
  }

  /** Manufacturer data of Ruuvi: structure type 0xFF, company 0x0499. */
  predicate IsRuuvi(s: AdStructure) {
    s.kind == 0xFF && |s.body| >= 2 && s.body[0] == 0x99 && s.body[1] == 0x04
  }

  /** The place of the first such structure, or the length of the list. */
  function FirstRuuvi(ss: seq<AdStructure>): (k: nat)
    ensures k <= |ss| && forall j | 0 <= j < k :: !IsRuuvi(ss[j])
    ensures k < |ss| ==> IsRuuvi(ss[k])
  {
    if ss == [] || IsRuuvi(ss[0]) then 0 else 1 + FirstRuuvi(ss[1..])
  }

  lemma {:induction false} FirstOfRuuvi(ss: seq<AdStructure>)
    ensures FirstOf(ss, RUUVI) == if FirstRuuvi(ss) < |ss| then Some(ss[FirstRuuvi(ss)].body[2..]) else None
  {
    if ss != [] && !IsRuuvi(ss[0]) {
      FirstOfRuuvi(ss[1..]);
    }
  }

  /** The handler call for complete data, from the structures they decode to. */
  lemma CallForStructures(addr: string, rssi: int, data: seq<byte>)
    ensures var ss := Structures(data);
            var k := FirstRuuvi(ss);
            CallFor(addr, rssi, data) ==
            if k < |ss| && |ss[k].body| > 2 then [Call(addr, rssi, ss[k].body[2..])] else []
  {
    FirstOfRuuvi(Structures(data));
  }

  /**
   What a report does when it completes data that are a list of structures and zero padding: one call, with the address and
   signal strength of the report and the whole payload, if the first Ruuvi structure has one, of any length; otherwise none.
   */
  lemma HandlerCallExactly(t: Table, r: Report, ss: seq<AdStructure>, padding: seq<byte>)
    requires (forall s | s in ss :: s.Encodable()) && forall z | z in padding :: z == 0
    requires Add(t, r).1 == Some(EncodeAll(ss) + padding)
    ensures forall k | 0 <= k < |ss| && IsRuuvi(ss[k]) && (forall j | 0 <= j < k :: !IsRuuvi(ss[j])) ::
              Handle(t, r).1 == if |ss[k].body| > 2 then [Call(r.addr, r.rssi, ss[k].body[2..])] else []
    ensures (forall k | 0 <= k < |ss| :: !IsRuuvi(ss[k])) ==> Handle(t, r).1 == []
  {
    var data, end := EncodeAll(ss) + padding, |EncodeAll(ss)|;
    assert data[0..end] == EncodeAll(ss);
    assert end < |data| ==> data[end] == padding[0] && padding[0] in padding;
    AdStructures.DecodeEncode(data, 0, ss, end);
    CallForStructures(r.addr, r.rssi, data);
    forall k | 0 <= k < |ss| && IsRuuvi(ss[k]) && (forall j | 0 <= j < k :: !IsRuuvi(ss[j]))
      ensures k == FirstRuuvi(ss)
    {
    }
  }

  /** A report that completes nothing makes no call. */
  lemma NoCallBefore(t: Table, r: Report)
    requires r.status != 0
    ensures Handle(t, r).1 == []
  {
  }

  function HandleAll(t: Table, rs: seq<Report>): (Table, seq<Call>)
    decreases rs
  {
    if rs == [] then (t, [])
    else
      var (t1, calls) := Handle(t, rs[0]);
      var (t2, more) := HandleAll(t1, rs[1..]);
      (t2, calls + more)
  }

  /** The bytes of an event packet long enough to be looked at. */
  predicate IsEvent(read: Read) {
    read.Packet? && |read.bytes| >= 3 && read.bytes[0] == EVENT_PACKET
  }

  /** The reports found in one read; a malformed tail does not undo the reports before it. */
  function Heard(read: Read): seq<Report> {
    if IsEvent(read) then Parse(read.bytes[1..]).reports else []
  }

  function Step(s: State, turn: Turn): State {
    if turn.cancelled then s.(ending := Cancelled)
    else if turn.read.Broken? then s.(ending := ReadFailed)
    else if turn.read.Packet? && !IsEvent(turn.read) then s
    else
      var (t, calls) := HandleAll(s.table, Heard(turn.read));
      var last := if calls == [] then s.last else turn.heardAt;
      State(t, last, s.calls + calls, if turn.checkedAt - last > SILENCE_TIMEOUT then Silent else Running)
  }

  function Run(s: State, turns: seq<Turn>): State
    decreases turns
  {
    if turns == [] || !s.ending.Running? then s else Run(Step(s, turns[0]), turns[1..])
  }

  function HeardAll(turns: seq<Turn>): seq<Report> {
    if turns == [] then [] else Heard(turns[0].read) + HeardAll(turns[1..])
  }

  lemma {:induction false} HandleConcat(t: Table, a: seq<Report>, b: seq<Report>)
    ensures var (t1, calls) := HandleAll(t, a);
            var (t2, more) := HandleAll(t1, b);
            HandleAll(t, a + b) == (t2, calls + more)
    decreases a
  {
    if a == [] {
      assert a + b == b && [] + HandleAll(t, b).1 == HandleAll(t, b).1;
    } else {
      assert (a + b)[0] == a[0] && (a + b)[1..] == a[1..] + b;
      var (t0, call) := Handle(t, a[0]);
      var (t1, calls) := HandleAll(t0, a[1..]);
      var (t2, more) := HandleAll(t1, b);
      HandleConcat(t0, a[1..], b);
      assert call + (calls + more) == call + calls + more;
    }
  }

  lemma HandleCons(t: Table, r: Report, rest: seq<Report>)
    ensures var (t', call) := Handle(t, r);
            HandleAll(t, [r] + rest) == (HandleAll(t', rest).0, call + HandleAll(t', rest).1)
  {
    assert ([r] + rest)[1..] == rest;
  }

  lemma HandleNone(t: Table)
    ensures HandleAll(t, []) == (t, [])
  {
  }

  /** A turn that is neither cancelled nor broken: what it hears is handled, then the silence is looked at. */
  lemma StepReads(s: State, turn: Turn)
    requires s.ending.Running?
    ensures turn.cancelled ==> Step(s, turn) == s.(ending := Cancelled)
    ensures !turn.cancelled && turn.read.Broken? ==> Step(s, turn) == s.(ending := ReadFailed)
    ensures !turn.cancelled && !turn.read.Broken? ==>
              var (t, calls) := HandleAll(s.table, Heard(turn.read));
              var last := if calls == [] then s.last else turn.heardAt;
              var ending := if Looks(turn) && turn.checkedAt - last > SILENCE_TIMEOUT then Silent else Running;
              Step(s, turn) == State(t, last, s.calls + calls, ending)
    ensures turn.read.Retry? || turn.read.Broken? ==> HandleAll(s.table, Heard(turn.read)) == (s.table, [])
    ensures s.calls + [] == s.calls
  {
    HandleNone(s.table);
  }

  /** The turns whose reads a session handles: all up to the one that ends it, and that one unless it was cancelled. */
  function Attended(s: State, turns: seq<Turn>): seq<Turn>
    decreases turns
  {
    if turns == [] || !s.ending.Running? || turns[0].cancelled then []
    else [turns[0]] + Attended(Step(s, turns[0]), turns[1..])
  }

  /** They are the first turns, and all of them if the session is still running. */
  lemma {:induction false} AttendedFirst(s: State, turns: seq<Turn>)
    ensures Attended(s, turns) <= turns
    ensures Run(s, turns).ending.Running? ==> Attended(s, turns) == turns
    decreases turns
  {
    hide Step;
    if turns != [] && s.ending.Running? {
      StepReads(s, turns[0]);
      AttendedFirst(Step(s, turns[0]), turns[1..]);
    }
  }

  /**
   How the stream is cut into reads does not matter: however a session ends, and if it is still running, it has handled all
   reports heard in the turns it attended, in order.
   */
  lemma {:induction false} RunHandlesAll(s: State, turns: seq<Turn>)
    ensures var (t, calls) := HandleAll(s.table, HeardAll(Attended(s, turns)));
            Run(s, turns).table == t && Run(s, turns).calls == s.calls + calls
    decreases turns
  {
    hide Step, HandleAll, Heard;
    var attended := Attended(s, turns);
    if attended == [] {
      HandleNone(s.table);
      NothingAttended(s, turns);
    } else {
      var s' := Step(s, turns[0]);
      StepReads(s, turns[0]);
      RunHandlesAll(s', turns[1..]);
      assert attended[0] == turns[0] && attended[1..] == Attended(s', turns[1..]);
      HandleConcat(s.table, Heard(turns[0].read), HeardAll(attended[1..]));
    }
  }

  lemma NothingAttended(s: State, turns: seq<Turn>)
    requires Attended(s, turns) == []
    ensures Run(s, turns).table == s.table && Run(s, turns).calls == s.calls
  {
  }

  lemma {:induction false} HandledTable(t: Table, rs: seq<Report>)
    ensures HandleAll(t, rs).0 == After(t, rs)
    decreases rs
  {
    if rs != [] {
      HandledTable(Handle(t, rs[0]).0, rs[1..]);
    }
  }

  lemma {:induction false} HeardInBounds(turns: seq<Turn>)
    ensures ShortData(HeardAll(turns)) && forall r | r in HeardAll(turns) :: |r.addr| == 17 && NoLowerCase(r.addr)
  {
    if turns != [] {
      var read := turns[0].read;
      if IsEvent(read) && EventLayout(read.bytes[1..]).Some? {
        ParsedInBounds(EventLayout(read.bytes[1..]).value, read.bytes[1..], 4, read.bytes[4], 0);
      }
      HeardInBounds(turns[1..]);
    }
  }

  /**
   The table of a session as a function of all it has heard: a stream has an entry exactly when its last report had status
   1, the entry is what was accepted since the last other status, and it never passes the bound.
   */
  lemma SessionTableIsHistory(now: int, turns: seq<Turn>, key: string)
    ensures var t, heard := Run(Start(now), turns).table, HeardAll(Attended(Start(now), turns));
            && (key in t <==> LastStatus(key, heard) == Some(1))
            && Lookup(t, key) == Accepted(Pending(key, heard))
            && |Lookup(t, key)| <= 1650
  {
    hide Attended, Run;
    var heard := HeardAll(Attended(Start(now), turns));
    RunHandlesAll(Start(now), turns);
    HandledTable(map[], heard);
    HeardInBounds(Attended(Start(now), turns));
    TableIsHistory(heard, key);
  }

  // ---------------------------------------------------------------------------------------------------------
  // The silence watchdog.

  /** The time of the last handler call, or the given start. */
  function LastCall(t: Table, last: int, turns: seq<Turn>): int
    decreases turns
  {
    if turns == [] then last
    else
      var (t', calls) := HandleAll(t, Heard(turns[0].read));
      LastCall(t', if calls == [] then last else turns[0].heardAt, turns[1..])
  }

  /** A turn that looks at the silence timeout; a packet that is no event, or too short, skips it. */
  predicate Looks(turn: Turn) {
    turn.read.Retry? || IsEvent(turn.read)
  }

  /** A turn the session gets through, being the last of these turns. */
  ghost predicate GetsThrough(s: State, turns: seq<Turn>)
    requires turns != []
  {
    var turn := turns[|turns| - 1];
    && !turn.cancelled && !turn.read.Broken?
    && (Looks(turn) ==> turn.checkedAt - LastCall(s.table, s.last, turns) <= 60_000_000_000)
  }

  lemma StepSurvives(s: State, turn: Turn)
    requires s.ending.Running?
    ensures Step(s, turn).ending.Running? <==> GetsThrough(s, [turn])
    ensures GetsThrough(s, [turn]) ==>
              var (t, calls) := HandleAll(s.table, Heard(turn.read));
              var s' := Step(s, turn);
              s'.table == t && s'.last == if calls == [] then s.last else turn.heardAt
  {
    var (t, calls) := HandleAll(s.table, Heard(turn.read));
    var last := if calls == [] then s.last else turn.heardAt;
    assert [turn][0] == turn && [turn][1..] == [];
    assert LastCall(s.table, s.last, [turn]) == LastCall(t, last, []) == last;
  }

  /**
   A session survives a run of turns exactly when no turn is cancelled or fails to read and every turn that looks at the
   timeout finds a handler call in the last minute.
   */
  lemma {:induction false} SurvivesExactly(s: State, turns: seq<Turn>)
    requires s.ending.Running?
    ensures Run(s, turns).ending.Running? <==> forall j | 1 <= j <= |turns| :: GetsThrough(s, turns[..j])
    decreases turns
  {
    if turns != [] {
      var s' := Step(s, turns[0]);
      StepSurvives(s, turns[0]);
      assert turns[..1] == [turns[0]];
      if s'.ending.Running? {
        SurvivesExactly(s', turns[1..]);
        forall j | 1 <= j <= |turns[1..]|
          ensures GetsThrough(s, turns[..j + 1]) <==> GetsThrough(s', turns[1..][..j])
        {
          assert turns[..j + 1][0] == turns[0] && turns[..j + 1][1..] == turns[1..][..j];
        }
        assert forall j | 2 <= j <= |turns| :: GetsThrough(s, turns[..j]) <==> GetsThrough(s', turns[1..][..j - 1]);
        forall j | 1 <= j <= |turns[1..]| && forall k | 1 <= k <= |turns| :: GetsThrough(s, turns[..k])
          ensures GetsThrough(s', turns[1..][..j])
        {
          assert GetsThrough(s, turns[..j + 1]);
        }
      } else {
        assert !GetsThrough(s, turns[..1]);
      }
    }
  }

  /** The first turn a session does not get through says how it ends. */
  lemma {:induction false} EndsExactly(s: State, turns: seq<Turn>, n: nat)
    requires s.ending.Running? && n < |turns| && !GetsThrough(s, turns[..n + 1])
    requires forall j | 1 <= j <= n :: GetsThrough(s, turns[..j])
    ensures Run(s, turns).ending ==
            if turns[n].cancelled then Cancelled else if turns[n].read.Broken? then ReadFailed else Silent
    decreases n
  {
    hide Step, Heard, HandleAll;
    var s' := Step(s, turns[0]);
    StepSurvives(s, turns[0]);
    assert turns[..1] == [turns[0]];
    if n == 0 {
      StepReads(s, turns[0]);
    } else {
      assert GetsThrough(s, turns[..1]);
      forall j | 1 <= j <= n
        ensures GetsThrough(s, turns[..j + 1]) <==> GetsThrough(s', turns[1..][..j])
      {
        assert turns[..j + 1][0] == turns[0] && turns[..j + 1][1..] == turns[1..][..j];
      }
      assert forall j | 1 <= j <= n - 1 :: GetsThrough(s, turns[..j + 1]) && GetsThrough(s', turns[1..][..j]);
      EndsExactly(s', turns[1..], n - 1);
    }
  }

  /** A read that skips the look at the silence timeout and is handled by doing nothing. */
  predicate Skipped(turn: Turn) {
    !turn.cancelled && turn.read.Packet? && !IsEvent(turn.read)
  }

  /** The watchdog is not reached by packets that are no events: a session fed only those never ends, however late it is. */
  lemma {:induction false} SilentButAlive(s: State, turns: seq<Turn>)
    requires forall turn | turn in turns :: Skipped(turn)
    ensures Run(s, turns) == s
    decreases turns
  {
    if turns != [] {
      assert turns[0] in turns;
      SilentButAlive(s, turns[1..]);
    }
  }

  /** Such packets exist: this one keeps a session alive at any time. */
  lemma SilentPacket(now: int, late: int)
    ensures var turn := Turn(false, Packet([0x02, 0x00, 0x20]), late, late);
            Skipped(turn) && Run(Start(now), [turn, turn]) == Start(now)
  {
    var turn := Turn(false, Packet([0x02, 0x00, 0x20]), late, late);
    SilentButAlive(Start(now), [turn, turn]);
  }
}
