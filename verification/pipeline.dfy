/**
 The advertisement callback and the publisher as two processes that take atomic steps over shared state. A step is one map,
 counter or channel operation; any interleaving of steps is a run. The clock moves in steps of its own.
 */
module Pipeline {
  import opened Bytes
  import opened Durations
  import opened Addresses
  import opened RateLimiting
  import Measurements
  import FrameParser

  type Measurement = Measurements.Measurement

  const QUEUE_SIZE := 64
  const E1_PREFER_WINDOW := 300 * SECOND

  /** An advertisement as the scanner hands it over. */
  datatype Frame = Frame(addr: string, rssi: int, data: seq<byte>)

  /** Where the callback is: the frame it works on, later its measurement and the time the limiter admitted it. */
  datatype Callback =
    | Idle
    | Seen(frame: Frame)
    | Counted(frame: Frame)
    | Chosen(frame: Frame)
    | Admitted(frame: Frame, admittedAt: int)
    | Parsed(m: Measurement, admittedAt: int)
    | Ready(m: Measurement, admittedAt: int)

  datatype Publisher = Waiting | Busy(m: Measurement, since: int) | Stopped

  /**
   An accepted measurement: when the limiter admitted it, when it was queued, how many were in the queue before it, and how
   many E1 frames had been heard by then.
   */
  datatype Entry = Entry(m: Measurement, admittedAt: int, at: int, behind: nat, e1Heard: nat)

  datatype Stamp = Stamp(mac: string, at: int)

  datatype Counters = Counters(total: nat, published: nat, failures: nat, rateLimited: nat, parseErrors: nat)

  /** What the program keeps. */
  datatype Memory = Memory(lastSeen: Times, lastE1: Times, lastSent: Times, discovered: set<string>, counters: Counters,
                           queue: seq<Measurement>)

  /** What only the laws talk about: suppressed frames, E1 frames heard, measurements accepted, measurements taken. */
  datatype History = History(suppressed: nat, e1: seq<Stamp>, accepted: seq<Entry>, taken: seq<Measurement>)

  datatype State = State(clock: int, memory: Memory, callback: Callback, publisher: Publisher, cancelled: bool, history: History)

  datatype Step =
    | Tick(now: int)
    | Receive(frame: Frame)
    | Count
    | Prefer
    | Limit
    | Parse
    | Discover(ok: bool)
    | Enqueue
    | Take
    | Finish(ok: bool)
    | Cancel
    | Stop

  predicate IsCallbackStep(step: Step) {
    step.Receive? || step.Count? || step.Prefer? || step.Limit? || step.Parse? || step.Discover? || step.Enqueue?
  }

  function Initial(now: int): State {
    State(now, Memory(map[], map[], map[], {}, Counters(0, 0, 0, 0, 0), []), Idle, Waiting, false, History(0, [], [], []))
  }

  predicate Possible(s: State, step: Step) {
    match step
    case Tick(now) => now >= s.clock
    case Receive(_) => s.callback.Idle?
    case Count => s.callback.Seen?
    case Prefer => s.callback.Counted?
    case Limit => s.callback.Chosen?
    case Parse => s.callback.Admitted?
    case Discover(_) => s.callback.Parsed?
    case Enqueue => s.callback.Ready?
    case Take => s.publisher.Waiting? && s.memory.queue != []
    case Finish(_) => s.publisher.Busy?
    case Cancel => true
    case Stop => s.publisher.Waiting? && s.cancelled
  }

  predicate Filtered(cfg: Config, addr: string) {
    cfg.named && addr !in cfg.devices
  }

  /** The E1 rule: a format 6 frame is dropped while an E1 frame of its device is less than five minutes old. */
  predicate Suppressed(memory: Memory, f: Frame, now: int) {
    f.data != [] && f.data[0] == 0x06 && f.addr in memory.lastE1 && now - memory.lastE1[f.addr] < E1_PREFER_WINDOW
  }

  lemma SuppressedSame(a: Memory, b: Memory, f: Frame, now: int)
    requires a.lastE1 == b.lastE1
    ensures Suppressed(a, f, now) == Suppressed(b, f, now)
  {
  }

  function OnReceive(cfg: Config, s: State, f: Frame): State {
    var addr := Upper(f.addr);
    if Filtered(cfg, addr) then s
    else s.(memory := s.memory.(lastSeen := s.memory.lastSeen[addr := s.clock]), callback := Seen(f.(addr := addr)))
  }

  function OnCount(s: State): State
    requires s.callback.Seen?
  {
    var c := s.memory.counters;
    s.(memory := s.memory.(counters := c.(total := c.total + 1)), callback := Counted(s.callback.frame))
  }

  function OnPrefer(s: State): State
    requires s.callback.Counted?
  {
    var f := s.callback.frame;
    if f.data != [] && f.data[0] == 0xE1 then
      s.(memory := s.memory.(lastE1 := s.memory.lastE1[f.addr := s.clock]), callback := Chosen(f),
         history := s.history.(e1 := s.history.e1 + [Stamp(f.addr, s.clock)]))
    else if Suppressed(s.memory, f, s.clock) then
      s.(callback := Idle, history := s.history.(suppressed := s.history.suppressed + 1))
    else s.(callback := Chosen(f))
  }

  function OnLimit(cfg: Config, s: State): State
    requires s.callback.Chosen?
  {
    var f := s.callback.frame;
    var (sent, ok) := Admit(cfg, s.memory.lastSent, f.addr, s.clock);
    var c := s.memory.counters;
    if ok then s.(memory := s.memory.(lastSent := sent), callback := Admitted(f, s.clock))
    else s.(memory := s.memory.(counters := c.(rateLimited := c.rateLimited + 1)), callback := Idle)
  }

  /** The measurement of a frame, with its sender and the configured name, or None when it cannot be parsed. */
  function MeasurementOf(cfg: Config, f: Frame, now: int): Option<Measurement> {
    var r := FrameParser.Parse(cfg.extendedValues, f.data);
    if r.Failed? then None
    else
      var m := r.m.(mac := f.addr, rssi := f.rssi, timestamp := now / SECOND);
      Some(if f.addr in cfg.devices && cfg.devices[f.addr].name != "" then m.(name := cfg.devices[f.addr].name) else m)
  }

  function OnParse(cfg: Config, s: State): State
    requires s.callback.Admitted?
  {
    var c := s.memory.counters;
    match MeasurementOf(cfg, s.callback.frame, s.clock)
    case None => s.(memory := s.memory.(counters := c.(parseErrors := c.parseErrors + 1)), callback := Idle)
    case Some(m) => s.(callback := Parsed(m, s.callback.admittedAt))
  }

  function OnDiscover(cfg: Config, s: State, ok: bool): State
    requires s.callback.Parsed?
  {
    var mac := s.callback.m.mac;
    var known := s.memory.discovered;
    s.(memory := s.memory.(discovered := if cfg.discovery && mac !in known && ok then known + {mac} else known),
       callback := Ready(s.callback.m, s.callback.admittedAt))
  }

  function OnEnqueue(s: State): State
    requires s.callback.Ready?
  {
    var c, q := s.memory.counters, s.memory.queue;
    if |q| < QUEUE_SIZE then
      s.(memory := s.memory.(queue := q + [s.callback.m]), callback := Idle,
         history := s.history.(accepted :=
           s.history.accepted + [Entry(s.callback.m, s.callback.admittedAt, s.clock, |q|, |s.history.e1|)]))
    else s.(memory := s.memory.(counters := c.(failures := c.failures + 1)), callback := Idle)
  }

  function OnTake(s: State): State
    requires s.publisher.Waiting? && s.memory.queue != []
  {
    var m := s.memory.queue[0];
    s.(memory := s.memory.(queue := s.memory.queue[1..]), publisher := Busy(m, s.clock),
       history := s.history.(taken := s.history.taken + [m]))
  }

  function OnFinish(s: State, ok: bool): State
    requires s.publisher.Busy?
  {
    var c := s.memory.counters;
    s.(memory := s.memory.(counters := if ok then c.(published := c.published + 1) else c.(failures := c.failures + 1)),
       publisher := Waiting)
  }

  function Next(cfg: Config, s: State, step: Step): State
    requires Possible(s, step)
  {
    match step
    case Tick(now) => s.(clock := now)
    case Receive(f) => OnReceive(cfg, s, f)
    case Count => OnCount(s)
    case Prefer => OnPrefer(s)
    case Limit => OnLimit(cfg, s)
    case Parse => OnParse(cfg, s)
    case Discover(ok) => OnDiscover(cfg, s, ok)
    case Enqueue => OnEnqueue(s)
    case Take => OnTake(s)
    case Finish(ok) => OnFinish(s, ok)
    case Cancel => s.(cancelled := true)
    case Stop => s.(publisher := Stopped)
  }

  ghost predicate IsRun(cfg: Config, s: State, steps: seq<Step>)
    decreases steps
  {
    steps == [] || (Possible(s, steps[0]) && IsRun(cfg, Next(cfg, s, steps[0]), steps[1..]))
  }

  ghost function Exec(cfg: Config, s: State, steps: seq<Step>): State
    requires IsRun(cfg, s, steps)
    decreases steps
  {
    if steps == [] then s else Exec(cfg, Next(cfg, s, steps[0]), steps[1..])
  }

  // ---------------------------------------------------------------------------------------------------------
  // Conservation.

  function InCallback(s: State): nat {
    if s.callback.Idle? || s.callback.Seen? then 0 else 1
  }

  function InFlight(s: State): nat {
    if s.publisher.Busy? then 1 else 0
  }

  /** Every counted advertisement is accounted for exactly once. */
  predicate Conserved(s: State) {
    var c := s.memory.counters;
    c.total == s.history.suppressed + c.rateLimited + c.parseErrors + c.published + c.failures
               + |s.memory.queue| + InFlight(s) + InCallback(s)
  }

  lemma ConservedEntry(cfg: Config, s: State, f: Frame)
    requires Conserved(s)
    ensures s.callback.Idle? ==> Conserved(OnReceive(cfg, s, f))
    ensures s.callback.Seen? ==> Conserved(OnCount(s))
    ensures s.callback.Counted? ==> Conserved(OnPrefer(s))
  {
    hide Filtered, Suppressed, Upper;
  }

  lemma ConservedLimit(cfg: Config, s: State)
    requires s.callback.Chosen? && Conserved(s)
    ensures Conserved(OnLimit(cfg, s))
  {
    hide Admit;
  }

  lemma ConservedParse(cfg: Config, s: State)
    requires s.callback.Admitted? && Conserved(s)
    ensures Conserved(OnParse(cfg, s))
  {
    hide MeasurementOf;
  }

  lemma ConservedDiscover(cfg: Config, s: State, ok: bool)
    requires s.callback.Parsed? && Conserved(s)
    ensures Conserved(OnDiscover(cfg, s, ok))
  {
  }

  lemma ConservedChannel(s: State, ok: bool)
    requires Conserved(s)
    ensures s.callback.Ready? ==> Conserved(OnEnqueue(s))
    ensures s.publisher.Waiting? && s.memory.queue != [] ==> Conserved(OnTake(s))
    ensures s.publisher.Busy? ==> Conserved(OnFinish(s, ok))
  {
  }

  lemma ConservedNext(cfg: Config, s: State, step: Step)
    requires Possible(s, step) && Conserved(s)
    ensures Conserved(Next(cfg, s, step))
  {
    hide OnReceive, OnCount, OnPrefer, OnLimit, OnParse, OnDiscover, OnEnqueue, OnTake, OnFinish;
    match step
    case Receive(f) => ConservedEntry(cfg, s, f);
    case Count => ConservedEntry(cfg, s, Frame("", 0, []));
    case Prefer => ConservedEntry(cfg, s, Frame("", 0, []));
    case Limit => ConservedLimit(cfg, s);
    case Parse => ConservedParse(cfg, s);
    case Discover(ok) => ConservedDiscover(cfg, s, ok);
    case Enqueue => ConservedChannel(s, false);
    case Take => ConservedChannel(s, false);
    case Finish(ok) => ConservedChannel(s, ok);
    case _ =>
  }

  // ---------------------------------------------------------------------------------------------------------
  // The queue.

  function MeasurementsOf(entries: seq<Entry>): seq<Measurement> {
    seq(|entries|, i requires 0 <= i < |entries| => entries[i].m)
  }

  /** The measurements taken followed by the queue are the accepted ones in order, the queue is bounded. */
  ghost predicate QueueSafe(s: State) {
    var h := s.history;
    && h.taken + s.memory.queue == MeasurementsOf(h.accepted)
    && |s.memory.queue| <= 64
    && (s.publisher.Busy? ==> h.taken != [] && s.publisher.m == h.taken[|h.taken| - 1])
  }

  lemma QueueSafeNext(cfg: Config, s: State, step: Step)
    requires Possible(s, step) && QueueSafe(s)
    ensures QueueSafe(Next(cfg, s, step))
    ensures s.history.accepted <= Next(cfg, s, step).history.accepted
    ensures s.history.taken <= Next(cfg, s, step).history.taken
  {
    hide MeasurementOf, Filtered, Suppressed, Upper, Admit;
    var h, q := s.history, s.memory.queue;
    if step.Enqueue? && |q| < QUEUE_SIZE {
      var entry := Entry(s.callback.m, s.callback.admittedAt, s.clock, |q|, |h.e1|);
      assert MeasurementsOf(h.accepted + [entry]) == MeasurementsOf(h.accepted) + [entry.m];
      assert h.taken + (q + [entry.m]) == h.taken + q + [entry.m];
    } else if step.Take? {
      assert h.taken + [q[0]] + q[1..] == h.taken + q;
    }
  }

  // ---------------------------------------------------------------------------------------------------------
  // E1 over format 6.

  /** The last E1 time of each device is the time of its last E1 frame, and the clock is past all of them. */
  ghost predicate E1Kept(s: State) {
    && (forall i | 0 <= i < |s.history.e1| ::
          var stamp := s.history.e1[i];
          stamp.mac in s.memory.lastE1 && stamp.at <= s.memory.lastE1[stamp.mac])
    && (forall mac | mac in s.memory.lastE1 :: s.memory.lastE1[mac] <= s.clock)
  }

  /** The time of the last stamp of a device. */
  function LatestOf(stamps: seq<Stamp>, mac: string): Option<int> {
    if stamps == [] then None
    else
      var last := stamps[|stamps| - 1];
      if last.mac == mac then Some(last.at) else LatestOf(stamps[..|stamps| - 1], mac)
  }

  /** The E1 time kept of a device is that of its last E1 frame, and there is none before its first. */
  ghost predicate E1Latest(s: State) {
    forall mac :: Last(s.memory.lastE1, mac) == LatestOf(s.history.e1, mac)
  }

  lemma {:induction false} LatestIsStamp(stamps: seq<Stamp>, mac: string)
    ensures LatestOf(stamps, mac).Some? ==>
              exists i :: 0 <= i < |stamps| && stamps[i] == Stamp(mac, LatestOf(stamps, mac).value)
  {
    if stamps != [] && stamps[|stamps| - 1].mac != mac {
      LatestIsStamp(stamps[..|stamps| - 1], mac);
    } else if stamps != [] {
      assert stamps[|stamps| - 1] == Stamp(mac, stamps[|stamps| - 1].at);
    }
  }

  lemma E1LatestNext(cfg: Config, s: State, step: Step)
    requires Possible(s, step) && E1Latest(s)
    ensures E1Latest(Next(cfg, s, step))
  {
    hide MeasurementOf, Filtered, Suppressed, Upper, Admit;
    if step.Prefer? {
      E1LatestPrefer(s);
    }
  }

  lemma LatestAfter(stamps: seq<Stamp>, stamp: Stamp, mac: string)
    ensures LatestOf(stamps + [stamp], mac) == if stamp.mac == mac then Some(stamp.at) else LatestOf(stamps, mac)
  {
    assert (stamps + [stamp])[..|stamps + [stamp]| - 1] == stamps;
  }

  lemma E1LatestPrefer(s: State)
    requires s.callback.Counted? && E1Latest(s)
    ensures E1Latest(OnPrefer(s))
  {
    hide Suppressed, LatestOf;
    var f, e1 := s.callback.frame, s.history.e1;
    forall mac
      ensures Last(OnPrefer(s).memory.lastE1, mac) == LatestOf(OnPrefer(s).history.e1, mac)
    {
      assert Last(s.memory.lastE1, mac) == LatestOf(e1, mac);
      LatestAfter(e1, Stamp(f.addr, s.clock), mac);
    }
  }

  /** The first n E1 frames heard: none of this device is less than five minutes older than this time. */
  ghost predicate NoRecentE1(s: State, n: nat, mac: string, at: int)
    requires n <= |s.history.e1|
  {
    forall i | 0 <= i < n && s.history.e1[i].mac == mac :: s.history.e1[i].at + 300_000_000_000 <= at
  }

  /** The measurement a frame in the callback would become is of format 6. */
  predicate HoldsFormat6(c: Callback) {
    match c
    case Chosen(f) => f.data != [] && f.data[0] == 0x06
    case Admitted(f, _) => f.data != [] && f.data[0] == 0x06
    case Parsed(m, _) => m.format == 6
    case Ready(m, _) => m.format == 6
    case _ => false
  }

  function Sender(c: Callback): string
    requires !c.Idle?
  {
    if c.Parsed? || c.Ready? then c.m.mac else c.frame.addr
  }

  /** Every accepted format 6 measurement: the E1 frames heard from its device before it are all five minutes older. */
  ghost predicate NoAlternation(s: State) {
    && E1Kept(s)
    && (HoldsFormat6(s.callback) ==> NoRecentE1(s, |s.history.e1|, Sender(s.callback), s.clock))
    && (forall j | 0 <= j < |s.history.accepted| ::
          var a := s.history.accepted[j];
          a.e1Heard <= |s.history.e1| && (a.m.format == 6 ==> NoRecentE1(s, a.e1Heard, a.m.mac, a.at)))
  }

  lemma MeasurementFormat(cfg: Config, f: Frame, now: int)
    ensures var m := MeasurementOf(cfg, f, now);
            m.Some? ==> f.data != [] && m.value.format == f.data[0] as int && m.value.mac == f.addr
  {
    hide FrameParser.Parse;
    if FrameParser.Parse(cfg.extendedValues, f.data).Ok? {
      FrameParser.ParsedFormat(cfg.extendedValues, f.data);
    }
  }

  /** What a measurement says: its sender and signal strength, the second, the configured name, the readings of the frame. */
  lemma MeasurementExactly(cfg: Config, f: Frame, now: int)
    ensures var m, r := MeasurementOf(cfg, f, now), FrameParser.Parse(cfg.extendedValues, f.data);
            && (m.Some? <==> r.Ok?)
            && (m.Some? ==>
                  && m.value.mac == f.addr && m.value.rssi == f.rssi
                  && m.value.timestamp * 1_000_000_000 <= now < (m.value.timestamp + 1) * 1_000_000_000
                  && (f.addr in cfg.devices && cfg.devices[f.addr].name != "" ==> m.value.name == cfg.devices[f.addr].name)
                  && (f.addr !in cfg.devices ==> m.value.name == r.m.name)
                  && r.m == m.value.(mac := r.m.mac, rssi := r.m.rssi, timestamp := r.m.timestamp, name := r.m.name))
  {
    hide FrameParser.Parse;
  }

  /** Steps that touch neither the E1 times nor the accepted measurements. */
  lemma NoAlternationSame(s: State, s': State)
    requires NoAlternation(s) && s.clock <= s'.clock && s'.memory.lastE1 == s.memory.lastE1
    requires s'.history.e1 == s.history.e1 && s'.history.accepted == s.history.accepted
    requires HoldsFormat6(s'.callback) ==> HoldsFormat6(s.callback) && Sender(s'.callback) == Sender(s.callback)
    ensures NoAlternation(s')
  {
    forall j | 0 <= j < |s'.history.accepted| && s'.history.accepted[j].m.format == 6
      ensures var a := s'.history.accepted[j]; a.e1Heard <= |s'.history.e1| && NoRecentE1(s', a.e1Heard, a.m.mac, a.at)
    {
      var a := s.history.accepted[j];
      assert NoRecentE1(s, a.e1Heard, a.m.mac, a.at);
    }
  }

  lemma NoAlternationPrefer(s: State)
    requires s.callback.Counted? && NoAlternation(s)
    ensures NoAlternation(OnPrefer(s))
  {
    var s' := OnPrefer(s);
    forall j | 0 <= j < |s'.history.accepted| && s'.history.accepted[j].m.format == 6
      ensures var a := s'.history.accepted[j]; a.e1Heard <= |s'.history.e1| && NoRecentE1(s', a.e1Heard, a.m.mac, a.at)
    {
      var a := s.history.accepted[j];
      assert NoRecentE1(s, a.e1Heard, a.m.mac, a.at);
    }
  }

  lemma NoAlternationEnqueue(s: State)
    requires s.callback.Ready? && NoAlternation(s)
    ensures NoAlternation(OnEnqueue(s))
  {
    var s' := OnEnqueue(s);
    forall j | 0 <= j < |s'.history.accepted| && s'.history.accepted[j].m.format == 6
      ensures var a := s'.history.accepted[j]; a.e1Heard <= |s'.history.e1| && NoRecentE1(s', a.e1Heard, a.m.mac, a.at)
    {
      if j < |s.history.accepted| {
        var a := s.history.accepted[j];
        assert NoRecentE1(s, a.e1Heard, a.m.mac, a.at);
      }
    }
  }

  lemma NoAlternationNext(cfg: Config, s: State, step: Step)
    requires Possible(s, step) && NoAlternation(s)
    ensures NoAlternation(Next(cfg, s, step))
  {
    hide NoAlternation, MeasurementOf, Filtered, Suppressed, Upper, Admit;
    if step.Prefer? {
      NoAlternationPrefer(s);
    } else if step.Enqueue? {
      NoAlternationEnqueue(s);
    } else {
      if step.Parse? {
        MeasurementFormat(cfg, s.callback.frame, s.clock);
      }
      NoAlternationSame(s, Next(cfg, s, step));
    }
  }
}
