/** What every run of the pipeline keeps, from any interleaving of its steps. */
module PipelineLaws {
  import opened RateLimiting
  import opened Pipeline
  import Publishing

  // ---------------------------------------------------------------------------------------------------------
  // Rate of one device.

  /** The admission the callback is working on. */
  predicate HoldsAdmission(c: Callback) {
    c.Admitted? || c.Parsed? || c.Ready?
  }

  /** Accepted measurements of one device were admitted at least its interval apart. */
  ghost predicate Apart(cfg: Config, entries: seq<Entry>) {
    forall i, j | 0 <= i < j < |entries| && entries[i].m.mac == entries[j].m.mac ::
      entries[i].admittedAt + IntervalOf(cfg, entries[j].m.mac) <= entries[j].admittedAt
  }

  /** Every accepted measurement was admitted the interval of its device before this time. */
  ghost predicate AllBefore(cfg: Config, entries: seq<Entry>, mac: string, at: int) {
    forall i | 0 <= i < |entries| && entries[i].m.mac == mac :: entries[i].admittedAt + IntervalOf(cfg, mac) <= at
  }

  ghost predicate RateKept(cfg: Config, s: State) {
    && Apart(cfg, s.history.accepted)
    && (forall mac | mac in s.memory.lastSent :: s.memory.lastSent[mac] <= s.clock)
    && (forall i | 0 <= i < |s.history.accepted| ::
          var e := s.history.accepted[i];
          e.m.mac in s.memory.lastSent && e.admittedAt <= s.memory.lastSent[e.m.mac])
    && (HoldsAdmission(s.callback) ==>
          && Sender(s.callback) in s.memory.lastSent
          && s.callback.admittedAt == s.memory.lastSent[Sender(s.callback)]
          && AllBefore(cfg, s.history.accepted, Sender(s.callback), s.callback.admittedAt))
  }

  /** Steps that neither admit nor accept. */
  lemma RateKeptSame(cfg: Config, s: State, s': State)
    requires RateKept(cfg, s) && s.clock <= s'.clock && s'.memory.lastSent == s.memory.lastSent
    requires s'.history.accepted == s.history.accepted
    requires HoldsAdmission(s'.callback) ==>
               && HoldsAdmission(s.callback) && Sender(s'.callback) == Sender(s.callback)
               && s'.callback.admittedAt == s.callback.admittedAt
    ensures RateKept(cfg, s')
  {
  }

  lemma RateKeptLimit(cfg: Config, s: State)
    requires s.callback.Chosen? && RateKept(cfg, s)
    ensures RateKept(cfg, OnLimit(cfg, s))
  {
  }

  lemma RateKeptEnqueue(cfg: Config, s: State)
    requires s.callback.Ready? && RateKept(cfg, s)
    ensures RateKept(cfg, OnEnqueue(s))
  {
  }

  lemma RateKeptNext(cfg: Config, s: State, step: Step)
    requires Possible(s, step) && RateKept(cfg, s)
    ensures RateKept(cfg, Next(cfg, s, step))
  {
    hide RateKept, MeasurementOf, Filtered, Suppressed, Admit;
    if step.Limit? {
      RateKeptLimit(cfg, s);
    } else if step.Enqueue? {
      RateKeptEnqueue(cfg, s);
    } else {
      if step.Parse? {
        MeasurementFormat(cfg, s.callback.frame, s.clock);
      }
      RateKeptSame(cfg, s, Next(cfg, s, step));
    }
  }

  /** The accepted measurements of a device that were admitted in a span of time. */
  function CountIn(entries: seq<Entry>, mac: string, from: int, to: int): nat {
    if entries == [] then 0
    else
      var e := entries[|entries| - 1];
      CountIn(entries[..|entries| - 1], mac, from, to) + if e.m.mac == mac && from <= e.admittedAt <= to then 1 else 0
  }

  lemma OneMore(n: int, d: int)
    ensures n * d == (n - 1) * d + d
  {
  }

  /** The last of n admissions in a span is at least n - 1 intervals after its start. */
  lemma {:induction false} CountedApart(cfg: Config, entries: seq<Entry>, mac: string, from: int, to: int) returns (j: nat)
    requires Apart(cfg, entries) && IntervalOf(cfg, mac) > 0 && CountIn(entries, mac, from, to) > 0
    ensures j < |entries| && entries[j].m.mac == mac && from <= entries[j].admittedAt <= to
    ensures (CountIn(entries, mac, from, to) - 1) * IntervalOf(cfg, mac) <= entries[j].admittedAt - from
  {
    hide IntervalOf;
    var last := |entries| - 1;
    var e := entries[last];
    if e.m.mac == mac && from <= e.admittedAt <= to {
      j := last;
      var n := CountIn(entries[..last], mac, from, to);
      if n > 0 {
        var i := CountedApart(cfg, entries[..last], mac, from, to);
        assert entries[i].admittedAt + IntervalOf(cfg, mac) <= e.admittedAt;
        OneMore(n, IntervalOf(cfg, mac));
      }
    } else {
      j := CountedApart(cfg, entries[..last], mac, from, to);
    }
  }

  /** In a span W, a device with interval I > 0 has at most W / I + 1 admissions that led to an accepted measurement. */
  lemma RateBound(cfg: Config, s: State, mac: string, from: int, to: int)
    requires RateKept(cfg, s) && IntervalOf(cfg, mac) > 0 && from <= to
    ensures CountIn(s.history.accepted, mac, from, to) <= (to - from) / IntervalOf(cfg, mac) + 1
  {
    hide CountIn, IntervalOf, Apart, AllBefore;
    var n, interval := CountIn(s.history.accepted, mac, from, to), IntervalOf(cfg, mac);
    if n > 0 {
      var j := CountedApart(cfg, s.history.accepted, mac, from, to);
      QuotientBound(n - 1, interval, to - from);
    }
  }

  /** The measurements of a device that were accepted in a span of time. */
  function AcceptedIn(entries: seq<Entry>, mac: string, from: int, to: int): nat {
    if entries == [] then 0
    else
      var e := entries[|entries| - 1];
      AcceptedIn(entries[..|entries| - 1], mac, from, to) + if e.m.mac == mac && from <= e.at <= to then 1 else 0
  }

  /** Every measurement was accepted at most this long after it was admitted. */
  ghost predicate WithinDelay(entries: seq<Entry>, delay: int) {
    forall i | 0 <= i < |entries| :: entries[i].admittedAt <= entries[i].at <= entries[i].admittedAt + delay
  }

  lemma {:induction false} AcceptedWereAdmitted(entries: seq<Entry>, mac: string, from: int, to: int, delay: int)
    requires WithinDelay(entries, delay)
    ensures AcceptedIn(entries, mac, from, to) <= CountIn(entries, mac, from - delay, to)
  {
    if entries != [] {
      AcceptedWereAdmitted(entries[..|entries| - 1], mac, from, to, delay);
    }
  }

  /**
   Counted by when it was accepted, a device with interval I > 0 has at most (W + D) / I + 1 measurements in any span W, D
   bounding the time from admission to acceptance.
   */
  lemma AcceptedRateBound(cfg: Config, s: State, mac: string, from: int, to: int, delay: nat)
    requires RateKept(cfg, s) && WithinDelay(s.history.accepted, delay) && IntervalOf(cfg, mac) > 0 && from <= to
    ensures AcceptedIn(s.history.accepted, mac, from, to) <= (to - from + delay) / IntervalOf(cfg, mac) + 1
  {
    hide CountIn, AcceptedIn, IntervalOf, RateKept;
    AcceptedWereAdmitted(s.history.accepted, mac, from, to, delay);
    RateBound(cfg, s, mac, from - delay, to);
    assert to - (from - delay) == to - from + delay;
  }

  /** The callback takes at most this long from the rate limit to the queue; only discovery makes it wait there. */
  predicate Swift(s: State, step: Step, delay: int) {
    step.Tick? && HoldsAdmission(s.callback) ==> step.now <= s.callback.admittedAt + delay
  }

  ghost predicate IsSwift(cfg: Config, s: State, steps: seq<Step>, delay: int)
    requires IsRun(cfg, s, steps)
    decreases steps
  {
    steps == [] || (Swift(s, steps[0], delay) && IsSwift(cfg, Next(cfg, s, steps[0]), steps[1..], delay))
  }

  ghost predicate DelayKept(s: State, delay: int) {
    && WithinDelay(s.history.accepted, delay)
    && (HoldsAdmission(s.callback) ==> s.callback.admittedAt <= s.clock <= s.callback.admittedAt + delay)
  }

  lemma DelayNext(cfg: Config, s: State, step: Step, delay: nat)
    requires Possible(s, step) && Swift(s, step, delay) && DelayKept(s, delay)
    ensures DelayKept(Next(cfg, s, step), delay)
  {
    hide MeasurementOf, Filtered, Suppressed, Admit;
  }

  /** So on every run whose callback is that swift; a callback that takes no time there gives W / I + 1. */
  lemma {:induction false} EveryRunAcceptedRate(cfg: Config, s: State, steps: seq<Step>, delay: nat, mac: string,
                                                   from: int, to: int)
    requires RateKept(cfg, s) && DelayKept(s, delay) && IntervalOf(cfg, mac) > 0 && from <= to
    requires IsRun(cfg, s, steps) && IsSwift(cfg, s, steps, delay)
    ensures AcceptedIn(Exec(cfg, s, steps).history.accepted, mac, from, to) <= (to - from + delay) / IntervalOf(cfg, mac) + 1
    ensures delay == 0 ==>
              AcceptedIn(Exec(cfg, s, steps).history.accepted, mac, from, to) <= (to - from) / IntervalOf(cfg, mac) + 1
    decreases steps
  {
    hide RateKept, AcceptedIn, IntervalOf, Swift, Next;
    if steps == [] {
      AcceptedRateBound(cfg, s, mac, from, to, delay);
    } else {
      DelayNext(cfg, s, steps[0], delay);
      RateKeptNext(cfg, s, steps[0]);
      EveryRunAcceptedRate(cfg, Next(cfg, s, steps[0]), steps[1..], delay, mac, from, to);
    }
  }

  lemma QuotientBound(n: nat, d: nat, w: int)
    requires d > 0 && n * d <= w
    ensures n <= w / d
  {
    var q := w / d;
    assert (q + 1) * d == q * d + d > w;
    if n > q {
      MulMonotone(q + 1, n, d);
    }
  }

  lemma MulMonotone(a: nat, b: nat, d: nat)
    requires a <= b
    ensures a * d <= b * d
  {
    assert b * d == a * d + (b - a) * d;
  }

  // ---------------------------------------------------------------------------------------------------------
  // Latency.

  /** n times the longest a publication takes, after a time. */
  function Later(at: int, n: int): int {
    at + n * Publishing.LONGEST
  }

  lemma LaterGrows(at: int, n: int, m: int)
    requires n <= m
    ensures Later(at, n) <= Later(at, m)
    ensures Later(Later(at, n), 1) == Later(at, n + 1)
  {
    assert m * Publishing.LONGEST == n * Publishing.LONGEST + (m - n) * Publishing.LONGEST;
  }

  /**
   The publisher is scheduled and the broker client keeps its timeouts: time does not pass while the publisher could take
   a measurement, nor while a publication takes longer than it can.
   */
  predicate Prompt(s: State, step: Step) {
    step.Tick? ==>
      || step.now == s.clock
      || (if s.publisher.Busy? then step.now <= Later(s.publisher.since, 1) else s.memory.queue == [])
  }

  /** What must hold of the measurement at place p of the queue. */
  predicate QueuedOnTime(s: State, e: Entry, p: int) {
    && p <= e.behind && e.at <= s.clock
    && if s.publisher.Busy? then s.publisher.since <= Later(e.at, e.behind - p)
       else s.clock <= Later(e.at, e.behind - p + 1)
  }

  /** What must hold of the measurement being published. */
  predicate PublishedOnTime(s: State, e: Entry)
    requires s.publisher.Busy?
  {
    s.publisher.since <= s.clock <= Later(s.publisher.since, 1) && s.publisher.since <= Later(e.at, e.behind + 1)
  }

  /** The start of the publication under way and the present are bounded by what each measurement found before it. */
  ghost predicate OnTime(s: State)
    requires QueueSafe(s)
  {
    var h := s.history;
    assert |h.taken| + |s.memory.queue| == |h.accepted|;
    && (s.publisher.Busy? ==> PublishedOnTime(s, h.accepted[|h.taken| - 1]))
    && (forall i | |h.taken| <= i < |h.accepted| :: QueuedOnTime(s, h.accepted[i], i - |h.taken|))
  }

  /** Steps that touch neither the clock nor the channel nor the publisher. */
  lemma OnTimeSame(s: State, s': State)
    requires QueueSafe(s) && OnTime(s) && QueueSafe(s') && s'.clock == s.clock && s'.publisher == s.publisher
    requires s'.history.accepted == s.history.accepted && s'.history.taken == s.history.taken
    ensures OnTime(s')
  {
    hide Later;
  }

  lemma OnTimeTick(s: State, now: int)
    requires QueueSafe(s) && OnTime(s) && s.clock <= now && Prompt(s, Tick(now)) && !s.publisher.Stopped?
    ensures QueueSafe(s.(clock := now)) && OnTime(s.(clock := now))
  {
    hide Later;
    assert |s.history.taken| + |s.memory.queue| == |s.history.accepted|;
  }

  lemma OnTimeEnqueue(s: State)
    requires QueueSafe(s) && OnTime(s) && s.callback.Ready? && QueueSafe(OnEnqueue(s)) && !s.publisher.Stopped?
    ensures OnTime(OnEnqueue(s))
  {
    assert |s.history.taken| + |s.memory.queue| == |s.history.accepted|;
  }

  lemma OnTimeTake(s: State)
    requires QueueSafe(s) && OnTime(s) && s.publisher.Waiting? && s.memory.queue != [] && QueueSafe(OnTake(s))
    ensures OnTime(OnTake(s))
  {
    assert |s.history.taken| + |s.memory.queue| == |s.history.accepted|;
  }

  lemma OnTimeFinish(s: State, ok: bool)
    requires QueueSafe(s) && OnTime(s) && s.publisher.Busy? && QueueSafe(OnFinish(s, ok))
    ensures OnTime(OnFinish(s, ok))
  {
  }

  lemma OnTimeNext(cfg: Config, s: State, step: Step)
    requires Possible(s, step) && Prompt(s, step) && QueueSafe(s) && OnTime(s) && !s.publisher.Stopped?
    ensures QueueSafe(Next(cfg, s, step)) && (step.Stop? || OnTime(Next(cfg, s, step)))
  {
    hide OnTime, QueueSafe, Prompt, MeasurementOf, Filtered, Suppressed, Admit, OnEnqueue, OnTake, OnFinish;
    QueueSafeNext(cfg, s, step);
    match step
    case Tick(now) => OnTimeTick(s, now);
    case Enqueue => OnTimeEnqueue(s);
    case Take => OnTimeTake(s);
    case Finish(ok) => OnTimeFinish(s, ok);
    case Stop =>
    case _ => OnTimeSame(s, Next(cfg, s, step));
  }

  /** No measurement that is not yet published or counted failed is older than k + 2 publications, k being queued before it. */
  ghost predicate LatencyKept(s: State) {
    var h := s.history;
    forall i | 0 <= i < |h.accepted| && (i >= |h.taken| || (s.publisher.Busy? && i == |h.taken| - 1)) ::
      s.clock <= h.accepted[i].at + (h.accepted[i].behind + 2) * 11_000_000_000
  }

  lemma LaterExactly(at: int, n: int)
    ensures Later(at, n) == at + n * 11_000_000_000
  {
  }

  lemma OnTimeIsLatency(s: State)
    requires QueueSafe(s) && OnTime(s)
    ensures LatencyKept(s)
  {
    hide Later;
    var h := s.history;
    if s.publisher.Busy? {
      var e := h.accepted[|h.taken| - 1];
      LaterGrows(e.at, e.behind + 1, e.behind + 2);
      EarlierStart(s.publisher.since, Later(e.at, e.behind + 1));
      LaterExactly(e.at, e.behind + 2);
    }
    forall i | |h.taken| <= i < |h.accepted|
      ensures s.clock <= h.accepted[i].at + (h.accepted[i].behind + 2) * 11_000_000_000
    {
      var e, p := h.accepted[i], i - |h.taken|;
      LaterExactly(e.at, e.behind + 2);
      assert QueuedOnTime(s, e, p);
      if s.publisher.Busy? {
        LaterGrows(e.at, e.behind - p, e.behind + 1);
        LaterGrows(e.at, e.behind + 1, e.behind + 2);
        EarlierStart(s.publisher.since, Later(e.at, e.behind + 1));
      } else {
        LaterGrows(e.at, e.behind - p + 1, e.behind + 2);
      }
    }
  }

  lemma EarlierStart(a: int, b: int)
    requires a <= b
    ensures Later(a, 1) <= Later(b, 1)
  {
  }

  // ---------------------------------------------------------------------------------------------------------
  // All runs.

  /** Everything that holds after any run. */
  ghost predicate Lawful(cfg: Config, s: State) {
    Conserved(s) && QueueSafe(s) && NoAlternation(s) && E1Latest(s) && RateKept(cfg, s)
  }

  lemma LawfulInitial(cfg: Config, now: int)
    ensures Lawful(cfg, Initial(now)) && OnTime(Initial(now))
  {
    assert MeasurementsOf([]) == [];
  }

  /**
   Every interleaving of callback, publisher, clock and cancellation conserves the advertisements counted, keeps the queue
   a bounded first-in-first-out channel, enqueues no format 6 measurement within five minutes after an E1 frame of its
   device, and keeps each device to its rate.
   */
  lemma {:induction false} EveryRunLawful(cfg: Config, s: State, steps: seq<Step>)
    requires Lawful(cfg, s) && IsRun(cfg, s, steps)
    ensures Lawful(cfg, Exec(cfg, s, steps))
    ensures s.history.accepted <= Exec(cfg, s, steps).history.accepted
    decreases steps
  {
    if steps != [] {
      ConservedNext(cfg, s, steps[0]);
      QueueSafeNext(cfg, s, steps[0]);
      NoAlternationNext(cfg, s, steps[0]);
      E1LatestNext(cfg, s, steps[0]);
      RateKeptNext(cfg, s, steps[0]);
      EveryRunLawful(cfg, Next(cfg, s, steps[0]), steps[1..]);
    }
  }

  ghost predicate IsPrompt(cfg: Config, s: State, steps: seq<Step>)
    requires IsRun(cfg, s, steps)
    decreases steps
  {
    steps == [] || (Prompt(s, steps[0]) && IsPrompt(cfg, Next(cfg, s, steps[0]), steps[1..]))
  }

  /** On a prompt run, until it is cancelled, no accepted measurement waits longer than (k + 2) times eleven seconds. */
  lemma {:induction false} EveryRunOnTime(cfg: Config, s: State, steps: seq<Step>)
    requires Lawful(cfg, s) && IsRun(cfg, s, steps) && IsPrompt(cfg, s, steps)
    requires OnTime(s) && (s.cancelled || !s.publisher.Stopped?)
    ensures !Exec(cfg, s, steps).cancelled ==> LatencyKept(Exec(cfg, s, steps))
    decreases steps
  {
    if steps == [] {
      OnTimeIsLatency(s);
    } else if s.cancelled {
      CancelledStays(cfg, s, steps);
    } else {
      OnTimeNext(cfg, s, steps[0]);
      LawfulNext(cfg, s, steps[0]);
      EveryRunOnTime(cfg, Next(cfg, s, steps[0]), steps[1..]);
    }
  }

  lemma LawfulNext(cfg: Config, s: State, step: Step)
    requires Lawful(cfg, s) && Possible(s, step)
    ensures Lawful(cfg, Next(cfg, s, step))
  {
    ConservedNext(cfg, s, step);
    QueueSafeNext(cfg, s, step);
    NoAlternationNext(cfg, s, step);
    E1LatestNext(cfg, s, step);
    RateKeptNext(cfg, s, step);
  }

  lemma {:induction false} CancelledStays(cfg: Config, s: State, steps: seq<Step>)
    requires IsRun(cfg, s, steps) && s.cancelled
    ensures Exec(cfg, s, steps).cancelled
    decreases steps
  {
    if steps != [] {
      CancelledStays(cfg, Next(cfg, s, steps[0]), steps[1..]);
    }
  }
}
