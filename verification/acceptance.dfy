/**
 How many measurements of a device are accepted in a span of time. The rate limit spaces admissions; acceptance comes later,
 because discovery publishes from inside the callback.
 */
module Acceptance {
  import opened Addresses
  import opened RateLimiting
  import opened Pipeline
  import opened PipelineLaws
  import opened CallbackRuns

  // ---------------------------------------------------------------------------------------------------------
  // Runs whose callback is swift.

  lemma {:induction false} SwiftConcat(cfg: Config, s: State, a: seq<Step>, b: seq<Step>, delay: int)
    requires IsRun(cfg, s, a) && IsRun(cfg, Exec(cfg, s, a), b)
    requires IsSwift(cfg, s, a, delay) && IsSwift(cfg, Exec(cfg, s, a), b, delay)
    ensures IsRun(cfg, s, a + b) && IsSwift(cfg, s, a + b, delay)
    decreases a
  {
    hide Next, Swift;
    RunConcat(cfg, s, a, b);
    if a == [] {
      assert a + b == b;
    } else {
      assert (a + b)[0] == a[0] && (a + b)[1..] == a[1..] + b;
      SwiftConcat(cfg, Next(cfg, s, a[0]), a[1..], b, delay);
    }
  }

  lemma SwiftFrom(cfg: Config, s: State, step: Step, rest: seq<Step>, delay: int)
    requires Possible(s, step) && Swift(s, step, delay) && IsRun(cfg, Next(cfg, s, step), rest)
    requires IsSwift(cfg, Next(cfg, s, step), rest, delay)
    ensures IsRun(cfg, s, [step] + rest) && IsSwift(cfg, s, [step] + rest, delay)
  {
    hide Next, Swift;
    assert ([step] + rest)[1..] == rest;
  }

  /** An uninterrupted callback is swift when all its times lie within the delay. */
  lemma {:induction false} UninterruptedSwift(cfg: Config, s: State, ticks: seq<int>, ok: bool, base: int, delay: nat)
    requires NonDecreasing(s.clock, ticks) && forall t | t in ticks :: base <= t <= base + delay
    requires HoldsAdmission(s.callback) ==> base <= s.callback.admittedAt
    ensures IsRun(cfg, s, Uninterrupted(cfg, s, ticks, ok)) && IsSwift(cfg, s, Uninterrupted(cfg, s, ticks, ok), delay)
    decreases ticks
  {
    hide OnReceive, MeasurementOf, Suppressed, Admit, OnTake, OnFinish, Filtered;
    if !s.callback.Idle? && ticks != [] {
      var ticked, step := s.(clock := ticks[0]), Continue(s.callback, ok);
      var s' := Next(cfg, ticked, step);
      var rest := Uninterrupted(cfg, s', ticks[1..], ok);
      assert ticks[0] in ticks && s'.clock == ticks[0] && forall t | t in ticks[1..] :: t in ticks;
      UninterruptedSwift(cfg, s', ticks[1..], ok, base, delay);
      SwiftFrom(cfg, ticked, step, rest, delay);
      SwiftFrom(cfg, s, Tick(ticks[0]), [step] + rest, delay);
      assert [Tick(ticks[0]), step] + rest == [Tick(ticks[0])] + ([step] + rest);
    }
  }

  /** A callback whose frame passes everything: what it leaves behind. */
  lemma OneAccepted(cfg: Config, s: State, f: Frame, ticks: seq<int>, ok: bool)
    requires |ticks| == 6 && s.callback.Idle? && Upper(f.addr) == f.addr && !Filtered(cfg, f.addr)
    requires f.data != [] && !Suppressed(s.memory, f, ticks[1]) && MeasurementOf(cfg, f, ticks[3]).Some?
    requires Free(IntervalOf(cfg, f.addr), Last(s.memory.lastSent, f.addr), ticks[2]) && |s.memory.queue| < QUEUE_SIZE
    ensures var end := Completed(cfg, OnReceive(cfg, s, f), ticks, ok);
            && end.callback.Idle? && end.clock == ticks[5]
            && end.memory.lastSent == s.memory.lastSent[f.addr := ticks[2]]
            && |end.memory.queue| == |s.memory.queue| + 1
            && end.history.accepted == s.history.accepted
               + [Entry(MeasurementOf(cfg, f, ticks[3]).value, ticks[2], ticks[5], |s.memory.queue|,
                        |s.history.e1| + if f.data[0] == 0xE1 then 1 else 0)]
  {
    hide MeasurementOf, IntervalOf, Upper, Filtered, Completed, NonDecreasing, Suppressed, OnReceive, Free;
    var whole := Completed(cfg, OnReceive(cfg, s, f), ticks, ok);
    var c := ReachesParser(cfg, s, f, ticks, ok);
    CompletedNext(whole, cfg, c, ticks, 3, ok);
    c := OnParse(cfg, c.(clock := ticks[3]));
    CompletedNext(whole, cfg, c, ticks, 4, ok);
    c := OnDiscover(cfg, c.(clock := ticks[4]), ok);
    CompletedNext(whole, cfg, c, ticks, 5, ok);
    CompletedIdle(cfg, OnEnqueue(c.(clock := ticks[5])), ticks[6..], ok);
  }

  // ---------------------------------------------------------------------------------------------------------
  // The bound W / I + 1.

  /** A frame of format 5 with all readings zero. */
  function ZeroFrame(mac: string): Frame {
    Frame(mac, 0, [5, 0, 0, 0, 0, 0, 0, 0, 0, 0, 0, 0, 0, 0, 0, 0, 0, 0, 0, 0, 0, 0, 0, 0])
  }

  lemma ZeroFrameParses(cfg: Config, mac: string, now: int)
    ensures MeasurementOf(cfg, ZeroFrame(mac), now).Some?
    ensures MeasurementOf(cfg, ZeroFrame(mac), now).value.mac == mac
  {
  }

  /** A callback for such a frame: a swift run that accepts one measurement more. */
  lemma FrameAccepted(cfg: Config, s: State, mac: string, start: int, end: int) returns (steps: seq<Step>)
    requires Upper(mac) == mac && !Filtered(cfg, mac)
    requires s.callback.Idle? && s.clock <= start <= end && |s.memory.queue| < QUEUE_SIZE
    requires Free(IntervalOf(cfg, mac), Last(s.memory.lastSent, mac), start)
    ensures IsRun(cfg, s, steps) && IsSwift(cfg, s, steps, end - start)
    ensures var s' := Exec(cfg, s, steps);
            && s'.callback.Idle? && s'.clock == end && |s'.memory.queue| == |s.memory.queue| + 1
            && s'.memory.lastSent == s.memory.lastSent[mac := start]
            && |s'.history.accepted| == |s.history.accepted| + 1 && s.history.accepted <= s'.history.accepted
            && var e := s'.history.accepted[|s.history.accepted|];
               e.m.mac == mac && e.admittedAt == start && e.at == end
  {
    hide Completed, OnReceive, MeasurementOf, Exec, IsRun, IsSwift, Uninterrupted, IntervalOf, Upper, Filtered;
    var f, ticks := ZeroFrame(mac), [start, start, start, start, end, end];
    var c := OnReceive(cfg, s, f);
    ReceiveIsEarly(cfg, s, f);
    TicksInOrder(s.clock, start, end);
    ZeroFrameParses(cfg, mac, start);
    OneAccepted(cfg, s, f, ticks, true);
    steps := CallbackSteps(cfg, s, f, ticks);
    UninterruptedSwift(cfg, c, ticks, true, start, end - start);
    SwiftFrom(cfg, s, Receive(f), Uninterrupted(cfg, c, ticks, true), end - start);
  }

  lemma OneMoreTick(now: int, tick: int, rest: seq<int>)
    requires now <= tick && NonDecreasing(tick, rest)
    ensures NonDecreasing(now, [tick] + rest)
  {
    assert ([tick] + rest)[1..] == rest;
  }

  lemma TicksInOrder(now: int, start: int, end: int)
    requires now <= start <= end
    ensures NonDecreasing(now, [start, start, start, start, end, end])
  {
    OneMoreTick(end, end, []);
    OneMoreTick(start, end, [end]);
    OneMoreTick(start, start, [end, end]);
    OneMoreTick(start, start, [start, end, end]);
    OneMoreTick(start, start, [start, start, end, end]);
    OneMoreTick(now, start, [start, start, start, end, end]);
    assert [start] + [start, start, start, end, end] == [start, start, start, start, end, end];
    assert [start] + [start, start, end, end] == [start, start, start, end, end];
    assert [start] + [start, end, end] == [start, start, end, end];
    assert [start] + [end, end] == [start, end, end];
    assert [end] + [end] == [end, end] && [end] + [] == [end];
  }

  lemma ReceiveIsEarly(cfg: Config, s: State, f: Frame)
    requires s.callback.Idle?
    ensures OnReceive(cfg, s, f).clock == s.clock && !HoldsAdmission(OnReceive(cfg, s, f).callback)
  {
  }

  /**
   Any delay is enough to break the bound, whatever the interval: the first frame is admitted at 0 and accepted after the
   delay, the second is admitted as soon as the interval allows and accepted at once.
   */
  lemma EveryDelayExceeds(cfg: Config, mac: string, delay: nat) returns (steps: seq<Step>, from: int, to: int)
    requires delay > 0 && IntervalOf(cfg, mac) > 0 && Upper(mac) == mac && !Filtered(cfg, mac)
    ensures IsRun(cfg, Initial(0), steps) && IsSwift(cfg, Initial(0), steps, delay) && from <= to
    ensures AcceptedIn(Exec(cfg, Initial(0), steps).history.accepted, mac, from, to) == 2
    ensures (to - from) / IntervalOf(cfg, mac) + 1 == 1
  {
    hide Exec, IsRun, IsSwift, AcceptedIn, IntervalOf, Upper, Filtered;
    var interval := IntervalOf(cfg, mac);
    from, to := delay, if delay < interval then interval else delay;
    SmallQuotient(to - from, interval);
    var first := FrameAccepted(cfg, Initial(0), mac, 0, delay);
    var s := Exec(cfg, Initial(0), first);
    var second := FrameAccepted(cfg, s, mac, to, to);
    SwiftGrows(cfg, s, second, 0, delay);
    RunConcat(cfg, Initial(0), first, second);
    SwiftConcat(cfg, Initial(0), first, second, delay);
    steps := first + second;
    BothAccepted(Exec(cfg, Initial(0), steps).history.accepted, mac, from, to);
  }

  lemma SmallQuotient(w: int, d: int)
    requires 0 <= w < d
    ensures w / d == 0
  {
  }

  lemma {:induction false} SwiftGrows(cfg: Config, s: State, steps: seq<Step>, less: int, more: int)
    requires IsRun(cfg, s, steps) && IsSwift(cfg, s, steps, less) && less <= more
    ensures IsSwift(cfg, s, steps, more)
    decreases steps
  {
    if steps != [] {
      SwiftGrows(cfg, Next(cfg, s, steps[0]), steps[1..], less, more);
    }
  }

  lemma BothAccepted(entries: seq<Entry>, mac: string, from: int, to: int)
    requires |entries| == 2 && forall i | 0 <= i < 2 :: entries[i].m.mac == mac && from <= entries[i].at <= to
    ensures AcceptedIn(entries, mac, from, to) == 2
  {
    assert entries[..1][..0] == [] && entries[..1][0] == entries[0];
    assert AcceptedIn(entries[..1], mac, from, to) == 1;
  }

  /** A device has at most W / I + 1 accepted measurements in any span of any run that is this swift. */
  ghost predicate RateHolds(cfg: Config, mac: string, delay: int)
    requires IntervalOf(cfg, mac) > 0
  {
    forall now, steps, from, to | IsRun(cfg, Initial(now), steps) && IsSwift(cfg, Initial(now), steps, delay) && from <= to ::
      AcceptedIn(Exec(cfg, Initial(now), steps).history.accepted, mac, from, to) <= (to - from) / IntervalOf(cfg, mac) + 1
  }

  /** That bound holds exactly when the callback takes no time from the rate limit to the queue. */
  lemma RateHoldsExactly(cfg: Config, mac: string, delay: nat)
    requires IntervalOf(cfg, mac) > 0 && Upper(mac) == mac && !Filtered(cfg, mac)
    ensures RateHolds(cfg, mac, delay) <==> delay == 0
  {
    hide Exec, IsRun, IsSwift, AcceptedIn, IntervalOf, Lawful, DelayKept, RateKept;
    if delay == 0 {
      forall now, steps, from, to | IsRun(cfg, Initial(now), steps) && IsSwift(cfg, Initial(now), steps, 0) && from <= to
        ensures AcceptedIn(Exec(cfg, Initial(now), steps).history.accepted, mac, from, to)
             <= (to - from) / IntervalOf(cfg, mac) + 1
      {
        StartsSwift(cfg, now);
        EveryRunAcceptedRate(cfg, Initial(now), steps, 0, mac, from, to);
      }
    } else {
      var steps, from, to := EveryDelayExceeds(cfg, mac, delay);
    }
  }

  lemma StartsSwift(cfg: Config, now: int)
    ensures RateKept(cfg, Initial(now)) && DelayKept(Initial(now), 0)
  {
  }
}
