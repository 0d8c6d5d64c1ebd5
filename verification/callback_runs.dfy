/** Callbacks that are not interrupted, as runs of the pipeline: they finish on their own, and how late they can be. */
module CallbackRuns {
  import opened Addresses
  import opened RateLimiting
  import opened Pipeline
  import opened PipelineLaws

  ghost predicate NonDecreasing(now: int, ticks: seq<int>)
    decreases ticks
  {
    ticks == [] || (now <= ticks[0] && NonDecreasing(ticks[0], ticks[1..]))
  }

  /** The step the callback takes next; an idle callback takes none. */
  function Continue(c: Callback, ok: bool): Step
    requires !c.Idle?
  {
    match c
    case Seen(_) => Count
    case Counted(_) => Prefer
    case Chosen(_) => Limit
    case Admitted(_, _) => Parse
    case Parsed(_, _) => Discover(ok)
    case Ready(_, _) => Enqueue
  }

  /** What that step does. */
  function Follow(cfg: Config, s: State, ok: bool): State
    requires !s.callback.Idle?
  {
    match s.callback
    case Seen(_) => OnCount(s)
    case Counted(_) => OnPrefer(s)
    case Chosen(_) => OnLimit(cfg, s)
    case Admitted(_, _) => OnParse(cfg, s)
    case Parsed(_, _) => OnDiscover(cfg, s, ok)
    case Ready(_, _) => OnEnqueue(s)
  }

  /** The steps of a callback until it is done, the clock being read anew before each. */
  function Uninterrupted(cfg: Config, s: State, ticks: seq<int>, ok: bool): seq<Step>
    decreases ticks
  {
    if s.callback.Idle? || ticks == [] then []
    else
      var step := Continue(s.callback, ok);
      [Tick(ticks[0]), step] + Uninterrupted(cfg, Next(cfg, s.(clock := ticks[0]), step), ticks[1..], ok)
  }

  /** Where these steps lead. */
  function Completed(cfg: Config, s: State, ticks: seq<int>, ok: bool): State
    decreases ticks
  {
    if s.callback.Idle? || ticks == [] then s
    else Completed(cfg, Follow(cfg, s.(clock := ticks[0]), ok), ticks[1..], ok)
  }

  /** One step of it, when i steps have been made. */
  lemma CompletedNext(whole: State, cfg: Config, s: State, ticks: seq<int>, i: nat, ok: bool)
    requires !s.callback.Idle? && i < |ticks| && whole == Completed(cfg, s, ticks[i..], ok)
    ensures whole == Completed(cfg, Follow(cfg, s.(clock := ticks[i]), ok), ticks[i + 1..], ok)
  {
    assert ticks[i..][1..] == ticks[i + 1..];
  }

  lemma CompletedIdle(cfg: Config, s: State, ticks: seq<int>, ok: bool)
    requires s.callback.Idle?
    ensures Completed(cfg, s, ticks, ok) == s
  {
  }

  /** They are a run of the pipeline. */
  lemma {:induction false} UninterruptedIsRun(cfg: Config, s: State, ticks: seq<int>, ok: bool)
    requires NonDecreasing(s.clock, ticks)
    ensures IsRun(cfg, s, Uninterrupted(cfg, s, ticks, ok))
    ensures Exec(cfg, s, Uninterrupted(cfg, s, ticks, ok)) == Completed(cfg, s, ticks, ok)
    decreases ticks
  {
    if !s.callback.Idle? && ticks != [] {
      var ticked := s.(clock := ticks[0]);
      var step := Continue(s.callback, ok);
      var s' := Next(cfg, ticked, step);
      UninterruptedIsRun(cfg, s', ticks[1..], ok);
      var rest := Uninterrupted(cfg, s', ticks[1..], ok);
      var steps := Uninterrupted(cfg, s, ticks, ok);
      assert steps == [Tick(ticks[0]), step] + rest;
      assert steps[1..][0] == step && steps[1..][1..] == rest;
      assert Next(cfg, s, steps[0]) == ticked;
    }
  }

  lemma RunFrom(cfg: Config, s: State, step: Step, rest: seq<Step>)
    requires Possible(s, step) && IsRun(cfg, Next(cfg, s, step), rest)
    ensures IsRun(cfg, s, [step] + rest) && Exec(cfg, s, [step] + rest) == Exec(cfg, Next(cfg, s, step), rest)
  {
    assert ([step] + rest)[1..] == rest;
  }

  /** A turn of the publisher that is not interrupted is a run of the pipeline. */
  lemma TurnIsRun(cfg: Config, s: State, elapsed: nat, ok: bool)
    requires s.publisher.Waiting? && s.memory.queue != []
    ensures var steps := [Take, Tick(s.clock + elapsed), Finish(ok)];
            IsRun(cfg, s, steps) && Exec(cfg, s, steps) == OnFinish(OnTake(s).(clock := s.clock + elapsed), ok)
  {
    var tick := Tick(s.clock + elapsed);
    var later := OnTake(s).(clock := s.clock + elapsed);
    RunFrom(cfg, later, Finish(ok), []);
    RunFrom(cfg, OnTake(s), tick, [Finish(ok)] + []);
    RunFrom(cfg, s, Take, [tick] + ([Finish(ok)] + []));
    assert [Take] + ([tick] + ([Finish(ok)] + [])) == [Take, tick, Finish(ok)];
  }

  lemma {:induction false} RunConcat(cfg: Config, s: State, a: seq<Step>, b: seq<Step>)
    requires IsRun(cfg, s, a) && IsRun(cfg, Exec(cfg, s, a), b)
    ensures IsRun(cfg, s, a + b) && Exec(cfg, s, a + b) == Exec(cfg, Exec(cfg, s, a), b)
    decreases a
  {
    hide Next;
    if a == [] {
      assert a + b == b;
    } else {
      assert (a + b)[0] == a[0] && (a + b)[1..] == a[1..] + b;
      RunConcat(cfg, Next(cfg, s, a[0]), a[1..], b);
    }
  }

  /** A whole callback as a run. */
  lemma CallbackSteps(cfg: Config, s: State, f: Frame, ticks: seq<int>) returns (steps: seq<Step>)
    requires s.callback.Idle? && NonDecreasing(s.clock, ticks)
    ensures IsRun(cfg, s, steps) && Exec(cfg, s, steps) == Completed(cfg, OnReceive(cfg, s, f), ticks, true)
    ensures steps == [Receive(f)] + Uninterrupted(cfg, OnReceive(cfg, s, f), ticks, true)
  {
    var c := OnReceive(cfg, s, f);
    UninterruptedIsRun(cfg, c, ticks, true);
    RunFrom(cfg, s, Receive(f), Uninterrupted(cfg, c, ticks, true));
    steps := [Receive(f)] + Uninterrupted(cfg, c, ticks, true);
  }

  /** An uninterrupted callback keeps the laws. */
  lemma CallbackLawful(cfg: Config, s: State, now: int, f: Frame, ticks: seq<int>, ok: bool)
    requires Lawful(cfg, s) && s.callback.Idle? && s.clock <= now && NonDecreasing(now, ticks)
    ensures Lawful(cfg, Completed(cfg, OnReceive(cfg, s.(clock := now), f), ticks, ok))
  {
    hide Lawful, Completed, OnReceive;
    var ticked := s.(clock := now);
    LawfulNext(cfg, s, Tick(now));
    LawfulNext(cfg, ticked, Receive(f));
    var c := OnReceive(cfg, ticked, f);
    ReceiveKeepsClock(cfg, ticked, f);
    UninterruptedIsRun(cfg, c, ticks, ok);
    EveryRunLawful(cfg, c, Uninterrupted(cfg, c, ticks, ok));
  }

  lemma ReceiveKeepsClock(cfg: Config, s: State, f: Frame)
    ensures OnReceive(cfg, s, f).clock == s.clock
  {
  }

  /** A frame that passes the filter, the E1 rule and the limiter: the state in which it is handed to the parser. */
  lemma ReachesParser(cfg: Config, s: State, f: Frame, ticks: seq<int>, ok: bool) returns (c: State)
    requires |ticks| == 6 && s.callback.Idle? && Upper(f.addr) == f.addr && !Filtered(cfg, f.addr)
    requires !Suppressed(s.memory, f, ticks[1])
    requires Free(IntervalOf(cfg, f.addr), Last(s.memory.lastSent, f.addr), ticks[2])
    ensures Completed(cfg, OnReceive(cfg, s, f), ticks, ok) == Completed(cfg, c, ticks[3..], ok)
    ensures c.callback == Admitted(f, ticks[2]) && c.publisher == s.publisher && c.cancelled == s.cancelled
    ensures c.memory.lastSent == s.memory.lastSent[f.addr := ticks[2]] && c.memory.discovered == s.memory.discovered
    ensures c.memory.queue == s.memory.queue
    ensures c.memory.counters == s.memory.counters.(total := s.memory.counters.total + 1)
    ensures c.history == s.history.(e1 := if f.data != [] && f.data[0] == 0xE1 then s.history.e1 + [Stamp(f.addr, ticks[1])]
                                          else s.history.e1)
  {
    hide IntervalOf, Upper, Filtered, Completed, Suppressed;
    c := OnReceive(cfg, s, f);
    var whole := Completed(cfg, c, ticks, ok);
    assert ticks[0..] == ticks;
    CompletedNext(whole, cfg, c, ticks, 0, ok);
    c := OnCount(c.(clock := ticks[0]));
    CompletedNext(whole, cfg, c, ticks, 1, ok);
    SuppressedSame(c.memory, s.memory, f, ticks[1]);
    c := OnPrefer(c.(clock := ticks[1]));
    assert c.callback == Chosen(f);
    CompletedNext(whole, cfg, c, ticks, 2, ok);
    c := OnLimit(cfg, c.(clock := ticks[2]));
  }

  // ---------------------------------------------------------------------------------------------------------
  // The callback never waits for the publisher.

  /** How many steps a callback has before it. */
  function StepsLeft(c: Callback): nat {
    match c
    case Idle => 0
    case Seen(_) => 6
    case Counted(_) => 5
    case Chosen(_) => 4
    case Admitted(_, _) => 3
    case Parsed(_, _) => 2
    case Ready(_, _) => 1
  }

  lemma FollowEnds(cfg: Config, s: State, ok: bool)
    requires !s.callback.Idle?
    ensures var s' := Follow(cfg, s, ok);
            && StepsLeft(s'.callback) < StepsLeft(s.callback)
            && s'.clock == s.clock && s'.publisher == s.publisher && s'.cancelled == s.cancelled
            && (|s.memory.queue| >= QUEUE_SIZE ==>
                  s'.memory.queue == s.memory.queue && s'.history.accepted == s.history.accepted)
  {
    hide MeasurementOf, Suppressed, Admit;
  }

  /**
   A callback is done after at most six steps of its own, whatever state the publisher is in: nothing in the run is a step
   of the publisher, and if the queue is full it stays as it is.
   */
  lemma {:induction false} CallbackFinishes(cfg: Config, s: State, ticks: seq<int>, ok: bool)
    requires NonDecreasing(s.clock, ticks) && StepsLeft(s.callback) <= |ticks|
    ensures var steps := Uninterrupted(cfg, s, ticks, ok);
            && IsRun(cfg, s, steps)
            && (forall step | step in steps :: step.Tick? || IsCallbackStep(step))
            && var end := Exec(cfg, s, steps);
               && end.callback.Idle? && end.publisher == s.publisher && end.cancelled == s.cancelled
               && (|s.memory.queue| >= QUEUE_SIZE ==>
                     end.memory.queue == s.memory.queue && end.history.accepted == s.history.accepted)
    decreases ticks
  {
    hide OnCount, OnPrefer, OnLimit, OnParse, OnDiscover, OnEnqueue, OnReceive;
    UninterruptedIsRun(cfg, s, ticks, ok);
    if !s.callback.Idle? {
      var ticked := s.(clock := ticks[0]);
      FollowEnds(cfg, ticked, ok);
      CallbackFinishes(cfg, Follow(cfg, ticked, ok), ticks[1..], ok);
      UninterruptedIsRun(cfg, Follow(cfg, ticked, ok), ticks[1..], ok);
    }
  }

  /** A run in which the callback's send would wait for room in the queue. */
  ghost predicate IsBlockingRun(cfg: Config, s: State, steps: seq<Step>)
    decreases steps
  {
    steps == [] ||
    (Possible(s, steps[0]) && (steps[0].Enqueue? ==> |s.memory.queue| < QUEUE_SIZE)
     && IsBlockingRun(cfg, Next(cfg, s, steps[0]), steps[1..]))
  }

  /** With such a send, a callback facing a full queue and a publisher that has stopped would never be done. */
  lemma {:induction false} BlockingSendWaits(cfg: Config, s: State, steps: seq<Step>)
    requires IsBlockingRun(cfg, s, steps)
    requires s.callback.Ready? && |s.memory.queue| >= QUEUE_SIZE && s.publisher.Stopped?
    ensures IsRun(cfg, s, steps) && Exec(cfg, s, steps).callback == s.callback
    decreases steps
  {
    if steps != [] {
      BlockingSendWaits(cfg, Next(cfg, s, steps[0]), steps[1..]);
    }
  }
}
