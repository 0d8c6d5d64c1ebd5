/** What the counters, the E1 times and the set of discovered devices record of a run, step by step. */
module Records {
  import opened Bytes
  import opened Addresses
  import opened RateLimiting
  import opened Pipeline
  import opened PipelineLaws
  import opened CallbackRuns
  import Acceptance
  import FrameParser

  // ---------------------------------------------------------------------------------------------------------
  // Counters.

  /** How many steps of a run are of some kind, given the states before and after. */
  ghost function Occurrences(cfg: Config, s: State, steps: seq<Step>, kind: (State, Step, State) -> bool): nat
    requires IsRun(cfg, s, steps)
    decreases steps
  {
    if steps == [] then 0
    else
      var s' := Next(cfg, s, steps[0]);
      (if kind(s, steps[0], s') then 1 else 0) + Occurrences(cfg, s', steps[1..], kind)
  }

  predicate Counts(s: State, step: Step, s': State) {
    step.Count?
  }

  predicate Suppresses(s: State, step: Step, s': State) {
    step.Prefer? && s'.callback.Idle?
  }

  predicate Refuses(s: State, step: Step, s': State) {
    step.Limit? && s'.callback.Idle?
  }

  predicate Rejects(s: State, step: Step, s': State) {
    step.Parse? && s'.callback.Idle?
  }

  predicate Publishes(s: State, step: Step, s': State) {
    step == Finish(true)
  }

  /** A publication that failed, or a measurement that found the queue full. */
  predicate Loses(s: State, step: Step, s': State) {
    step == Finish(false) || (step.Enqueue? && |s.memory.queue| >= 64)
  }

  lemma CountersNext(cfg: Config, s: State, step: Step)
    requires Possible(s, step)
    ensures var s' := Next(cfg, s, step);
            var c, c' := s.memory.counters, s'.memory.counters;
            && c'.total == c.total + (if Counts(s, step, s') then 1 else 0)
            && s'.history.suppressed == s.history.suppressed + (if Suppresses(s, step, s') then 1 else 0)
            && c'.rateLimited == c.rateLimited + (if Refuses(s, step, s') then 1 else 0)
            && c'.parseErrors == c.parseErrors + (if Rejects(s, step, s') then 1 else 0)
            && c'.published == c.published + (if Publishes(s, step, s') then 1 else 0)
            && c'.failures == c.failures + (if Loses(s, step, s') then 1 else 0)
  {
    hide MeasurementOf, Filtered, Suppressed, Admit, Upper;
  }

  /** Each counter has counted the steps of its kind, and nothing else. */
  lemma {:induction false} CountersCount(cfg: Config, s: State, steps: seq<Step>)
    requires IsRun(cfg, s, steps)
    ensures var end := Exec(cfg, s, steps);
            var c, c' := s.memory.counters, end.memory.counters;
            && c'.total == c.total + Occurrences(cfg, s, steps, Counts)
            && end.history.suppressed == s.history.suppressed + Occurrences(cfg, s, steps, Suppresses)
            && c'.rateLimited == c.rateLimited + Occurrences(cfg, s, steps, Refuses)
            && c'.parseErrors == c.parseErrors + Occurrences(cfg, s, steps, Rejects)
            && c'.published == c.published + Occurrences(cfg, s, steps, Publishes)
            && c'.failures == c.failures + Occurrences(cfg, s, steps, Loses)
    decreases steps
  {
    hide Next, Counts, Suppresses, Refuses, Rejects, Publishes, Loses;
    if steps != [] {
      CountersNext(cfg, s, steps[0]);
      CountersCount(cfg, Next(cfg, s, steps[0]), steps[1..]);
    }
  }

  /** The limiter refuses exactly when the last admission of the device is less than its interval ago. */
  lemma RefusesExactly(cfg: Config, s: State, interval: int)
    requires s.callback.Chosen?
    requires var mac := s.callback.frame.addr;
             interval == if mac in cfg.devices && cfg.devices[mac].minInterval > 0
                         then cfg.devices[mac].minInterval else cfg.minInterval
    ensures var mac := s.callback.frame.addr;
            Next(cfg, s, Limit).callback.Idle? <==>
            mac in s.memory.lastSent && s.clock - s.memory.lastSent[mac] < interval
  {
  }

  /** The parser's answer decides, and the measurement keeps the time of its admission. */
  lemma RejectsExactly(cfg: Config, s: State)
    requires s.callback.Admitted?
    ensures Next(cfg, s, Parse).callback.Idle? <==> FrameParser.Parse(cfg.extendedValues, s.callback.frame.data).Failed?
  {
    hide FrameParser.Parse;
  }

  // ---------------------------------------------------------------------------------------------------------
  // E1 over format 6.

  /** The E1 frames a run hears, with the times at which the E1 rule looks at them. */
  ghost function HeardE1(cfg: Config, s: State, steps: seq<Step>): seq<Stamp>
    requires IsRun(cfg, s, steps)
    decreases steps
  {
    if steps == [] then []
    else
      (if steps[0].Prefer? && s.callback.frame.data != [] && s.callback.frame.data[0] == 0xE1
       then [Stamp(s.callback.frame.addr, s.clock)] else [])
      + HeardE1(cfg, Next(cfg, s, steps[0]), steps[1..])
  }

  lemma HeardNext(cfg: Config, s: State, step: Step)
    requires Possible(s, step)
    ensures Next(cfg, s, step).history.e1 ==
            if step.Prefer? && s.callback.frame.data != [] && s.callback.frame.data[0] == 0xE1
            then s.history.e1 + [Stamp(s.callback.frame.addr, s.clock)] else s.history.e1
  {
    hide MeasurementOf, Filtered, Suppressed, Admit, Upper;
  }

  /** The history of E1 frames is what was heard. */
  lemma {:induction false} E1History(cfg: Config, s: State, steps: seq<Step>)
    requires IsRun(cfg, s, steps)
    ensures Exec(cfg, s, steps).history.e1 == s.history.e1 + HeardE1(cfg, s, steps)
    decreases steps
  {
    hide Next;
    if steps == [] {
      assert s.history.e1 + [] == s.history.e1;
    } else {
      var rest := HeardE1(cfg, Next(cfg, s, steps[0]), steps[1..]);
      HeardNext(cfg, s, steps[0]);
      E1History(cfg, Next(cfg, s, steps[0]), steps[1..]);
      if Next(cfg, s, steps[0]).history.e1 == s.history.e1 {
        assert HeardE1(cfg, s, steps) == [] + rest == rest;
      } else {
        var stamp := Stamp(s.callback.frame.addr, s.clock);
        assert HeardE1(cfg, s, steps) == [stamp] + rest;
        assert s.history.e1 + [stamp] + rest == s.history.e1 + ([stamp] + rest);
      }
    }
  }

  /** In a lawful state the E1 rule drops a frame exactly when it is of format 6 and an E1 frame is less than 300 s old. */
  lemma SuppressesExactly(cfg: Config, s: State)
    requires Lawful(cfg, s) && s.callback.Counted?
    ensures var f, s' := s.callback.frame, Next(cfg, s, Prefer);
            && (s'.callback.Idle? <==>
                && f.data != [] && f.data[0] == 0x06
                && exists i :: 0 <= i < |s.history.e1| && s.history.e1[i].mac == f.addr
                               && s.clock - s.history.e1[i].at < 300_000_000_000)
            && (!s'.callback.Idle? ==> s'.callback == Chosen(f))
  {
    hide Conserved, QueueSafe, RateKept, NoRecentE1;
    var f := s.callback.frame;
    LatestIsStamp(s.history.e1, f.addr);
    assert Last(s.memory.lastE1, f.addr) == LatestOf(s.history.e1, f.addr);
  }

  /** So on every run, with the E1 frames it has heard. */
  lemma EveryRunSuppresses(cfg: Config, now: int, steps: seq<Step>)
    requires IsRun(cfg, Initial(now), steps) && Exec(cfg, Initial(now), steps).callback.Counted?
    ensures var s, heard := Exec(cfg, Initial(now), steps), HeardE1(cfg, Initial(now), steps);
            Next(cfg, s, Prefer).callback.Idle? <==>
            && s.callback.frame.data != [] && s.callback.frame.data[0] == 0x06
            && exists i :: 0 <= i < |heard| && heard[i].mac == s.callback.frame.addr && s.clock - heard[i].at < 300_000_000_000
  {
    hide Next, Lawful, HeardE1, Exec, IsRun;
    LawfulInitial(cfg, now);
    EveryRunLawful(cfg, Initial(now), steps);
    E1History(cfg, Initial(now), steps);
    assert [] + HeardE1(cfg, Initial(now), steps) == HeardE1(cfg, Initial(now), steps);
    SuppressesExactly(cfg, Exec(cfg, Initial(now), steps));
  }

  /** A format 6 frame of a device without a recent E1 frame goes all the way to the queue. */
  lemma Format6Accepted(cfg: Config, s: State, f: Frame, ticks: seq<int>, ok: bool, interval: int)
    requires Lawful(cfg, s) && s.callback.Idle? && |ticks| == 6 && |s.memory.queue| < 64
    requires Upper(f.addr) == f.addr && (cfg.named ==> f.addr in cfg.devices)
    requires |f.data| >= 15 && f.data[0] == 0x06
    requires forall i | 0 <= i < |s.history.e1| && s.history.e1[i].mac == f.addr ::
               ticks[1] - s.history.e1[i].at >= 300_000_000_000
    requires interval == if f.addr in cfg.devices && cfg.devices[f.addr].minInterval > 0
                         then cfg.devices[f.addr].minInterval else cfg.minInterval
    requires f.addr in s.memory.lastSent ==> ticks[2] - s.memory.lastSent[f.addr] >= interval
    ensures var accepted := Completed(cfg, OnReceive(cfg, s, f), ticks, ok).history.accepted;
            && |accepted| == |s.history.accepted| + 1 && s.history.accepted <= accepted
            && var e := accepted[|s.history.accepted|];
               && e.m.format == 6 && e.m.mac == f.addr && e.m.rssi == f.rssi
               && e.admittedAt == ticks[2] && e.at == ticks[5]
  {
    hide Completed, OnReceive, Conserved, QueueSafe, RateKept, NoRecentE1, FrameParser.Parse, MeasurementOf;
    LatestIsStamp(s.history.e1, f.addr);
    assert Last(s.memory.lastE1, f.addr) == LatestOf(s.history.e1, f.addr);
    FrameParser.ParsedExactly(cfg.extendedValues, f.data);
    MeasurementExactly(cfg, f, ticks[3]);
    MeasurementFormat(cfg, f, ticks[3]);
    Acceptance.OneAccepted(cfg, s, f, ticks, ok);
  }

  // ---------------------------------------------------------------------------------------------------------
  // Discovery.

  /** Some step of a run announces this device successfully. */
  ghost predicate Announced(cfg: Config, s: State, steps: seq<Step>, mac: string)
    requires IsRun(cfg, s, steps)
    decreases steps
  {
    && steps != []
    && ((steps[0] == Discover(true) && cfg.discovery && s.callback.m.mac == mac)
        || Announced(cfg, Next(cfg, s, steps[0]), steps[1..], mac))
  }

  lemma DiscoveredNext(cfg: Config, s: State, step: Step, mac: string)
    requires Possible(s, step)
    ensures mac in Next(cfg, s, step).memory.discovered <==>
            mac in s.memory.discovered || (step == Discover(true) && cfg.discovery && s.callback.m.mac == mac)
  {
    hide MeasurementOf, Filtered, Suppressed, Admit, Upper;
  }

  /** A device is discovered exactly after a successful announcement; nothing else adds or removes one. */
  lemma {:induction false} DiscoveredExactly(cfg: Config, s: State, steps: seq<Step>, mac: string)
    requires IsRun(cfg, s, steps)
    ensures mac in Exec(cfg, s, steps).memory.discovered <==> mac in s.memory.discovered || Announced(cfg, s, steps, mac)
    decreases steps
  {
    hide Next;
    if steps != [] {
      DiscoveredNext(cfg, s, steps[0], mac);
      DiscoveredExactly(cfg, Next(cfg, s, steps[0]), steps[1..], mac);
    }
  }
}
