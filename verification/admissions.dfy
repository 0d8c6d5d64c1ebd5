/** What the rate limiter does over whole runs of the pipeline, whatever becomes of the frames it admits. */
module Admissions {
  import opened Bytes
  import opened Addresses
  import opened RateLimiting
  import opened Pipeline
  import opened CallbackRuns

  /** The requests a run makes of the limiter, one for each of its limit steps. */
  ghost function RequestsOf(cfg: Config, s: State, steps: seq<Step>): seq<Request>
    requires IsRun(cfg, s, steps)
    decreases steps
  {
    if steps == [] then []
    else
      (if steps[0].Limit? then [Request(s.callback.frame.addr, s.clock)] else [])
      + RequestsOf(cfg, Next(cfg, s, steps[0]), steps[1..])
  }

  /** Whether each of them was admitted. */
  ghost function AdmissionsOf(cfg: Config, s: State, steps: seq<Step>): seq<bool>
    requires IsRun(cfg, s, steps)
    decreases steps
  {
    if steps == [] then []
    else
      var s' := Next(cfg, s, steps[0]);
      (if steps[0].Limit? then [s'.callback.Admitted?] else []) + AdmissionsOf(cfg, s', steps[1..])
  }

  lemma LimitOnly(cfg: Config, s: State, step: Step)
    requires Possible(s, step)
    ensures !step.Limit? ==> Next(cfg, s, step).memory.lastSent == s.memory.lastSent
    ensures step.Limit? ==>
              (Next(cfg, s, step).memory.lastSent, Next(cfg, s, step).callback.Admitted?)
              == Admit(cfg, s.memory.lastSent, s.callback.frame.addr, s.clock)
    ensures s.clock <= Next(cfg, s, step).clock
  {
    hide MeasurementOf, Filtered, Suppressed, Upper;
  }

  /** They are the limiter's answers to these requests, whatever else happens between them. */
  lemma {:induction false} RunAnswers(cfg: Config, s: State, steps: seq<Step>)
    requires IsRun(cfg, s, steps)
    ensures AdmissionsOf(cfg, s, steps) == Answers(cfg, s.memory.lastSent, RequestsOf(cfg, s, steps))
    decreases steps
  {
    hide Next, Admit;
    if steps != [] {
      var s' := Next(cfg, s, steps[0]);
      LimitOnly(cfg, s, steps[0]);
      RunAnswers(cfg, s', steps[1..]);
      if steps[0].Limit? {
        var requests := RequestsOf(cfg, s, steps);
        assert requests[1..] == RequestsOf(cfg, s', steps[1..]);
      } else {
        assert RequestsOf(cfg, s, steps) == RequestsOf(cfg, s', steps[1..]);
        assert AdmissionsOf(cfg, s, steps) == AdmissionsOf(cfg, s', steps[1..]);
      }
    }
  }

  /** The clock never goes back, so each device's requests are in order. */
  lemma {:induction false} RequestsInOrder(cfg: Config, s: State, steps: seq<Step>, mac: string, last: Option<int>)
    requires IsRun(cfg, s, steps) && (last.Some? ==> last.value <= s.clock)
    ensures InOrder(last, TimesOf(mac, RequestsOf(cfg, s, steps)))
    decreases steps
  {
    hide Next;
    if steps != [] {
      var s' := Next(cfg, s, steps[0]);
      var rest := RequestsOf(cfg, s', steps[1..]);
      LimitOnly(cfg, s, steps[0]);
      if steps[0].Limit? {
        var r := Request(s.callback.frame.addr, s.clock);
        assert ([r] + rest)[1..] == rest;
        if r.mac == mac {
          RequestsInOrder(cfg, s', steps[1..], mac, Some(s.clock));
          assert ([s.clock] + TimesOf(mac, rest))[1..] == TimesOf(mac, rest);
        } else {
          RequestsInOrder(cfg, s', steps[1..], mac, last);
          assert [] + TimesOf(mac, rest) == TimesOf(mac, rest);
        }
      } else {
        RequestsInOrder(cfg, s', steps[1..], mac, last);
        assert [] + rest == rest;
      }
    }
  }

  /**
   On every run the admissions of a device are the greedy ones for the times at which its frames reach the limiter,
   parseable or not: spaced by its interval, and no spaced selection of those times has more of them.
   */
  lemma RunAdmissionsOptimal(cfg: Config, now: int, steps: seq<Step>, mac: string, interval: int, picks: seq<bool>)
    requires interval == if mac in cfg.devices && cfg.devices[mac].minInterval > 0
                         then cfg.devices[mac].minInterval else cfg.minInterval
    requires IsRun(cfg, Initial(now), steps)
    requires |picks| == |TimesOf(mac, RequestsOf(cfg, Initial(now), steps))|
    requires Spaced(interval, None, TimesOf(mac, RequestsOf(cfg, Initial(now), steps)), picks)
    ensures var requests := RequestsOf(cfg, Initial(now), steps);
            var answers := AdmissionsOf(cfg, Initial(now), steps);
            && |answers| == |requests|
            && AnswersTo(mac, requests, answers) == Greedy(interval, None, TimesOf(mac, requests))
            && |AnswersTo(mac, requests, answers)| == |picks|
            && Spaced(interval, None, TimesOf(mac, requests), AnswersTo(mac, requests, answers))
            && RateLimiting.Count(picks) <= RateLimiting.Count(AnswersTo(mac, requests, answers))
  {
    hide RequestsOf, AdmissionsOf, IsRun, Greedy, Spaced, RateLimiting.Count, Answers, AnswersTo, TimesOf, IntervalOf;
    var requests := RequestsOf(cfg, Initial(now), steps);
    RunAnswers(cfg, Initial(now), steps);
    RequestsInOrder(cfg, Initial(now), steps, mac, None);
    AnswersAreGreedy(cfg, map[], requests, mac);
    LimiterOptimal(cfg, requests, mac, interval, picks);
  }

  // ---------------------------------------------------------------------------------------------------------
  // Frames that cannot be parsed.

  /**
   A frame that passes everything up to the limiter and cannot be parsed: it takes the slot of its device and counts as a
   parse error, nothing is queued, and the next frame of the device is admitted exactly when the interval is over.
   */
  lemma UnparseableTakesSlot(cfg: Config, s: State, f: Frame, ticks: seq<int>, ok: bool, next: int)
    requires |ticks| == 6 && s.callback.Idle? && Upper(f.addr) == f.addr && !Filtered(cfg, f.addr)
    requires !Suppressed(s.memory, f, ticks[1]) && MeasurementOf(cfg, f, ticks[3]).None?
    requires Free(IntervalOf(cfg, f.addr), Last(s.memory.lastSent, f.addr), ticks[2])
    ensures var end := Completed(cfg, OnReceive(cfg, s, f), ticks, ok);
            && end.callback.Idle? && end.memory.lastSent == s.memory.lastSent[f.addr := ticks[2]]
            && end.memory.counters.parseErrors == s.memory.counters.parseErrors + 1
            && end.memory.queue == s.memory.queue && end.history.accepted == s.history.accepted
            && (Free(IntervalOf(cfg, f.addr), Last(end.memory.lastSent, f.addr), next)
                <==> next - ticks[2] >= IntervalOf(cfg, f.addr))
  {
    hide MeasurementOf, IntervalOf, Upper, Filtered, Completed, Suppressed, OnReceive;
    var whole := Completed(cfg, OnReceive(cfg, s, f), ticks, ok);
    var c := ReachesParser(cfg, s, f, ticks, ok);
    CompletedNext(whole, cfg, c, ticks, 3, ok);
    CompletedIdle(cfg, OnParse(cfg, c.(clock := ticks[3])), ticks[4..], ok);
  }

  /** Such frames exist: one byte is enough. */
  lemma ShortFrameUnparseable(cfg: Config, s: State, mac: string, rssi: int, now: int)
    ensures MeasurementOf(cfg, Frame(mac, rssi, [5]), now).None? && !Suppressed(s.memory, Frame(mac, rssi, [5]), now)
  {
  }
}
