/** From the radio to the counters: the handler calls of a session are the frames the pipeline receives. */
module EndToEnd {
  import opened Bytes
  import opened Addresses
  import opened RateLimiting
  import opened Pipeline
  import PipelineLaws
  import R = AdvReports
  import S = Session
  import T = Transparency

  function FramesOf(calls: seq<S.Call>): seq<Frame> {
    seq(|calls|, i requires 0 <= i < |calls| => Frame(calls[i].addr, calls[i].rssi, calls[i].payload))
  }

  /** The frames a run receives, in order. */
  function ReceivedIn(steps: seq<Step>): seq<Frame> {
    if steps == [] then [] else (if steps[0].Receive? then [steps[0].frame] else []) + ReceivedIn(steps[1..])
  }

  /** Those that pass the device filter. */
  function Passing(cfg: Config, frames: seq<Frame>): seq<Frame> {
    if frames == [] then []
    else (if Filtered(cfg, Upper(frames[0].addr)) then [] else [frames[0]]) + Passing(cfg, frames[1..])
  }

  /** A frame that passed and is not counted yet. */
  function Uncounted(s: State): nat {
    if s.callback.Seen? then 1 else 0
  }

  lemma CountNext(cfg: Config, s: State, step: Step)
    requires Possible(s, step)
    ensures var s' := Next(cfg, s, step);
            s'.memory.counters.total + Uncounted(s') ==
            s.memory.counters.total + Uncounted(s)
            + if step.Receive? && !Filtered(cfg, Upper(step.frame.addr)) then 1 else 0
  {
    hide MeasurementOf, Suppressed, Admit, Filtered;
  }

  /** Every frame that passes the filter is counted, once. */
  lemma {:induction false} ReceivedCounted(cfg: Config, s: State, steps: seq<Step>)
    requires IsRun(cfg, s, steps)
    ensures var end := Exec(cfg, s, steps);
            end.memory.counters.total + Uncounted(end)
            == s.memory.counters.total + Uncounted(s) + |Passing(cfg, ReceivedIn(steps))|
    decreases steps
  {
    hide Next, Uncounted, Filtered;
    if steps != [] {
      var rest := ReceivedIn(steps[1..]);
      CountNext(cfg, s, steps[0]);
      ReceivedCounted(cfg, Next(cfg, s, steps[0]), steps[1..]);
      if steps[0].Receive? {
        assert ([steps[0].frame] + rest)[1..] == rest;
      } else {
        assert [] + rest == rest;
      }
    }
  }

  lemma {:induction false} CallsUpperCase(t: map<string, seq<byte>>, rs: seq<R.Report>)
    requires forall r | r in rs :: NoLowerCase(r.addr)
    ensures forall call | call in S.HandleAll(t, rs).1 :: NoLowerCase(call.addr)
    decreases rs
  {
    if rs != [] {
      assert rs[0] in rs;
      CallsUpperCase(S.Handle(t, rs[0]).0, rs[1..]);
    }
  }

  lemma UpperCaseStays(s: string)
    requires NoLowerCase(s)
    ensures Upper(s) == s
  {
    assert forall i | 0 <= i < |s| :: s[i] in s;
  }

  /** Of upper-case calls, those of the configured devices pass the filter in named mode, all of them otherwise. */
  lemma {:induction false} PassingCalls(cfg: Config, calls: seq<S.Call>)
    requires forall call | call in calls :: NoLowerCase(call.addr)
    ensures |Passing(cfg, FramesOf(calls))|
         == if cfg.named then |T.CallsFrom(cfg.devices.Keys, calls)| else |calls|
  {
    if calls != [] {
      var frames := FramesOf(calls);
      assert calls[0] in calls && frames[1..] == FramesOf(calls[1..]);
      UpperCaseStays(calls[0].addr);
      PassingCalls(cfg, calls[1..]);
    }
  }

  /** The number of handler calls of a session that the filter lets through. */
  ghost function Counted(cfg: Config, calls: seq<S.Call>): nat {
    if cfg.named then |T.CallsFrom(cfg.devices.Keys, calls)| else |calls|
  }

  lemma SessionCalls(now: int, turns: seq<S.Turn>)
    ensures forall call | call in S.Run(S.Start(now), turns).calls :: NoLowerCase(call.addr)
  {
    hide S.Run, S.Attended, S.HandleAll;
    var attended := S.Attended(S.Start(now), turns);
    S.RunHandlesAll(S.Start(now), turns);
    S.HeardInBounds(attended);
    CallsUpperCase(map[], S.HeardAll(attended));
  }

  /**
   A run of the pipeline that receives the handler calls of a session has counted each of them that passes the filter, and
   accounts for each: suppressed, rate limited, unparseable, published, failed, queued or in flight.
   */
  lemma SessionCounted(cfg: Config, now: int, turns: seq<S.Turn>, start: int, steps: seq<Step>)
    requires IsRun(cfg, Initial(start), steps) && Exec(cfg, Initial(start), steps).callback.Idle?
    requires ReceivedIn(steps) == FramesOf(S.Run(S.Start(now), turns).calls)
    ensures var end := Exec(cfg, Initial(start), steps);
            && end.memory.counters.total == Counted(cfg, S.Run(S.Start(now), turns).calls)
            && Conserved(end)
  {
    hide S.Run, IsRun, Exec, ReceivedIn, FramesOf, NoAlternation, QueueSafe, PipelineLaws.RateKept;
    ReceivedCounted(cfg, Initial(start), steps);
    SessionCalls(now, turns);
    PassingCalls(cfg, S.Run(S.Start(now), turns).calls);
    PipelineLaws.LawfulInitial(cfg, start);
    PipelineLaws.EveryRunLawful(cfg, Initial(start), steps);
  }

  /** The advertisements a schedule has sent completely that hold a payload. */
  ghost function Bearing(ads: seq<T.Advert>, schedule: seq<nat>): set<nat>
    requires T.AreAdverts(ads) && T.IsSchedule(ads, T.NoneSent(ads), schedule)
  {
    set i: nat | i < |ads| && T.SentAfter(ads, T.NoneSent(ads), schedule)[i] == |ads[i]| && T.HasPayload(ads[i])
  }

  lemma PayloadsNext(ads: seq<T.Advert>, i: nat, rest: seq<nat>)
    requires i < |ads| && i !in rest && forall k | 0 <= k < |rest| :: rest[k] < |ads|
    ensures |set j | j in [i] + rest && T.HasPayload(ads[j])|
         == |set j | j in rest && T.HasPayload(ads[j])| + if T.HasPayload(ads[i]) then 1 else 0
  {
    hide T.HasPayload;
    var now, later := set j | j in [i] + rest && T.HasPayload(ads[j]), set j | j in rest && T.HasPayload(ads[j]);
    assert now == if T.HasPayload(ads[i]) then later + {i} else later;
  }

  /** Without repetitions, the calls deserved are as many as the advertisements with a payload. */
  lemma {:induction false} DeservedCounted(ads: seq<T.Advert>, order: seq<nat>)
    requires T.AreAdverts(ads) && (forall k | 0 <= k < |order| :: order[k] < |ads|)
    requires forall i :: multiset(order)[i] <= 1
    ensures |T.AllDeserved(ads, order)| == |set i | i in order && T.HasPayload(ads[i])|
    decreases order
  {
    hide T.Deserved, T.HasPayload, T.IsAdvert;
    if order != [] {
      var i, rest := order[0], order[1..];
      assert order == [i] + rest;
      assert multiset(order)[i] == 1 + multiset(rest)[i];
      forall j
        ensures multiset(rest)[j] <= 1
      {
        assert multiset(rest)[j] <= multiset(order)[j];
      }
      DeservedCounted(ads, rest);
      assert i !in rest;
      PayloadsNext(ads, i, rest);
    }
  }

  /**
   In named mode: when what the configured devices send is advertisements on a schedule, beside anything other devices send,
   the advertisements counted are exactly those completed whose first Ruuvi structure holds a payload, of any length.
   */
  lemma AdvertisementsCounted(cfg: Config, ads: seq<T.Advert>, schedule: seq<nat>, now: int, turns: seq<S.Turn>, start: int,
                              steps: seq<Step>)
    requires cfg.named
    requires T.Scheduled(cfg.devices.Keys, ads, schedule, S.HeardAll(S.Attended(S.Start(now), turns)))
    requires IsRun(cfg, Initial(start), steps) && Exec(cfg, Initial(start), steps).callback.Idle?
    requires ReceivedIn(steps) == FramesOf(S.Run(S.Start(now), turns).calls)
    ensures Exec(cfg, Initial(start), steps).memory.counters.total == |Bearing(ads, schedule)|
  {
    hide S.Run, IsRun, Exec, ReceivedIn, FramesOf, S.Attended, T.IsSchedule, T.IsAdvert, T.From, T.Emitted, T.HasPayload;
    T.StreamsTransparent(cfg.devices.Keys, ads, schedule, turns, now);
    SessionCounted(cfg, now, turns, start, steps);
    CompletedCounted(ads, schedule);
  }

  lemma CompletedCounted(ads: seq<T.Advert>, schedule: seq<nat>)
    requires T.AreAdverts(ads) && T.IsSchedule(ads, T.NoneSent(ads), schedule)
    ensures |T.AllDeserved(ads, T.Completed(ads, T.NoneSent(ads), schedule))| == |Bearing(ads, schedule)|
  {
    hide T.IsSchedule, T.HasPayload, T.Completed, T.SentAfter, T.AllDeserved;
    var none := T.NoneSent(ads);
    var order, after := T.Completed(ads, none, schedule), T.SentAfter(ads, none, schedule);
    forall i: nat | i < |ads|
      ensures multiset(order)[i] == if after[i] == |ads[i]| then 1 else 0
    {
      T.CompletedOnce(ads, none, schedule, i);
    }
    forall i
      ensures multiset(order)[i] <= 1
    {
      if i in order {
        assert i < |ads|;
      }
    }
    DeservedCounted(ads, order);
    assert (set i | i in order && T.HasPayload(ads[i])) == Bearing(ads, schedule) by {
      assert forall i: nat | i < |ads| :: i in order <==> multiset(order)[i] > 0;
    }
  }
}
