/** The program's own objects: the advertisement callback and the publisher's turns as methods over shared fields. */
module Bridges {
  import opened Bytes
  import opened Addresses
  import opened Durations
  import opened RateLimiting
  import opened Pipeline
  import opened PipelineLaws
  import opened CallbackRuns
  import FrameParser
  import Publishing

  class Bridge {
    const cfg: Config
    const limiter: RateLimiter
    var lastSeen: Times
    var lastE1: Times
    var discovered: set<string>
    var totalAdvertisements: nat
    var publishedTotal: nat
    var publishFailures: nat
    var rateLimited: nat
    var parseErrors: nat
    var queue: seq<Measurement>
    /** The state of the pipeline these fields stand for: the clock, the two processes and the history besides. */
    ghost var state: State

    /** The fields as the memory of the pipeline. */
    ghost function Fields(): Memory
      reads this`lastSeen, this`lastE1, this`discovered, this`totalAdvertisements, this`publishedTotal,
            this`publishFailures, this`rateLimited, this`parseErrors, this`queue, limiter`lastSent
    {
      Memory(lastSeen, lastE1, limiter.lastSent, discovered,
             Counters(totalAdvertisements, publishedTotal, publishFailures, rateLimited, parseErrors), queue)
    }

    ghost predicate Matches()
      reads this, limiter
    {
      limiter.cfg == cfg && state.memory == Fields()
    }

    /** The counter equation: every advertisement counted is suppressed, limited, unparseable, published, failed or waiting. */
    ghost predicate Balanced()
      reads this
    {
      totalAdvertisements == state.history.suppressed + rateLimited + parseErrors + publishedTotal + publishFailures
                             + |queue| + InFlight(state)
    }

    /** What holds between calls, in whatever order they come: the laws of the pipeline, so also the counter equation. */
    ghost predicate Valid()
      reads this, limiter
      ensures Valid() ==> Balanced() && |queue| <= QUEUE_SIZE
    {
      Matches() && state.callback.Idle? && Lawful(cfg, state)
    }

    constructor (cfg: Config, ghost now: int)
      ensures this.cfg == cfg && Valid() && fresh(limiter) && state == Initial(now)
    {
      this.cfg := cfg;
      limiter := new RateLimiter(cfg);
      lastSeen, lastE1, discovered, queue := map[], map[], {}, [];
      totalAdvertisements, publishedTotal, publishFailures, rateLimited, parseErrors := 0, 0, 0, 0, 0;
      state := Initial(now);
      new;
      LawfulInitial(cfg, now);
    }

    /** The device filter; a device that passes is marked as seen. */
    method Passes(mac: string, now: int, ghost f: Frame) returns (go: bool)
      requires Matches() && state.callback.Idle? && state.clock == now && mac == Upper(f.addr)
      modifies this`lastSeen, this`state
      ensures Matches() && state == OnReceive(cfg, old(state), f)
      ensures state.callback == if go then Seen(f.(addr := mac)) else Idle
    {
      state := OnReceive(cfg, state, f);
      if cfg.named && mac !in cfg.devices {
        return false;
      }
      lastSeen := lastSeen[mac := now];
      return true;
    }

    method Counts()
      requires Matches() && state.callback.Seen?
      modifies this`totalAdvertisements, this`state
      ensures Matches() && state == OnCount(old(state))
      ensures state.callback == Counted(old(state).callback.frame)
    {
      totalAdvertisements := totalAdvertisements + 1;
      state := OnCount(state);
    }

    /** E1 over format 6: records an E1 frame; false when a format 6 frame is to be ignored. */
    method Prefers(mac: string, data: seq<byte>, now: int) returns (go: bool)
      requires Matches() && state.callback.Counted? && state.clock == now
      requires state.callback.frame.addr == mac && state.callback.frame.data == data
      modifies this`lastE1, this`state
      ensures Matches() && state == OnPrefer(old(state))
      ensures state.callback == if go then Chosen(old(state).callback.frame) else Idle
    {
      state := OnPrefer(state);
      if |data| > 0 {
        match data[0] {
          case 0xE1 => lastE1 := lastE1[mac := now];
          case 0x06 =>
            if mac in lastE1 && now - lastE1[mac] < E1_PREFER_WINDOW {
              return false;
            }
          case _ =>
        }
      }
      return true;
    }

    /** The rate limit, checked before parsing. */
    method Admits(mac: string, now: int) returns (allowed: bool)
      requires Matches() && state.callback.Chosen? && state.clock == now && state.callback.frame.addr == mac
      modifies this`rateLimited, this`state, limiter`lastSent
      ensures Matches() && state == OnLimit(cfg, old(state))
      ensures state.callback == if allowed then Admitted(old(state).callback.frame, now) else Idle
    {
      state := OnLimit(cfg, state);
      allowed := limiter.Allow(mac, now);
      if !allowed {
        rateLimited := rateLimited + 1;
      }
    }

    /** The measurement of a frame, with its sender, time and configured name. */
    method Converts(mac: string, rssi: int, data: seq<byte>, now: int) returns (m: Option<Measurement>)
      requires Matches() && state.callback.Admitted? && state.clock == now && state.callback.frame == Frame(mac, rssi, data)
      modifies this`parseErrors, this`state
      ensures Matches() && state == OnParse(cfg, old(state))
      ensures state.callback == if m.Some? then Parsed(m.value, old(state).callback.admittedAt) else Idle
    {
      state := OnParse(cfg, state);
      var parsed := FrameParser.ParseFrame(cfg.extendedValues, data);
      if parsed.Failed? {
        parseErrors := parseErrors + 1;
        return None;
      }
      var measurement := parsed.m.(mac := mac, rssi := rssi, timestamp := now / SECOND);
      if mac in cfg.devices && cfg.devices[mac].name != "" {
        measurement := measurement.(name := cfg.devices[mac].name);
      }
      return Some(measurement);
    }

    /** Discovery once per device, when it is enabled and succeeds. */
    method Announces(m: Measurement, ok: bool)
      requires Matches() && state.callback.Parsed? && state.callback.m == m
      modifies this`discovered, this`state
      ensures Matches() && state == OnDiscover(cfg, old(state), ok)
      ensures state.callback == Ready(m, old(state).callback.admittedAt)
    {
      state := OnDiscover(cfg, state, ok);
      if cfg.discovery {
        if m.mac !in discovered {
          if ok {
            discovered := discovered + {m.mac};
          }
        }
      }
    }

    /** The non-blocking send to the publisher. */
    method Sends(m: Measurement)
      requires Matches() && state.callback.Ready? && state.callback.m == m
      modifies this`queue, this`publishFailures, this`state
      ensures Matches() && state == OnEnqueue(old(state))
      ensures state.callback.Idle?
    {
      state := OnEnqueue(state);
      if |queue| < QUEUE_SIZE {
        queue := queue + [m];
      } else {
        publishFailures := publishFailures + 1;
      }
    }

    ghost method Starts(now: int)
      requires Matches()
      modifies this`state
      ensures Matches() && state == old(state).(clock := now)
    {
      state := state.(clock := now);
    }

    /** The clock is read anew, when i steps of the callback have been made. */
    ghost method Reads(whole: State, ticks: seq<int>, i: nat, ok: bool)
      requires Matches() && !state.callback.Idle? && i < |ticks| && whole == Completed(cfg, state, ticks[i..], ok)
      modifies this`state
      ensures Matches() && state == old(state).(clock := ticks[i])
      ensures whole == Completed(cfg, Follow(cfg, state, ok), ticks[i + 1..], ok)
    {
      CompletedNext(whole, cfg, state, ticks, i, ok);
      state := state.(clock := ticks[i]);
    }

    /** The second half of the callback: an admitted frame is parsed, announced and queued. */
    method Delivers(mac: string, rssi: int, data: seq<byte>, ticks: seq<int>, ok: bool, ghost whole: State)
      requires Matches() && state.callback.Admitted? && state.callback.frame == Frame(mac, rssi, data)
      requires |ticks| == 6 && whole == Completed(cfg, state, ticks[3..], ok)
      modifies this`parseErrors, this`discovered, this`queue, this`publishFailures, this`state
      ensures Matches() && state == whole && state.callback.Idle?
    {
      hide OnParse, OnDiscover, OnEnqueue, Completed, Matches;
      Reads(whole, ticks, 3, ok);
      var m := Converts(mac, rssi, data, ticks[3]);
      if m.None? {
        CompletedIdle(cfg, state, ticks[4..], ok);
        return;
      }
      Reads(whole, ticks, 4, ok);
      Announces(m.value, ok);
      Reads(whole, ticks, 5, ok);
      Sends(m.value);
      CompletedIdle(cfg, state, ticks[6..], ok);
    }

    /** The whole callback on the fields. */
    method Handles(addr: string, rssi: int, data: seq<byte>, now: int, ticks: seq<int>, ok: bool)
      requires Matches() && state.callback.Idle? && |ticks| == 6
      modifies this, limiter`lastSent
      ensures Matches() && state.callback.Idle?
      ensures state == Completed(cfg, OnReceive(cfg, old(state).(clock := now), Frame(addr, rssi, data)), ticks, ok)
    {
      hide OnReceive, OnCount, OnPrefer, OnLimit, Completed, Matches, Upper;
      var mac := Upper(addr);
      Starts(now);
      var go := Passes(mac, now, Frame(addr, rssi, data));
      ghost var whole := Completed(cfg, state, ticks, ok);
      assert ticks[0..] == ticks;
      if !go {
        CompletedIdle(cfg, state, ticks, ok);
        return;
      }
      Reads(whole, ticks, 0, ok);
      Counts();
      Reads(whole, ticks, 1, ok);
      go := Prefers(mac, data, ticks[1]);
      if !go {
        CompletedIdle(cfg, state, ticks[2..], ok);
        return;
      }
      Reads(whole, ticks, 2, ok);
      var allowed := Admits(mac, ticks[2]);
      if !allowed {
        CompletedIdle(cfg, state, ticks[3..], ok);
        return;
      }
      Delivers(mac, rssi, data, ticks, ok, whole);
    }

    /**
     The advertisement callback, called at some time and reading the clock six times more. Whatever the publisher is
     doing, the fields end up as the uninterrupted run of the callback leaves them, and keep the laws.
     */
    method OnAdvertisement(addr: string, rssi: int, data: seq<byte>, now: int, ticks: seq<int>, discoveryOk: bool)
      requires Valid() && state.clock <= now && |ticks| == 6 && NonDecreasing(now, ticks)
      modifies this, limiter`lastSent
      ensures Valid() && Balanced()
      ensures state == Completed(cfg, OnReceive(cfg, old(state).(clock := now), Frame(addr, rssi, data)), ticks, discoveryOk)
    {
      hide OnReceive, Completed, Matches, Lawful, NonDecreasing;
      CallbackLawful(cfg, state, now, Frame(addr, rssi, data), ticks, discoveryOk);
      Handles(addr, rssi, data, now, ticks, discoveryOk);
    }

    /** The publisher receives from the queue. */
    method Receives(ghost now: int) returns (m: Measurement)
      requires Valid() && state.publisher.Waiting? && queue != [] && state.clock <= now
      modifies this`queue, this`state
      ensures Valid() && Balanced()
      ensures state == OnTake(old(state).(clock := now)) && state.publisher == Busy(m, now)
    {
      hide Lawful;
      LawfulNext(cfg, state, Tick(now));
      LawfulNext(cfg, state.(clock := now), Take);
      m := queue[0];
      queue := queue[1..];
      state := OnTake(state.(clock := now));
    }

    /** The publisher counts how a publication ended. */
    method Finishes(ok: bool, ghost now: int)
      requires Valid() && state.publisher.Busy? && state.clock <= now
      modifies this`publishedTotal, this`publishFailures, this`state
      ensures Valid() && Balanced()
      ensures state == OnFinish(old(state).(clock := now), ok)
    {
      hide Lawful;
      LawfulNext(cfg, state, Tick(now));
      LawfulNext(cfg, state.(clock := now), Finish(ok));
      state := OnFinish(state.(clock := now), ok);
      if !ok {
        publishFailures := publishFailures + 1;
        return;
      }
      publishedTotal := publishedTotal + 1;
    }

    /**
     A turn of the publisher with a measurement waiting: it takes the oldest, publishes it with retries in whatever
     surroundings, and counts how that ended. The time it takes is within the bound that the latency law assumes.
     */
    method PublishNext(client: Publishing.Client, rounds: seq<Publishing.Round>, ghost now: int)
      returns (p: Publishing.Publication)
      requires Valid() && state.publisher.Waiting? && queue != [] && state.clock <= now
      requires |rounds| == Publishing.PUBLISH_RETRIES + 1 && forall r | r in rounds :: r.Possible()
      modifies this`queue, this`publishedTotal, this`publishFailures, this`state, client
      ensures Valid() && Balanced()
      ensures var s, steps := old(state).(clock := now), [Take, Tick(now + p.elapsed), Finish(p.error.None?)];
              && IsRun(cfg, s, steps) && state == Exec(cfg, s, steps)
              && Prompt(OnTake(s), Tick(now + p.elapsed))
    {
      hide OnFinish, Lawful, IsRun, Exec;
      ghost var s := state.(clock := now);
      var m := Receives(now);
      p := client.Publish(Publishing.PUBLISH_RETRIES, rounds);
      Finishes(p.error.None?, now + p.elapsed);
      TurnIsRun(cfg, s, p.elapsed, p.error.None?);
    }
  }
}
