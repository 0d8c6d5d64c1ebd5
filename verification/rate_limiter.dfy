/** Per-device rate limiting: admission is greedy, and greedy is the best a fixed minimum interval allows. */
module RateLimiting {
  import opened Bytes

  /** minInterval 0 or less means the default. */
  datatype Device = Device(name: string, minInterval: int)

  /** The settings the advertisement pipeline looks at; durations in nanoseconds. */
  datatype Config = Config(named: bool, devices: map<string, Device>, minInterval: int, discovery: bool, extendedValues: bool)

  function IntervalOf(cfg: Config, mac: string): (interval: int)
    ensures mac in cfg.devices && cfg.devices[mac].minInterval > 0 ==> interval == cfg.devices[mac].minInterval
    ensures mac !in cfg.devices || cfg.devices[mac].minInterval <= 0 ==> interval == cfg.minInterval
  {
    if mac in cfg.devices && cfg.devices[mac].minInterval > 0 then cfg.devices[mac].minInterval else cfg.minInterval
  }

  type Times = map<string, int>

  function Last(sent: Times, mac: string): Option<int> {
    if mac in sent then Some(sent[mac]) else None
  }

  /** Far enough from the last admission. */
  predicate Free(interval: int, last: Option<int>, now: int) {
    last.None? || now - last.value >= interval
  }

  /** One request: the admission times afterwards and the answer. */
  function Admit(cfg: Config, sent: Times, mac: string, now: int): (Times, bool) {
    if Free(IntervalOf(cfg, mac), Last(sent, mac), now) then (sent[mac := now], true) else (sent, false)
  }

  class RateLimiter {
    const cfg: Config
    var lastSent: Times

    constructor (cfg: Config)
      ensures this.cfg == cfg && lastSent == map[]
    {
      this.cfg := cfg;
      lastSent := map[];
    }

    method Allow(mac: string, now: int) returns (allowed: bool)
      modifies this`lastSent
      ensures (lastSent, allowed) == Admit(cfg, old(lastSent), mac, now)
      ensures allowed <==>
              || mac !in old(lastSent)
              || now - old(lastSent)[mac] >= if mac in cfg.devices && cfg.devices[mac].minInterval > 0
                                             then cfg.devices[mac].minInterval else cfg.minInterval
      ensures lastSent == if allowed then old(lastSent)[mac := now] else old(lastSent)
    {
      var interval := cfg.minInterval;
      if mac in cfg.devices && cfg.devices[mac].minInterval > 0 {
        interval := cfg.devices[mac].minInterval;
      }
      if mac in lastSent {
        var last := lastSent[mac];
        if now - last < interval {
          return false;
        }
      }
      lastSent := lastSent[mac := now];
      return true;
    }
  }

  // ---------------------------------------------------------------------------------------------------------
  // Runs of requests.

  datatype Request = Request(mac: string, at: int)

  function Answers(cfg: Config, sent: Times, requests: seq<Request>): (answers: seq<bool>)
    ensures |answers| == |requests|
    decreases requests
  {
    if requests == [] then []
    else
      var (sent', ok) := Admit(cfg, sent, requests[0].mac, requests[0].at);
      [ok] + Answers(cfg, sent', requests[1..])
  }

  /** The arrival times of one device. */
  function TimesOf(mac: string, requests: seq<Request>): seq<int> {
    if requests == [] then []
    else (if requests[0].mac == mac then [requests[0].at] else []) + TimesOf(mac, requests[1..])
  }

  /** The answers one device got. */
  function AnswersTo(mac: string, requests: seq<Request>, answers: seq<bool>): seq<bool>
    requires |requests| == |answers|
  {
    if requests == [] then []
    else (if requests[0].mac == mac then [answers[0]] else []) + AnswersTo(mac, requests[1..], answers[1..])
  }

  /** Take each arrival that is far enough from the last one taken. */
  function Greedy(interval: int, last: Option<int>, times: seq<int>): (picks: seq<bool>)
    ensures |picks| == |times|
    decreases times
  {
    if times == [] then []
    else if Free(interval, last, times[0]) then [true] + Greedy(interval, Some(times[0]), times[1..])
    else [false] + Greedy(interval, last, times[1..])
  }

  /** A selection whose picks are all at least the interval apart, also from the last one before it. */
  predicate Spaced(interval: int, last: Option<int>, times: seq<int>, picks: seq<bool>)
    requires |picks| == |times|
    decreases times
  {
    times == [] ||
    if picks[0] then Free(interval, last, times[0]) && Spaced(interval, Some(times[0]), times[1..], picks[1..])
    else Spaced(interval, last, times[1..], picks[1..])
  }

  function Count(picks: seq<bool>): nat {
    if picks == [] then 0 else (if picks[0] then 1 else 0) + Count(picks[1..])
  }

  /** Non-decreasing, and none before the last. */
  predicate InOrder(last: Option<int>, times: seq<int>)
    decreases times
  {
    times == [] || ((last.Some? ==> last.value <= times[0]) && InOrder(Some(times[0]), times[1..]))
  }

  predicate Earlier(a: Option<int>, b: Option<int>) {
    a.None? || (b.Some? && a.value <= b.value)
  }

  /** Devices do not influence each other: each gets the greedy answers for its own arrivals. */
  lemma {:induction false} AnswersAreGreedy(cfg: Config, sent: Times, requests: seq<Request>, mac: string)
    ensures AnswersTo(mac, requests, Answers(cfg, sent, requests))
         == Greedy(IntervalOf(cfg, mac), Last(sent, mac), TimesOf(mac, requests))
    decreases requests
  {
    if requests != [] {
      var (sent', ok) := Admit(cfg, sent, requests[0].mac, requests[0].at);
      AnswersAreGreedy(cfg, sent', requests[1..], mac);
      assert Answers(cfg, sent, requests)[1..] == Answers(cfg, sent', requests[1..]);
      if requests[0].mac == mac {
        assert TimesOf(mac, requests)[1..] == TimesOf(mac, requests[1..]);
      } else {
        assert TimesOf(mac, requests) == TimesOf(mac, requests[1..]);
        assert Last(sent', mac) == Last(sent, mac);
      }
    }
  }

  lemma {:induction false} GreedySpaced(interval: int, last: Option<int>, times: seq<int>)
    ensures Spaced(interval, last, times, Greedy(interval, last, times))
    decreases times
  {
    if times != [] {
      var next := if Free(interval, last, times[0]) then Some(times[0]) else last;
      GreedySpaced(interval, next, times[1..]);
      assert Greedy(interval, last, times)[1..] == Greedy(interval, next, times[1..]);
    }
  }

  lemma GreedyCount(interval: int, last: Option<int>, times: seq<int>)
    requires times != []
    ensures Count(Greedy(interval, last, times)) ==
            if Free(interval, last, times[0]) then 1 + Count(Greedy(interval, Some(times[0]), times[1..]))
            else Count(Greedy(interval, last, times[1..]))
  {
    var next := if Free(interval, last, times[0]) then Some(times[0]) else last;
    assert Greedy(interval, last, times)[1..] == Greedy(interval, next, times[1..]);
  }

  /** An earlier last admission is no worse, and better by one admission at most. */
  lemma {:induction false} GreedyStaysAhead(interval: int, a: Option<int>, b: Option<int>, times: seq<int>)
    requires Earlier(a, b) && InOrder(b, times)
    ensures Count(Greedy(interval, b, times)) <= Count(Greedy(interval, a, times)) <= Count(Greedy(interval, b, times)) + 1
    decreases times
  {
    if times != [] {
      var head := Some(times[0]);
      GreedyCount(interval, a, times);
      GreedyCount(interval, b, times);
      if !Free(interval, b, times[0]) {
        assert Earlier(b, head);
        if Free(interval, a, times[0]) {
          GreedyStaysAhead(interval, b, head, times[1..]);
        } else {
          InOrderTail(b, times);
          GreedyStaysAhead(interval, a, b, times[1..]);
        }
      }
    }
  }

  lemma InOrderTail(last: Option<int>, times: seq<int>)
    requires times != [] && InOrder(last, times)
    ensures InOrder(last, times[1..])
  {
  }

  /** No selection with the interval between its picks has more picks than the greedy one. */
  lemma {:induction false} GreedyOptimal(interval: int, last: Option<int>, times: seq<int>, picks: seq<bool>)
    requires |picks| == |times| && InOrder(last, times) && Spaced(interval, last, times, picks)
    ensures Count(picks) <= Count(Greedy(interval, last, times))
    decreases times
  {
    if times != [] {
      GreedyCount(interval, last, times);
      InOrderTail(last, times);
      if picks[0] {
        GreedyOptimal(interval, Some(times[0]), times[1..], picks[1..]);
      } else {
        GreedyOptimal(interval, last, times[1..], picks[1..]);
        if Free(interval, last, times[0]) {
          GreedyStaysAhead(interval, last, Some(times[0]), times[1..]);
        }
      }
    }
  }

  /** One request is refused exactly when the last admission of its device is less than its interval ago. */
  lemma RefusedExactly(cfg: Config, sent: Times, mac: string, now: int, interval: int)
    requires interval == if mac in cfg.devices && cfg.devices[mac].minInterval > 0
                         then cfg.devices[mac].minInterval else cfg.minInterval
    ensures Answers(cfg, sent, [Request(mac, now)]) == [!(mac in sent && now - sent[mac] < interval)]
  {
    assert [Request(mac, now)][1..] == [];
  }

  /**
   The limiter's answers to a device on any run of requests: spaced by the interval configured for it, or else the default,
   and at least as many admissions as any other spaced selection of its arrivals.
   */
  lemma LimiterOptimal(cfg: Config, requests: seq<Request>, mac: string, interval: int, picks: seq<bool>)
    requires interval == if mac in cfg.devices && cfg.devices[mac].minInterval > 0
                         then cfg.devices[mac].minInterval else cfg.minInterval
    requires |picks| == |TimesOf(mac, requests)| && InOrder(None, TimesOf(mac, requests))
    requires Spaced(interval, None, TimesOf(mac, requests), picks)
    ensures var answers := AnswersTo(mac, requests, Answers(cfg, map[], requests));
            && |answers| == |TimesOf(mac, requests)|
            && Spaced(interval, None, TimesOf(mac, requests), answers)
            && Count(picks) <= Count(answers)
  {
    AnswersAreGreedy(cfg, map[], requests, mac);
    GreedySpaced(interval, None, TimesOf(mac, requests));
    GreedyOptimal(interval, None, TimesOf(mac, requests), picks);
  }

  /** Spaced says of any two picks that they are the interval apart. */
  lemma {:induction false} SpacedApart(interval: int, last: Option<int>, times: seq<int>, picks: seq<bool>, i: nat, j: nat)
    requires |picks| == |times| && Spaced(interval, last, times, picks) && InOrder(last, times)
    requires i < j < |times| && picks[i] && picks[j] && interval >= 0
    ensures times[j] - times[i] >= interval
    decreases times
  {
    if i > 0 {
      if !picks[0] {
        InOrderTail(last, times);
      }
      SpacedApart(interval, if picks[0] then Some(times[0]) else last, times[1..], picks[1..], i - 1, j - 1);
    } else {
      LaterApart(interval, times[0], times[1..], picks[1..], j - 1);
    }
  }

  lemma {:induction false} LaterApart(interval: int, last: int, times: seq<int>, picks: seq<bool>, j: nat)
    requires |picks| == |times| && Spaced(interval, Some(last), times, picks) && InOrder(Some(last), times)
    requires j < |times| && picks[j] && interval >= 0
    ensures times[j] - last >= interval
    decreases times
  {
    if j > 0 {
      if picks[0] {
        LaterApart(interval, times[0], times[1..], picks[1..], j - 1);
      } else {
        InOrderTail(Some(last), times);
        LaterApart(interval, last, times[1..], picks[1..], j - 1);
      }
    }
  }
}
