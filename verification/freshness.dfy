/** The health endpoint's idea of the newest advertisement, over any run of the pipeline. */
module Freshness {
  import opened Bytes
  import opened Addresses
  import opened RateLimiting
  import opened Pipeline

  /** The greatest of the times, or None when there are none. */
  ghost predicate IsNewest(lastSeen: Times, newest: Option<int>) {
    match newest
    case None => lastSeen == map[]
    case Some(t) =>
      (exists mac :: mac in lastSeen && lastSeen[mac] == t) && forall mac | mac in lastSeen :: lastSeen[mac] <= t
  }

  /** The loop of the health handler over the devices, in any order. */
  method Newest(lastSeen: Times) returns (newest: Option<int>)
    ensures IsNewest(lastSeen, newest)
  {
    newest := None;
    var left := lastSeen.Keys;
    while left != {}
      invariant left <= lastSeen.Keys
      invariant newest.None? ==> left == lastSeen.Keys
      invariant newest.Some? ==>
                  && (exists mac :: mac in lastSeen && lastSeen[mac] == newest.value)
                  && forall mac | mac in lastSeen.Keys - left :: lastSeen[mac] <= newest.value
      decreases left
    {
      var mac :| mac in left;
      if newest.None? || lastSeen[mac] > newest.value {
        newest := Some(lastSeen[mac]);
      }
      left := left - {mac};
    }
  }

  /** When a run last received an advertisement that passed the device filter, whatever became of it. */
  ghost function LastHeard(cfg: Config, s: State, steps: seq<Step>, before: Option<int>): Option<int>
    requires IsRun(cfg, s, steps)
    decreases steps
  {
    if steps == [] then before
    else
      var step := steps[0];
      var last := if step.Receive? && !Filtered(cfg, Upper(step.frame.addr)) then Some(s.clock) else before;
      LastHeard(cfg, Next(cfg, s, step), steps[1..], last)
  }

  /** Only receiving an advertisement changes when devices were last seen. */
  lemma SeenNext(cfg: Config, s: State, step: Step, before: Option<int>)
    requires Possible(s, step) && IsNewest(s.memory.lastSeen, before)
    requires before.Some? ==> before.value <= s.clock
    ensures var heard := step.Receive? && !Filtered(cfg, Upper(step.frame.addr));
            IsNewest(Next(cfg, s, step).memory.lastSeen, if heard then Some(s.clock) else before)
    ensures s.clock <= Next(cfg, s, step).clock
  {
    hide MeasurementOf, Suppressed, Admit, IsNewest;
    if step.Receive? {
      SeenReceive(cfg, s, step.frame, before);
    }
  }

  lemma SeenReceive(cfg: Config, s: State, f: Frame, before: Option<int>)
    requires IsNewest(s.memory.lastSeen, before) && (before.Some? ==> before.value <= s.clock)
    ensures var heard := !Filtered(cfg, Upper(f.addr));
            IsNewest(OnReceive(cfg, s, f).memory.lastSeen, if heard then Some(s.clock) else before)
  {
    var addr := Upper(f.addr);
    if !Filtered(cfg, addr) {
      var seen := OnReceive(cfg, s, f).memory.lastSeen;
      assert addr in seen && seen[addr] == s.clock;
    }
  }

  /**
   After any run the newest time is that of the last advertisement that passed the filter, also when it was suppressed, rate
   limited or could not be parsed.
   */
  lemma {:induction false} EveryRunFresh(cfg: Config, s: State, steps: seq<Step>, before: Option<int>)
    requires IsRun(cfg, s, steps) && IsNewest(s.memory.lastSeen, before)
    requires before.Some? ==> before.value <= s.clock
    ensures IsNewest(Exec(cfg, s, steps).memory.lastSeen, LastHeard(cfg, s, steps, before))
    decreases steps
  {
    hide IsNewest, Next;
    if steps != [] {
      var step := steps[0];
      SeenNext(cfg, s, step, before);
      var last := if step.Receive? && !Filtered(cfg, Upper(step.frame.addr)) then Some(s.clock) else before;
      EveryRunFresh(cfg, Next(cfg, s, step), steps[1..], last);
    }
  }

  // ---------------------------------------------------------------------------------------------------------
  // One device.

  /** When a run last received an advertisement of this device, its address in upper case, that passed the filter. */
  ghost function LastHeardOf(cfg: Config, s: State, steps: seq<Step>, mac: string, before: Option<int>): Option<int>
    requires IsRun(cfg, s, steps)
    decreases steps
  {
    if steps == [] then before
    else
      var step := steps[0];
      var heard := step.Receive? && Upper(step.frame.addr) == mac && !(cfg.named && mac !in cfg.devices);
      LastHeardOf(cfg, Next(cfg, s, step), steps[1..], mac, if heard then Some(s.clock) else before)
  }

  lemma SeenOfNext(cfg: Config, s: State, step: Step, mac: string)
    requires Possible(s, step)
    ensures Last(Next(cfg, s, step).memory.lastSeen, mac) ==
            if step.Receive? && Upper(step.frame.addr) == mac && !(cfg.named && mac !in cfg.devices) then Some(s.clock)
            else Last(s.memory.lastSeen, mac)
  {
    hide MeasurementOf, Suppressed, Admit, Upper;
  }

  /** The time kept of a device is that of its last advertisement that passed the filter. */
  lemma {:induction false} EveryDeviceFresh(cfg: Config, s: State, steps: seq<Step>, mac: string)
    requires IsRun(cfg, s, steps)
    ensures Last(Exec(cfg, s, steps).memory.lastSeen, mac)
         == LastHeardOf(cfg, s, steps, mac, Last(s.memory.lastSeen, mac))
    decreases steps
  {
    hide Next, Upper;
    if steps != [] {
      SeenOfNext(cfg, s, steps[0], mac);
      EveryDeviceFresh(cfg, Next(cfg, s, steps[0]), steps[1..], mac);
    }
  }
}
