/** Suppressed format 6 frames leave no trace: a run without them does everything else alike. */
module Erasure {
  import opened RateLimiting
  import opened Pipeline

  /** Whether the callback is in the middle of a dropped frame after this step. */
  predicate StillDropping(s': State, step: Step, keep: bool, dropping: bool) {
    if step.Receive? then !keep
    else if IsCallbackStep(step) then dropping && !s'.callback.Idle?
    else dropping
  }

  /**
   A choice of frames to drop from a run, as a flag for each step: frames are dropped whole, and only frames that the E1
   rule ends up suppressing.
   */
  ghost predicate DropsSuppressed(cfg: Config, s: State, steps: seq<Step>, keep: seq<bool>, dropping: bool)
    requires IsRun(cfg, s, steps) && |keep| == |steps|
    decreases steps
  {
    if steps == [] then !dropping
    else
      var step, s' := steps[0], Next(cfg, s, steps[0]);
      && (if step.Receive? then keep[0] || s'.callback.Seen?
          else if IsCallbackStep(step) then
            && keep[0] == !dropping
            && (dropping ==> step.Count? || (step.Prefer? && s'.callback.Idle?))
          else keep[0])
      && DropsSuppressed(cfg, s', steps[1..], keep[1..], StillDropping(s', step, keep[0], dropping))
  }

  function Kept(steps: seq<Step>, keep: seq<bool>): seq<Step>
    requires |keep| == |steps|
  {
    if steps == [] then [] else (if keep[0] then [steps[0]] else []) + Kept(steps[1..], keep[1..])
  }

  /** Everything but when devices were last seen, how many advertisements were counted and how many suppressed. */
  function Essence(s: State): State {
    s.(memory := s.memory.(lastSeen := map[], counters := s.memory.counters.(total := 0)),
       history := s.history.(suppressed := 0))
  }

  /** The states of a run and of the run without the dropped frames. */
  ghost predicate Alike(s: State, t: State, dropping: bool) {
    if dropping then
      (s.callback.Seen? || s.callback.Counted?) && t.callback.Idle? && Essence(s.(callback := Idle)) == Essence(t)
    else Essence(s) == Essence(t)
  }

  lemma EssencePrefer(s: State)
    requires s.callback.Counted?
    ensures Essence(OnPrefer(s)) == Essence(OnPrefer(Essence(s)))
  {
  }

  lemma EssenceLimit(cfg: Config, s: State)
    requires s.callback.Chosen?
    ensures Essence(OnLimit(cfg, s)) == Essence(OnLimit(cfg, Essence(s)))
  {
    hide Admit;
  }

  lemma EssenceEnqueue(s: State)
    requires s.callback.Ready?
    ensures Essence(OnEnqueue(s)) == Essence(OnEnqueue(Essence(s)))
  {
  }

  lemma EssenceParse(cfg: Config, s: State)
    requires s.callback.Admitted?
    ensures Essence(OnParse(cfg, s)) == Essence(OnParse(cfg, Essence(s)))
  {
    hide MeasurementOf;
  }

  /** What a step does to the essence depends on the essence alone. */
  lemma EssenceStep(cfg: Config, s: State, step: Step)
    requires Possible(s, step)
    ensures Possible(Essence(s), step) && Essence(Next(cfg, s, step)) == Essence(Next(cfg, Essence(s), step))
  {
    hide OnPrefer, OnLimit, OnEnqueue, OnParse, Filtered;
    match step
    case Prefer => EssencePrefer(s);
    case Limit => EssenceLimit(cfg, s);
    case Parse => EssenceParse(cfg, s);
    case Enqueue => EssenceEnqueue(s);
    case _ =>
  }

  /** A kept step does the same to both. */
  lemma KeptStep(cfg: Config, s: State, t: State, step: Step)
    requires Possible(s, step) && Essence(s) == Essence(t)
    ensures Possible(t, step) && Essence(Next(cfg, s, step)) == Essence(Next(cfg, t, step))
  {
    hide Next;
    assert Possible(t, step);
    EssenceStep(cfg, s, step);
    EssenceStep(cfg, t, step);
  }

  /** Steps of the publisher, the clock and the context do not look at the callback. */
  lemma OtherStep(cfg: Config, s: State, step: Step)
    requires Possible(s, step) && !IsCallbackStep(step)
    ensures Possible(s.(callback := Idle), step)
    ensures Next(cfg, s.(callback := Idle), step) == Next(cfg, s, step).(callback := Idle)
    ensures Next(cfg, s, step).callback == s.callback
  {
  }

  /** A dropped step changes nothing that matters. */
  lemma DroppedStep(cfg: Config, s: State, step: Step)
    requires Possible(s, step) && (step.Receive? || step.Count? || step.Prefer?)
    requires step.Prefer? ==> Next(cfg, s, step).callback.Idle?
    ensures Essence(Next(cfg, s, step).(callback := Idle)) == Essence(s.(callback := Idle))
  {
  }

  /**
   Dropping suppressed frames from any run leaves a run, with the same measurements accepted and taken, the same limiter
   and E1 times, the same discovered devices, and the same publications.
   */
  lemma {:induction false} SuppressedFramesErased(cfg: Config, s: State, t: State, steps: seq<Step>, keep: seq<bool>,
                                                  dropping: bool)
    requires IsRun(cfg, s, steps) && |keep| == |steps| && DropsSuppressed(cfg, s, steps, keep, dropping)
    requires Alike(s, t, dropping)
    ensures IsRun(cfg, t, Kept(steps, keep))
    ensures Alike(Exec(cfg, s, steps), Exec(cfg, t, Kept(steps, keep)), false)
    decreases steps
  {
    if steps != [] {
      var step, s' := steps[0], Next(cfg, s, steps[0]);
      var still := StillDropping(s', step, keep[0], dropping);
      var kept := Kept(steps, keep);
      if keep[0] {
        if dropping {
          OtherStep(cfg, s, step);
          KeptStep(cfg, s.(callback := Idle), t, step);
        } else {
          KeptStep(cfg, s, t, step);
        }
        SuppressedFramesErased(cfg, s', Next(cfg, t, step), steps[1..], keep[1..], still);
        assert kept[0] == step && kept[1..] == Kept(steps[1..], keep[1..]);
      } else {
        DroppedStep(cfg, s, step);
        SuppressedFramesErased(cfg, s', t, steps[1..], keep[1..], still);
        assert kept == Kept(steps[1..], keep[1..]);
      }
    }
  }

  /** From the start: what the erased run shares with the full one, spelled out. */
  lemma ErasedRunShares(cfg: Config, now: int, steps: seq<Step>, keep: seq<bool>)
    requires IsRun(cfg, Initial(now), steps) && |keep| == |steps|
    requires DropsSuppressed(cfg, Initial(now), steps, keep, false)
    ensures IsRun(cfg, Initial(now), Kept(steps, keep))
    ensures var full, erased := Exec(cfg, Initial(now), steps), Exec(cfg, Initial(now), Kept(steps, keep));
            && full.memory.queue == erased.memory.queue && full.history.accepted == erased.history.accepted
            && full.memory.lastSent == erased.memory.lastSent && full.memory.lastE1 == erased.memory.lastE1
            && full.memory.discovered == erased.memory.discovered && full.publisher == erased.publisher
            && full.memory.counters.published == erased.memory.counters.published
            && full.memory.counters.rateLimited == erased.memory.counters.rateLimited
  {
    SuppressedFramesErased(cfg, Initial(now), Initial(now), steps, keep, false);
    var full, erased := Exec(cfg, Initial(now), steps), Exec(cfg, Initial(now), Kept(steps, keep));
    assert Essence(full).memory == Essence(erased).memory && Essence(full).history == Essence(erased).history;
    assert Essence(full).memory.counters == Essence(erased).memory.counters;
  }
}
