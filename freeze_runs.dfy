/**
 * Sequences of host callbacks applied to the filter state, and the
 * properties of the freeze state machine that hold across them: time
 * accumulation and the auto-release threshold, the disabled reset, the
 * state invariant, and capture-at-most-once between invalidations.
 */
module FreezeRuns {
  import Wrappers
  import opened FreezeSpec

  /** One tick's arguments: the seconds since the previous tick and the upstream target. */
  type TickInput = (real, Wrappers.Option<Size>)

  /** The ticks, applied in order. */
  function RunTicks(s: State, ts: seq<TickInput>): State
    decreases |ts|
  {
    if ts == [] then s
    else
      var last := ts[|ts| - 1];
      Tick(RunTicks(s, ts[..|ts| - 1]), last.0, last.1)
  }

  /** Total seconds the ticks report. */
  function Elapsed(ts: seq<TickInput>): real
    decreases |ts|
  {
    if ts == [] then 0.0 else Elapsed(ts[..|ts| - 1]) + ts[|ts| - 1].0
  }

  /** The host never reports negative frame times. */
  predicate NonNegative(ts: seq<TickInput>) {
    forall i :: 0 <= i < |ts| ==> ts[i].0 >= 0.0
  }

  lemma {:induction false} ElapsedNonNegative(ts: seq<TickInput>)
    requires NonNegative(ts)
    ensures Elapsed(ts) >= 0.0
    decreases |ts|
  {
    if ts != [] {
      var init := ts[..|ts| - 1];
      assert NonNegative(init) by {
        forall i | 0 <= i < |init| ensures init[i].0 >= 0.0 { assert init[i] == ts[i]; }
      }
      ElapsedNonNegative(init);
    }
  }

  /** The invariant holds after any run of ticks with non-negative frame times. */
  lemma {:induction false} RunTicksValid(s: State, ts: seq<TickInput>)
    requires Valid(s) && NonNegative(ts)
    ensures Valid(RunTicks(s, ts))
    ensures RunTicks(s, ts).config == s.config
    decreases |ts|
  {
    if ts != [] {
      var init := ts[..|ts| - 1];
      assert NonNegative(init) by {
        forall i | 0 <= i < |init| ensures init[i].0 >= 0.0 { assert init[i] == ts[i]; }
      }
      RunTicksValid(s, init);
    }
  }

  /**
   * While the accumulated time stays within the threshold (or there is
   * none), an enabled filter stays enabled and its duration is its starting
   * duration plus every tick's time.
   */
  lemma {:induction false} StaysEnabledWithinMax(s: State, ts: seq<TickInput>)
    requires s.enabled && NonNegative(ts)
    requires !MaxExceeded(s.config, s.duration + Elapsed(ts))
    ensures RunTicks(s, ts).enabled
    ensures RunTicks(s, ts).duration == s.duration + Elapsed(ts) >= s.duration
    ensures RunTicks(s, ts).config == s.config
    decreases |ts|
  {
    ElapsedNonNegative(ts);
    if ts != [] {
      var init := ts[..|ts| - 1];
      assert NonNegative(init) by {
        forall i | 0 <= i < |init| ensures init[i].0 >= 0.0 { assert init[i] == ts[i]; }
      }
      assert Elapsed(init) <= Elapsed(ts) by { assert ts[|ts| - 1].0 >= 0.0; }
      StaysEnabledWithinMax(s, init);
    }
  }

  /**
   * The auto-release fires on the very tick that takes the accumulated time
   * past the threshold, and not before.
   */
  lemma {:induction false} DisablesOnCrossing(s: State, ts: seq<TickInput>, x: TickInput)
    requires s.enabled && NonNegative(ts) && x.0 >= 0.0
    requires !MaxExceeded(s.config, s.duration + Elapsed(ts))
    requires MaxExceeded(s.config, s.duration + Elapsed(ts) + x.0)
    ensures RunTicks(s, ts).enabled
    ensures !RunTicks(s, ts + [x]).enabled
  {
    assert (ts + [x])[..|ts|] == ts;
    StaysEnabledWithinMax(s, ts);
  }

  /**
   * Any nonempty run of ticks from a disabled filter ends disabled with no
   * held frame and both timers at zero, whatever the tick times were.
   */
  lemma {:induction false} DisabledTail(s: State, ts: seq<TickInput>)
    requires !s.enabled && ts != []
    ensures !RunTicks(s, ts).enabled
    ensures !RunTicks(s, ts).processedFrame
    ensures RunTicks(s, ts).duration == 0.0 && RunTicks(s, ts).lastRefresh == 0.0
    ensures RunTicks(s, ts).config == s.config
    decreases |ts|
  {
    var init := ts[..|ts| - 1];
    if init != [] {
      DisabledTail(s, init);
    }
  }

  /**
   * The scenario of a 2000 ms threshold and no refresh, enabled at zero and
   * ticked every half second: the filter is still enabled after four ticks
   * (2.0 s is not past 2000 ms) and releases on the fifth.
   */
  lemma AutoReleaseScenario(target: Wrappers.Option<Size>)
    ensures var s := State(true, false, 0, 0, false, false, 0.0, 0.0, Config(2000, 0, None, None, None, None));
            var x := (0.5, target);
            RunTicks(s, [x, x, x, x]).enabled && !RunTicks(s, [x, x, x, x, x]).enabled
  {
    var s := State(true, false, 0, 0, false, false, 0.0, 0.0, Config(2000, 0, None, None, None, None));
    var x := (0.5, target);
    var ts := [x, x, x, x];
    assert ts[..3] == [x, x, x] && [x, x, x][..2] == [x, x] && [x, x][..1] == [x] && [x][..0] == ts[..0];
    assert Elapsed([x]) == 0.5;
    assert Elapsed([x, x]) == 1.0;
    assert Elapsed([x, x, x]) == 1.5;
    assert Elapsed(ts) == 2.0;
    assert ts + [x] == [x, x, x, x, x];
    DisablesOnCrossing(s, ts, x);
  }

  // ---------------------------------------------------------------------
  // Captures across frames
  // ---------------------------------------------------------------------

  /** A host callback that reaches the filter state. */
  datatype Event =
    | VideoTick(t: real, target: Wrappers.Option<Size>)
    | Draw(targetPresent: bool, parentPresent: bool, beginOk: bool)
    | Trigger(hook: Hook)
    | Act(action: Action)
    | EnableKey(pressed: bool)
    | DisableKey(pressed: bool)
    | Reconfigure(settings: Settings)

  /** The state after one event. */
  function Step(s: State, e: Event): State {
    match e
    case VideoTick(t, target) => Tick(s, t, target)
    case Draw(tp, pp, ok) => Render(s, tp, pp, ok).0
    case Trigger(h) => OnHook(s, h)
    case Act(a) => DoAction(s, a)
    case EnableKey(p) => EnableHotkey(s, p).0
    case DisableKey(p) => DisableHotkey(s, p).0
    case Reconfigure(settings) => ApplySettings(s, settings)
  }

  /** Whether one event captures a new frame. */
  predicate Captures(s: State, e: Event) {
    e.Draw? && Render(s, e.targetPresent, e.parentPresent, e.beginOk).1.Capture?
  }

  /** Whether one event drops a held frame. */
  predicate Invalidates(s: State, e: Event) {
    s.processedFrame && !Step(s, e).processedFrame
  }

  /** The state after the events, in order. */
  function RunEvents(s: State, es: seq<Event>): State
    decreases |es|
  {
    if es == [] then s else RunEvents(Step(s, es[0]), es[1..])
  }

  /** How many of the events capture a frame. */
  function CaptureCount(s: State, es: seq<Event>): nat
    decreases |es|
  {
    if es == [] then 0
    else (if Captures(s, es[0]) then 1 else 0) + CaptureCount(Step(s, es[0]), es[1..])
  }

  /** How many of the events drop a held frame. */
  function InvalidationCount(s: State, es: seq<Event>): nat
    decreases |es|
  {
    if es == [] then 0
    else (if Invalidates(s, es[0]) then 1 else 0) + InvalidationCount(Step(s, es[0]), es[1..])
  }

  /** Only a tick drops a held frame: renders, hooks, hotkeys, actions and updates keep it. */
  lemma OnlyTicksInvalidate(s: State, e: Event)
    requires Invalidates(s, e)
    ensures e.VideoTick?
  {
  }

  /**
   * Over any mix of callbacks, each capture needs its own invalidation:
   * there are at most as many captures as dropped held frames, plus one
   * if no frame was held at the start.  After a capture with no later
   * invalidation the frame is still held.
   */
  lemma {:induction false} CapturesNeedInvalidation(s: State, es: seq<Event>)
    ensures CaptureCount(s, es) <= (if s.processedFrame then 0 else 1) + InvalidationCount(s, es)
    ensures s.processedFrame && InvalidationCount(s, es) == 0 ==> RunEvents(s, es).processedFrame
    decreases |es|
  {
    if es != [] {
      CapturesNeedInvalidation(Step(s, es[0]), es[1..]);
    }
  }

  /**
   * A held frame is never recaptured across frames whose ticks do not
   * invalidate it, and without invalidation at most one capture happens.
   */
  lemma HeldFrameNeverRecaptured(s: State, es: seq<Event>)
    requires InvalidationCount(s, es) == 0
    ensures s.processedFrame ==> CaptureCount(s, es) == 0 && RunEvents(s, es).processedFrame
    ensures CaptureCount(s, es) <= 1
  {
    CapturesNeedInvalidation(s, es);
  }

  /**
   * The invalidations of a held frame are exactly the two tick branches:
   * a disabled tick, and a due refresh of an enabled one.
   */
  lemma TickInvalidates(s: State, t: real, target: Wrappers.Option<Size>)
    requires s.processedFrame
    ensures Invalidates(s, VideoTick(t, target)) <==>
              !s.enabled || (!MaxExceeded(s.config, s.duration + t) && RefreshDue(s.config, s.duration + t, s.lastRefresh))
  {
  }
}
