/** The crash-loop backoff policy of the self-healing monitor. */
module CrashLoop {
  import opened Common

  const STABILIZE_WINDOW_MS: u64 := 5000

  function SaturatingAdd(a: u64, b: u64): u64 {
    Min(a + b, U64_MAX)
  }

  function SaturatingDouble(a: u64): u64 {
    Min(2 * a, U64_MAX)
  }

  datatype Policy = Policy(initial: u64, max: u64, backoff: u64, crashes: u64, stable: u64)

  function Fresh(initial: u64, max: u64): Policy {
    Policy(initial, max, initial, 0, 0)
  }

  function Grown(p: Policy): Policy {
    p.(backoff := Min(SaturatingDouble(p.backoff), p.max))
  }

  function AfterCrash(p: Policy): Policy {
    var counted := p.(crashes := SaturatingAdd(p.crashes, 1), stable := 0);
    if counted.crashes > 1 then Grown(counted) else counted
  }

  function AfterFailedRestart(p: Policy): Policy {
    Grown(p.(stable := 0))
  }

  function AfterTick(p: Policy, elapsed: u64): (Policy, bool) {
    if p.stable >= STABILIZE_WINDOW_MS then (p, false)
    else
      var stable := SaturatingAdd(p.stable, elapsed);
      if stable >= STABILIZE_WINDOW_MS then (Fresh(p.initial, p.max), true) else (p.(stable := stable), false)
  }

  class CrashLoopPolicy {
    var initialBackoffMs: u64
    var maxBackoffMs: u64
    var backoffMs: u64
    var consecutiveCrashes: u64
    var stableMs: u64

    ghost function View(): Policy
      reads this
    {
      Policy(initialBackoffMs, maxBackoffMs, backoffMs, consecutiveCrashes, stableMs)
    }

    constructor WithBounds(initial: u64, max: u64)
      ensures View() == Fresh(initial, max)
    {
      initialBackoffMs, maxBackoffMs := initial, max;
      backoffMs, consecutiveCrashes, stableMs := initial, 0, 0;
    }

    method Grow() returns (backoff: u64)
      modifies this
      ensures View() == Grown(old(View())) && backoff == backoffMs
    {
      backoffMs := Min(SaturatingDouble(backoffMs), maxBackoffMs);
      backoff := backoffMs;
    }

    method OnCrash() returns (backoff: u64)
      modifies this
      ensures View() == AfterCrash(old(View())) && backoff == backoffMs
    {
      consecutiveCrashes := SaturatingAdd(consecutiveCrashes, 1);
      stableMs := 0;
      if consecutiveCrashes > 1 {
        var _ := Grow();
      }
      backoff := backoffMs;
    }

    method OnRestartFailed() returns (backoff: u64)
      modifies this
      ensures View() == AfterFailedRestart(old(View())) && backoff == backoffMs
    {
      stableMs := 0;
      backoff := Grow();
    }

    method OnStableTick(elapsed: u64) returns (reset: bool)
      modifies this
      ensures (View(), reset) == AfterTick(old(View()), elapsed)
    {
      if stableMs >= STABILIZE_WINDOW_MS {
        return false;
      }
      stableMs := SaturatingAdd(stableMs, elapsed);
      if stableMs >= STABILIZE_WINDOW_MS {
        backoffMs, consecutiveCrashes, stableMs := initialBackoffMs, 0, 0;
        return true;
      }
      return false;
    }
  }

  // ----- The policy over a whole history -----

  datatype Event = Crash | RestartFailed | StableTick(elapsed: u64)

  function Apply(p: Policy, e: Event): Policy {
    match e
    case Crash => AfterCrash(p)
    case RestartFailed => AfterFailedRestart(p)
    case StableTick(elapsed) => AfterTick(p, elapsed).0
  }

  function Run(initial: u64, max: u64, events: seq<Event>): Policy {
    if events == [] then Fresh(initial, max)
    else Apply(Run(initial, max, events[..|events| - 1]), events[|events| - 1])
  }

  /** Milliseconds of ticks since the last crash, failed restart or completed window. */
  ghost function Quiet(events: seq<Event>): nat {
    if events == [] then 0
    else
      var last := events[|events| - 1];
      if !last.StableTick? then 0
      else
        var sum := Quiet(events[..|events| - 1]) + last.elapsed;
        if sum >= STABILIZE_WINDOW_MS then 0 else sum
  }

  /** The last event completes a stabilization window. */
  ghost predicate CompletesWindow(events: seq<Event>) {
    && events != [] && events[|events| - 1].StableTick?
    && Quiet(events[..|events| - 1]) + events[|events| - 1].elapsed >= STABILIZE_WINDOW_MS
  }

  /** The events after the last completed window. */
  ghost function SinceReset(events: seq<Event>): seq<Event> {
    if events == [] || CompletesWindow(events) then []
    else SinceReset(events[..|events| - 1]) + [events[|events| - 1]]
  }

  ghost function Count(events: seq<Event>, kind: Event): nat {
    if events == [] then 0
    else Count(events[..|events| - 1], kind) + if events[|events| - 1] == kind then 1 else 0
  }

  /** Growth steps: every failed restart, and every crash but the first. */
  ghost function Growths(events: seq<Event>): nat {
    var crashes := Count(events, Crash);
    Count(events, RestartFailed) + if crashes > 0 then crashes - 1 else 0
  }

  /** Exponential backoff without any saturation. */
  ghost function Exponential(initial: nat, max: nat, k: nat): nat {
    if k == 0 then initial else Min(initial * Pow2(k), max)
  }

  lemma {:induction false} GrowthDoubles(initial: u64, max: u64, k: nat)
    ensures Min(Min(2 * Exponential(initial, max, k), U64_MAX), max) == Exponential(initial, max, k + 1)
  {
    assert initial * Pow2(k + 1) == 2 * (initial * Pow2(k));
  }

  lemma CountSnoc(events: seq<Event>, e: Event, kind: Event)
    ensures Count(events + [e], kind) == Count(events, kind) + if e == kind then 1 else 0
  {
    assert (events + [e])[..|events|] == events;
  }

  /** The state a history leads to, from what happened since the last completed window. */
  ghost predicate HasClosedForm(initial: u64, max: u64, events: seq<Event>) {
    var recent := SinceReset(events);
    && Quiet(events) < STABILIZE_WINDOW_MS
    && Run(initial, max, events) == Policy(initial, max, Exponential(initial, max, Growths(recent)),
                                           Min(Count(recent, Crash), U64_MAX), Quiet(events))
  }

  lemma GrowthStep(initial: u64, max: u64, init: seq<Event>, e: Event)
    requires HasClosedForm(initial, max, init) && !e.StableTick?
    ensures HasClosedForm(initial, max, init + [e])
  {
    var recent := SinceReset(init);
    assert (init + [e])[..|init|] == init;
    CountSnoc(recent, e, Crash);
    CountSnoc(recent, e, RestartFailed);
    GrowthDoubles(initial, max, Growths(recent));
  }

  lemma TickStep(initial: u64, max: u64, init: seq<Event>, e: Event)
    requires HasClosedForm(initial, max, init) && e.StableTick?
    ensures HasClosedForm(initial, max, init + [e])
  {
    var recent := SinceReset(init);
    assert (init + [e])[..|init|] == init;
    CountSnoc(recent, e, Crash);
    CountSnoc(recent, e, RestartFailed);
  }

  /**
   After any history the backoff is `initial`, doubled once per growth step since the last completed
   window and capped at `max`; saturation never shows, and the counter stays below the window.
   */
  lemma {:induction false} ClosedForm(initial: u64, max: u64, events: seq<Event>)
    ensures HasClosedForm(initial, max, events)
  {
    if events != [] {
      var init, last := events[..|events| - 1], events[|events| - 1];
      ClosedForm(initial, max, init);
      assert events == init + [last];
      if last.StableTick? {
        TickStep(initial, max, init, last);
      } else {
        GrowthStep(initial, max, init, last);
      }
    }
  }

  lemma AtLeastInitial(initial: nat, k: nat)
    ensures initial * Pow2(k) >= initial
  {
  }

  /** With ordered bounds the backoff never leaves them. */
  lemma BackoffInBounds(initial: u64, max: u64, events: seq<Event>)
    requires initial <= max
    ensures initial <= Run(initial, max, events).backoff <= max
  {
    ClosedForm(initial, max, events);
    AtLeastInitial(initial, Growths(SinceReset(events)));
  }

  /** The guard at the top of the tick is dead: no history reaches a full counter. */
  lemma EarlyReturnIsDead(initial: u64, max: u64, events: seq<Event>, elapsed: u64)
    ensures AfterTick(Run(initial, max, events), elapsed).1 <==> Quiet(events) + elapsed >= STABILIZE_WINDOW_MS
  {
    ClosedForm(initial, max, events);
  }
}
