/**
 The exit-monitor loop: polls the core, restarts it with backoff after a crash, and resets the
 backoff after a quiet spell. A run is driven by what the loop meets in each turn, and leaves a
 trace of what it did.
 */
module ExitMonitor {
  import opened Common
  import opened CrashLoop

  const POLL_INTERVAL_MS: u64 := 500

  datatype Poll = Failed | Crashed | Running

  /** What one turn of the loop meets. Cancellation, once seen, ends the run. */
  datatype Turn = Turn(cancelled: bool, cancelledDuringWait: bool, poll: Poll, restarts: bool, reported: bool)

  datatype Action =
    | Polled(crashed: bool)
    | Waited(ms: u64)          // backoff before a restart
    | Restarted(ok: bool)
    | Stable                   // window completed, backoff reset
    | Slept                    // poll interval

  datatype Observed = Observed(restartCount: u64, backoff: u64)

  datatype Monitor = Monitor(
    policy: Policy,
    observed: Observed,
    restartCount: u64,
    pendingRestart: bool,
    trace: seq<Action>,
    ended: bool)

  function Start(initial: u64, max: u64): Monitor {
    Monitor(Fresh(initial, max), Observed(0, 0), 0, false, [], false)
  }

  /** One turn with a restart pending. */
  function RestartTurn(m: Monitor, t: Turn): Monitor {
    var waited := m.trace + [Waited(m.policy.backoff)];
    if t.cancelledDuringWait then m.(trace := waited, pendingRestart := false, ended := true)
    else if t.restarts then
      var count := SaturatingAdd(m.restartCount, 1);
      m.(trace := waited + [Restarted(true)], restartCount := count,
         observed := Observed(count, m.policy.backoff), pendingRestart := !t.reported, ended := !t.reported)
    else m.(trace := waited + [Restarted(false)], policy := AfterFailedRestart(m.policy))
  }

  /** One turn with no restart pending. */
  function PollTurn(m: Monitor, t: Turn): Monitor {
    match t.poll
    case Failed => m.(ended := true)
    case Crashed =>
      var polled := m.(trace := m.trace + [Polled(true)]);
      if !t.reported then polled.(ended := true)
      else polled.(policy := AfterCrash(m.policy), pendingRestart := true)
    case Running =>
      var (policy, reset) := AfterTick(m.policy, POLL_INTERVAL_MS);
      var polled := m.(trace := m.trace + [Polled(false)], policy := policy);
      if !reset then polled.(trace := polled.trace + [Slept])
      else
        var stable := polled.(trace := polled.trace + [Stable], observed := Observed(m.restartCount, 0));
        if t.reported then stable.(trace := stable.trace + [Slept]) else stable.(ended := true)
  }

  function Step(m: Monitor, t: Turn): Monitor {
    if m.ended then m
    else if t.cancelled then m.(ended := true)
    else if m.pendingRestart then RestartTurn(m, t)
    else PollTurn(m, t)
  }

  function RunFrom(m: Monitor, turns: seq<Turn>): Monitor
    decreases |turns|
  {
    if turns == [] then m else RunFrom(Step(m, turns[0]), turns[1..])
  }

  // ----- The loop itself -----

  /** The asynchronous loop, with the policy object it mutates. */
  method ExitMonitorLoop(initial: u64, max: u64, turns: seq<Turn>)
    returns (trace: seq<Action>, restartCount: u64, observed: Observed)
    ensures var end := RunFrom(Start(initial, max), turns);
      trace == end.trace && restartCount == end.restartCount && observed == end.observed
  {
    var policy := new CrashLoopPolicy.WithBounds(initial, max);
    observed, restartCount, trace := Observed(0, 0), 0, [];
    var pendingRestart := false;
    var i := 0;
    ghost var m := Start(initial, max);
    while i < |turns| && !turns[i].cancelled
      invariant 0 <= i <= |turns|
      invariant m == Monitor(policy.View(), observed, restartCount, pendingRestart, trace, false)
      invariant RunFrom(Start(initial, max), turns) == RunFrom(m, turns[i..])
      invariant fresh(policy)
    {
      var turn := turns[i];
      assert turns[i..][0] == turn && turns[i..][1..] == turns[i + 1..];
      ghost var next := Step(m, turn);
      if next.ended {
        EndedStays(next, turns[i + 1..]);
      }
      i := i + 1;
      m := next;
      if pendingRestart {
        trace := trace + [Waited(policy.backoffMs)];
        if turn.cancelledDuringWait {
          return;
        }
        if turn.restarts {
          trace := trace + [Restarted(true)];
          restartCount := SaturatingAdd(restartCount, 1);
          observed := Observed(restartCount, policy.backoffMs);
          if !turn.reported {
            return;
          }
          pendingRestart := false;
        } else {
          trace := trace + [Restarted(false)];
          var _ := policy.OnRestartFailed();
        }
        continue;
      }
      match turn.poll {
        case Failed => return;
        case Crashed =>
          trace := trace + [Polled(true)];
          if !turn.reported {
            return;
          }
          var _ := policy.OnCrash();
          pendingRestart := true;
          continue;
        case Running =>
      }
      trace := trace + [Polled(false)];
      var reset := policy.OnStableTick(POLL_INTERVAL_MS);
      if reset {
        observed := Observed(restartCount, 0);
        trace := trace + [Stable];
        if !turn.reported {
          return;
        }
      }
      trace := trace + [Slept];
    }
    if i < |turns| {
      assert turns[i..][0].cancelled;
      EndedStays(m.(ended := true), turns[i..][1..]);
    }
  }

  lemma {:induction false} EndedStays(m: Monitor, turns: seq<Turn>)
    requires m.ended
    ensures RunFrom(m, turns) == m
    decreases |turns|
  {
    if turns != [] {
      EndedStays(m, turns[1..]);
    }
  }

  // ----- What a trace shows -----

  ghost function Last(trace: seq<Action>): Action
    requires trace != []
  {
    trace[|trace| - 1]
  }

  ghost function Restarts(trace: seq<Action>): nat {
    if trace == [] then 0
    else Restarts(trace[..|trace| - 1]) + if Last(trace) == Restarted(true) then 1 else 0
  }

  /** A crash has been seen and no restart has succeeded since. */
  ghost predicate Outage(trace: seq<Action>) {
    trace != [] && (Last(trace) == Polled(true) || (Last(trace) != Restarted(true) && Outage(trace[..|trace| - 1])))
  }

  ghost function EventOf(action: Action): seq<Event> {
    match action
    case Polled(true) => [Crash]
    case Polled(false) => [StableTick(POLL_INTERVAL_MS)]
    case Restarted(false) => [RestartFailed]
    case _ => []
  }

  /** The policy events of a trace. */
  ghost function EventsOf(trace: seq<Action>): seq<Event> {
    if trace == [] then [] else EventsOf(trace[..|trace| - 1]) + EventOf(Last(trace))
  }

  /** `n` clean polls, each followed by a poll interval. */
  ghost function CleanPolls(n: nat): (s: seq<Action>)
    ensures |s| == 2 * n
  {
    if n == 0 then [] else CleanPolls(n - 1) + [Polled(false), Slept]
  }

  /** Ten consecutive clean polls with nine poll intervals between them. */
  ghost predicate EndsInTenCleanPolls(trace: seq<Action>) {
    |trace| >= 19 && trace[|trace| - 19..] == CleanPolls(9) + [Polled(false)]
  }

  /** What is promised of each action, given the trace before it. */
  ghost predicate Justified(initial: u64, max: u64, before: seq<Action>, action: Action) {
    match action
    case Polled(_) => !Outage(before)
    case Waited(ms) => Outage(before) && ms == Run(initial, max, EventsOf(before)).backoff
    case Restarted(_) => before != [] && Last(before).Waited?
    case Stable => EndsInTenCleanPolls(before)
    case Slept => !Outage(before)
  }

  ghost predicate GoodTrace(initial: u64, max: u64, trace: seq<Action>) {
    forall k :: 0 <= k < |trace| ==> Justified(initial, max, trace[..k], trace[k])
  }

  lemma GoodSnoc(initial: u64, max: u64, trace: seq<Action>, action: Action)
    requires GoodTrace(initial, max, trace) && Justified(initial, max, trace, action)
    ensures GoodTrace(initial, max, trace + [action])
  {
    var longer := trace + [action];
    forall k | 0 <= k < |longer|
      ensures Justified(initial, max, longer[..k], longer[k])
    {
      assert longer[..k] == trace[..k];
      assert k == |trace| ==> trace[..k] == trace;
    }
  }

  lemma TraceSnoc(trace: seq<Action>, a: Action)
    ensures Restarts(trace + [a]) == Restarts(trace) + if a == Restarted(true) then 1 else 0
    ensures Outage(trace + [a]) <==> a == Polled(true) || (a != Restarted(true) && Outage(trace))
    ensures EventsOf(trace + [a]) == EventsOf(trace) + EventOf(a)
  {
    assert (trace + [a])[..|trace|] == trace;
  }

  lemma RunSnoc(initial: u64, max: u64, events: seq<Event>, e: Event)
    ensures Run(initial, max, events + [e]) == Apply(Run(initial, max, events), e)
  {
    assert (events + [e])[..|events|] == events;
  }

  /** What the loop variables say about the trace so far. */
  ghost predicate Facts(initial: u64, max: u64, trace: seq<Action>, policy: Policy, count: u64, outage: bool) {
    && GoodTrace(initial, max, trace)
    && policy == Run(initial, max, EventsOf(trace))
    && count == Min(Restarts(trace), U64_MAX)
    && outage == Outage(trace)
  }

  function PolicyAfter(policy: Policy, a: Action): Policy {
    match a
    case Polled(true) => AfterCrash(policy)
    case Polled(false) => AfterTick(policy, POLL_INTERVAL_MS).0
    case Restarted(false) => AfterFailedRestart(policy)
    case _ => policy
  }

  lemma Extend(initial: u64, max: u64, trace: seq<Action>, policy: Policy, count: u64, outage: bool, a: Action)
    requires Facts(initial, max, trace, policy, count, outage) && Justified(initial, max, trace, a)
    ensures Facts(initial, max, trace + [a], PolicyAfter(policy, a),
                  if a == Restarted(true) then SaturatingAdd(count, 1) else count,
                  a == Polled(true) || (a != Restarted(true) && outage))
  {
    GoodSnoc(initial, max, trace, a);
    TraceSnoc(trace, a);
    var events := EventsOf(trace);
    if EventOf(a) == [] {
      assert events + [] == events;
    } else {
      RunSnoc(initial, max, events, EventOf(a)[0]);
    }
  }

  // ----- The loop invariant -----

  /**
   Where the current clean spell began: at the start, after a reset, or after a successful restart,
   which is where every spell with a raised backoff begins.
   */
  ghost predicate SpellBegan(m: Monitor, n: nat) {
    && n < 10 && m.policy.stable == 500 * n && 2 * n <= |m.trace|
    && var start := |m.trace| - 2 * n;
       && m.trace[start..] == CleanPolls(n)
       && (m.policy.backoff == m.policy.initial || (start > 0 && m.trace[start - 1] == Restarted(true)))
  }

  ghost predicate Inv(initial: u64, max: u64, m: Monitor) {
    && GoodTrace(initial, max, m.trace)
    && m.restartCount == Min(Restarts(m.trace), U64_MAX)
    && (!m.ended ==>
        && Facts(initial, max, m.trace, m.policy, m.restartCount, m.pendingRestart)
        && (if m.pendingRestart then m.policy.stable == 0 else exists n: nat :: SpellBegan(m, n)))
  }

  /** The reset of a raised backoff: exactly ten clean polls after a successful restart. */
  ghost predicate ResetAfterRestart(trace: seq<Action>) {
    |trace| >= 20 && trace[|trace| - 20..] == [Restarted(true)] + CleanPolls(9) + [Polled(false)]
  }

  lemma RestartKeepsInv(initial: u64, max: u64, m: Monitor, t: Turn)
    requires Inv(initial, max, m) && !m.ended && m.pendingRestart
    ensures Inv(initial, max, RestartTurn(m, t))
  {
    var wait := Waited(m.policy.backoff);
    Extend(initial, max, m.trace, m.policy, m.restartCount, true, wait);
    if !t.cancelledDuringWait {
      RestartOutcome(initial, max, m, m.trace + [wait], t.restarts);
      if t.restarts && t.reported {
        assert SpellBegan(RestartTurn(m, t), 0);
      }
    }
  }

  lemma RestartOutcome(initial: u64, max: u64, m: Monitor, waited: seq<Action>, ok: bool)
    requires waited != [] && Last(waited).Waited? && Facts(initial, max, waited, m.policy, m.restartCount, true)
    ensures Facts(initial, max, waited + [Restarted(ok)], if ok then m.policy else AfterFailedRestart(m.policy),
                  if ok then SaturatingAdd(m.restartCount, 1) else m.restartCount, !ok)
  {
    Extend(initial, max, waited, m.policy, m.restartCount, true, Restarted(ok));
  }

  lemma CrashKeepsInv(initial: u64, max: u64, m: Monitor, t: Turn)
    requires Inv(initial, max, m) && !m.ended && !m.pendingRestart && t.poll == Crashed
    ensures Inv(initial, max, PollTurn(m, t))
  {
    Extend(initial, max, m.trace, m.policy, m.restartCount, false, Polled(true));
  }

  lemma SpellGrows(m: Monitor, n: nat)
    requires SpellBegan(m, n) && n < 9
    ensures var policy := m.policy.(stable := m.policy.stable + 500);
      SpellBegan(m.(trace := m.trace + [Polled(false)] + [Slept], policy := policy), n + 1)
  {
    var start := |m.trace| - 2 * n;
    var longer := m.trace + [Polled(false)] + [Slept];
    assert longer[start..] == m.trace[start..] + [Polled(false), Slept];
    assert start > 0 ==> longer[start - 1] == m.trace[start - 1];
  }

  lemma SpellCompletes(m: Monitor)
    requires SpellBegan(m, 9)
    ensures EndsInTenCleanPolls(m.trace + [Polled(false)])
    ensures m.policy.backoff != m.policy.initial ==> ResetAfterRestart(m.trace + [Polled(false)])
  {
    var start, polled := |m.trace| - 18, m.trace + [Polled(false)];
    assert polled[|polled| - 19..] == m.trace[start..] + [Polled(false)];
    if m.policy.backoff != m.policy.initial {
      assert polled[|polled| - 20..] == [m.trace[start - 1]] + m.trace[start..] + [Polled(false)];
    }
  }

  lemma EarlyTick(p: Policy)
    requires p.stable + 500 < STABILIZE_WINDOW_MS
    ensures AfterTick(p, POLL_INTERVAL_MS) == (p.(stable := p.stable + 500), false)
    ensures PolicyAfter(p, Polled(false)) == p.(stable := p.stable + 500)
  {
  }

  lemma EarlyTickFacts(initial: u64, max: u64, trace: seq<Action>, policy: Policy, count: u64)
    requires Facts(initial, max, trace, policy, count, false) && policy.stable + 500 < STABILIZE_WINDOW_MS
    ensures Facts(initial, max, trace + [Polled(false)] + [Slept], policy.(stable := policy.stable + 500), count, false)
  {
    EarlyTick(policy);
    Extend(initial, max, trace, policy, count, false, Polled(false));
    Extend(initial, max, trace + [Polled(false)], policy.(stable := policy.stable + 500), count, false, Slept);
  }

  lemma EarlyTickKeepsInv(initial: u64, max: u64, m: Monitor, t: Turn, n: nat)
    requires Inv(initial, max, m) && !m.ended && !m.pendingRestart && t.poll == Running && SpellBegan(m, n) && n < 9
    ensures Inv(initial, max, PollTurn(m, t))
  {
    EarlyTick(m.policy);
    EarlyTickFacts(initial, max, m.trace, m.policy, m.restartCount);
    SpellGrows(m, n);
    assert SpellBegan(PollTurn(m, t), n + 1);
  }

  lemma TenthTickFacts(initial: u64, max: u64, m: Monitor)
    requires Facts(initial, max, m.trace, m.policy, m.restartCount, false) && SpellBegan(m, 9)
    ensures var policy := Fresh(m.policy.initial, m.policy.max);
      && AfterTick(m.policy, POLL_INTERVAL_MS) == (policy, true)
      && Facts(initial, max, m.trace + [Polled(false)] + [Stable], policy, m.restartCount, false)
      && Facts(initial, max, m.trace + [Polled(false)] + [Stable] + [Slept], policy, m.restartCount, false)
  {
    var policy := Fresh(m.policy.initial, m.policy.max);
    var polled := m.trace + [Polled(false)];
    SpellCompletes(m);
    Extend(initial, max, m.trace, m.policy, m.restartCount, false, Polled(false));
    Extend(initial, max, polled, policy, m.restartCount, false, Stable);
    Extend(initial, max, polled + [Stable], policy, m.restartCount, false, Slept);
  }

  lemma FreshSpell(m: Monitor)
    requires m.policy.stable == 0 && m.policy.backoff == m.policy.initial
    ensures SpellBegan(m, 0)
  {
  }

  lemma TenthTickKeepsInv(initial: u64, max: u64, m: Monitor, t: Turn)
    requires Inv(initial, max, m) && !m.ended && !m.pendingRestart && t.poll == Running && SpellBegan(m, 9)
    ensures Inv(initial, max, PollTurn(m, t))
  {
    TenthTickFacts(initial, max, m);
    FreshSpell(PollTurn(m, t));
  }

  lemma StepKeepsInv(initial: u64, max: u64, m: Monitor, t: Turn)
    requires Inv(initial, max, m)
    ensures Inv(initial, max, Step(m, t))
  {
    if !m.ended && !t.cancelled {
      if m.pendingRestart {
        RestartKeepsInv(initial, max, m, t);
      } else if t.poll == Crashed {
        CrashKeepsInv(initial, max, m, t);
      } else if t.poll == Running {
        var n: nat :| SpellBegan(m, n);
        if n < 9 {
          EarlyTickKeepsInv(initial, max, m, t, n);
        } else {
          TenthTickKeepsInv(initial, max, m, t);
        }
      }
    }
  }

  lemma {:induction false} RunKeepsInv(initial: u64, max: u64, m: Monitor, turns: seq<Turn>)
    requires Inv(initial, max, m)
    ensures Inv(initial, max, RunFrom(m, turns))
    decreases |turns|
  {
    if turns != [] {
      StepKeepsInv(initial, max, m, turns[0]);
      RunKeepsInv(initial, max, Step(m, turns[0]), turns[1..]);
    }
  }

  // ----- Main results -----

  /** Every run leaves a good trace and counts its successful restarts. */
  lemma EveryRunIsGood(initial: u64, max: u64, turns: seq<Turn>)
    ensures var end := RunFrom(Start(initial, max), turns);
      GoodTrace(initial, max, end.trace) && end.restartCount == Min(Restarts(end.trace), U64_MAX)
  {
    StartIsGood(initial, max);
    RunKeepsInv(initial, max, Start(initial, max), turns);
  }

  // ----- What the monitor reports -----

  /** The counters an observer should see: as of the last restart with its wait, or of the last reset. */
  ghost function Shown(trace: seq<Action>): Observed {
    if trace == [] then Observed(0, 0)
    else
      var before := trace[..|trace| - 1];
      match Last(trace)
      case Restarted(true) =>
        Observed(Min(Restarts(trace), U64_MAX), if before != [] && Last(before).Waited? then Last(before).ms else 0)
      case Stable => Observed(Min(Restarts(before), U64_MAX), 0)
      case _ => Shown(before)
  }

  lemma ShownSnoc(trace: seq<Action>, a: Action)
    ensures a != Restarted(true) && a != Stable ==> Shown(trace + [a]) == Shown(trace)
    ensures Shown(trace + [Stable]) == Observed(Min(Restarts(trace), U64_MAX), 0)
    ensures a.Waited? ==> Shown(trace + [a] + [Restarted(true)]) == Observed(Min(Restarts(trace) + 1, U64_MAX), a.ms)
  {
    assert (trace + [a])[..|trace|] == trace && (trace + [Stable])[..|trace|] == trace;
    TraceSnoc(trace, a);
    TraceSnoc(trace + [a], Restarted(true));
    assert (trace + [a] + [Restarted(true)])[..|trace| + 1] == trace + [a];
  }

  ghost predicate Tells(trace: seq<Action>, observed: Observed, count: u64) {
    observed == Shown(trace) && count == Min(Restarts(trace), U64_MAX)
  }

  lemma TellsOn(trace: seq<Action>, observed: Observed, count: u64, a: Action)
    requires Tells(trace, observed, count) && a != Restarted(true) && a != Stable
    ensures Tells(trace + [a], observed, count)
  {
    ShownSnoc(trace, a);
    TraceSnoc(trace, a);
  }

  lemma TellsReset(trace: seq<Action>, observed: Observed, count: u64)
    requires Tells(trace, observed, count)
    ensures Tells(trace + [Stable], Observed(count, 0), count)
  {
    ShownSnoc(trace, Stable);
    TraceSnoc(trace, Stable);
  }

  lemma TellsRestart(trace: seq<Action>, observed: Observed, count: u64, ms: u64)
    requires Tells(trace, observed, count)
    ensures var next := SaturatingAdd(count, 1);
      Tells(trace + [Waited(ms)] + [Restarted(true)], Observed(next, ms), next)
  {
    ShownSnoc(trace, Waited(ms));
    TraceSnoc(trace, Waited(ms));
    TraceSnoc(trace + [Waited(ms)], Restarted(true));
  }

  ghost predicate ShowsTrace(m: Monitor) {
    Tells(m.trace, m.observed, m.restartCount)
  }

  lemma RestartShows(m: Monitor, t: Turn)
    requires ShowsTrace(m)
    ensures ShowsTrace(RestartTurn(m, t))
  {
    var waited := Waited(m.policy.backoff);
    TellsOn(m.trace, m.observed, m.restartCount, waited);
    TellsOn(m.trace + [waited], m.observed, m.restartCount, Restarted(false));
    TellsRestart(m.trace, m.observed, m.restartCount, m.policy.backoff);
  }

  lemma RunningShows(m: Monitor, t: Turn)
    requires ShowsTrace(m) && t.poll == Running
    ensures ShowsTrace(PollTurn(m, t))
  {
    var polled := m.trace + [Polled(false)];
    TellsOn(m.trace, m.observed, m.restartCount, Polled(false));
    if !AfterTick(m.policy, POLL_INTERVAL_MS).1 {
      TellsOn(polled, m.observed, m.restartCount, Slept);
    } else {
      TellsReset(polled, m.observed, m.restartCount);
      if t.reported {
        TellsOn(polled + [Stable], Observed(m.restartCount, 0), m.restartCount, Slept);
      }
    }
  }

  lemma PollShows(m: Monitor, t: Turn)
    requires ShowsTrace(m)
    ensures ShowsTrace(PollTurn(m, t))
  {
    match t.poll
    case Failed =>
    case Crashed => TellsOn(m.trace, m.observed, m.restartCount, Polled(true));
    case Running => RunningShows(m, t);
  }

  lemma {:induction false} RunShows(m: Monitor, turns: seq<Turn>)
    requires ShowsTrace(m)
    ensures ShowsTrace(RunFrom(m, turns))
    decreases |turns|
  {
    if turns != [] {
      RestartShows(m, turns[0]);
      PollShows(m, turns[0]);
      RunShows(Step(m, turns[0]), turns[1..]);
    }
  }

  /** The observed counters are the restarts so far and the wait behind the last one, or zero after a reset. */
  lemma ObservedTellsTrace(initial: u64, max: u64, turns: seq<Turn>)
    ensures var end := RunFrom(Start(initial, max), turns); end.observed == Shown(end.trace)
  {
    RunShows(Start(initial, max), turns);
  }

  /** With ordered bounds every wait of every run lies within them. */
  lemma WaitsStayInBounds(initial: u64, max: u64, turns: seq<Turn>, k: nat)
    requires initial <= max
    requires var trace := RunFrom(Start(initial, max), turns).trace; k < |trace| && trace[k].Waited?
    ensures initial <= RunFrom(Start(initial, max), turns).trace[k].ms <= max
  {
    var trace := RunFrom(Start(initial, max), turns).trace;
    EveryRunIsGood(initial, max, turns);
    assert Justified(initial, max, trace[..k], trace[k]);
    BackoffInBounds(initial, max, EventsOf(trace[..k]));
  }

  /** No poll lies between a crash and the first successful restart after it. */
  lemma NoPollDuringOutage(initial: u64, max: u64, turns: seq<Turn>, i: nat, j: nat)
    requires var trace := RunFrom(Start(initial, max), turns).trace;
      i < j < |trace| && trace[i] == Polled(true) && trace[j].Polled?
    ensures var trace := RunFrom(Start(initial, max), turns).trace;
      exists k :: i < k < j && trace[k] == Restarted(true)
  {
    var trace := RunFrom(Start(initial, max), turns).trace;
    EveryRunIsGood(initial, max, turns);
    assert Justified(initial, max, trace[..j], trace[j]);
    OutageLasts(trace, i, j);
  }

  lemma {:induction false} OutageLasts(trace: seq<Action>, i: nat, j: nat)
    requires i < j <= |trace| && trace[i] == Polled(true)
    ensures Outage(trace[..j]) || exists k :: i < k < j && trace[k] == Restarted(true)
    decreases j
  {
    assert trace[..j][..j - 1] == trace[..j - 1] && Last(trace[..j]) == trace[j - 1];
    if i < j - 1 {
      OutageLasts(trace, i, j - 1);
    }
  }

  /** Milliseconds slept between polls. */
  ghost function SleptMs(trace: seq<Action>): nat {
    if trace == [] then 0 else SleptMs(trace[..|trace| - 1]) + if Last(trace) == Slept then POLL_INTERVAL_MS else 0
  }

  lemma SleptSnoc(trace: seq<Action>, a: Action)
    ensures SleptMs(trace + [a]) == SleptMs(trace) + if a == Slept then POLL_INTERVAL_MS else 0
  {
    assert (trace + [a])[..|trace|] == trace;
  }

  lemma {:induction false} CleanPollsSleep(prefix: seq<Action>, n: nat)
    ensures SleptMs(prefix + CleanPolls(n)) == SleptMs(prefix) + 500 * n
  {
    if n == 0 {
      assert prefix + CleanPolls(0) == prefix;
    } else {
      CleanPollsSleep(prefix, n - 1);
      CleanPollsSnoc(prefix, n);
      OnePollSleeps(prefix + CleanPolls(n - 1));
    }
  }

  lemma CleanPollsSnoc(prefix: seq<Action>, n: nat)
    requires n > 0
    ensures prefix + CleanPolls(n) == prefix + CleanPolls(n - 1) + [Polled(false)] + [Slept]
  {
  }

  lemma OnePollSleeps(before: seq<Action>)
    ensures SleptMs(before + [Polled(false)] + [Slept]) == SleptMs(before) + 500
  {
    SleptSnoc(before, Polled(false));
    SleptSnoc(before + [Polled(false)], Slept);
  }

  lemma StartIsGood(initial: u64, max: u64)
    ensures Inv(initial, max, Start(initial, max))
  {
    assert SpellBegan(Start(initial, max), 0);
  }

  lemma NinePollsSleep(m: Monitor)
    requires SpellBegan(m, 9)
    ensures SleptMs(m.trace) == SleptMs(m.trace[..|m.trace| - 18]) + 4500
  {
    var start := |m.trace| - 18;
    assert m.trace == m.trace[..start] + m.trace[start..];
    CleanPollsSleep(m.trace[..start], 9);
  }

  lemma OnlyTheTenthTickResets(m: Monitor, n: nat)
    requires SpellBegan(m, n)
    ensures AfterTick(m.policy, POLL_INTERVAL_MS).1 <==> n == 9
    ensures n != 9 ==> AfterTick(m.policy, POLL_INTERVAL_MS).0.backoff == m.policy.backoff
  {
  }

  lemma ResetIsEarly(initial: u64, max: u64, m: Monitor, t: Turn)
    requires Inv(initial, max, m) && !m.ended && !t.cancelled && !m.pendingRestart && t.poll == Running
    requires m.policy.backoff != m.policy.initial && Step(m, t).policy.backoff != m.policy.backoff
    ensures |m.trace| >= 18 && ResetAfterRestart(m.trace + [Polled(false)])
    ensures SleptMs(m.trace) == SleptMs(m.trace[..|m.trace| - 18]) + 4500
  {
    var n: nat :| SpellBegan(m, n);
    OnlyTheTenthTickResets(m, n);
    SpellCompletes(m);
    NinePollsSleep(m);
  }

  /** A raised backoff is at most the ceiling, and at the ceiling or above the initial one. */
  lemma RaisedShape(initial: u64, max: u64, events: seq<Event>)
    ensures var p := Run(initial, max, events);
      && p.initial == initial && p.max == max
      && (p.backoff != initial ==> p.backoff <= max && (p.backoff >= initial || p.backoff == max))
  {
    ClosedForm(initial, max, events);
    AtLeastInitial(initial, Growths(SinceReset(events)));
  }

  lemma GrownStaysRaised(p: Policy)
    requires p.backoff != p.initial && p.backoff <= p.max && (p.backoff >= p.initial || p.backoff == p.max)
    ensures Grown(p).backoff >= p.backoff && Grown(p).backoff != p.initial
  {
  }

  /** The turn lowers the backoff, or brings it back to where it started. */
  ghost predicate Falls(m: Monitor, t: Turn) {
    var after := Step(m, t).policy.backoff;
    m.policy.backoff != m.policy.initial && (after < m.policy.backoff || after == m.policy.initial)
  }

  /** Neither a crash nor a restart, failed or not, nor the end of the run lowers a raised backoff. */
  lemma OnlyCleanPollsLower(initial: u64, max: u64, m: Monitor, t: Turn)
    requires Inv(initial, max, m) && Falls(m, t)
    ensures !m.ended && !t.cancelled && !m.pendingRestart && t.poll == Running
  {
    if !m.ended {
      RaisedShape(initial, max, EventsOf(m.trace));
      GrownStaysRaised(m.policy);
    }
  }

  /**
   A turn that lowers a raised backoff comes exactly ten clean polls after a successful restart,
   and only 4500 ms of poll intervals have passed since that restart: the first tick counts an
   interval that has not been waited yet, so the 5000 ms window closes one interval early.
   */
  lemma RaisedBackoffResetsEarly(initial: u64, max: u64, turns: seq<Turn>, t: Turn)
    requires Falls(RunFrom(Start(initial, max), turns), t)
    ensures var m := RunFrom(Start(initial, max), turns);
      && |m.trace| >= 18 && ResetAfterRestart(m.trace + [Polled(false)])
      && SleptMs(m.trace) == SleptMs(m.trace[..|m.trace| - 18]) + 4500
  {
    StartIsGood(initial, max);
    RunKeepsInv(initial, max, Start(initial, max), turns);
    FallIsEarly(initial, max, RunFrom(Start(initial, max), turns), t);
  }

  lemma FallIsEarly(initial: u64, max: u64, m: Monitor, t: Turn)
    requires Inv(initial, max, m) && Falls(m, t)
    ensures |m.trace| >= 18 && ResetAfterRestart(m.trace + [Polled(false)])
    ensures SleptMs(m.trace) == SleptMs(m.trace[..|m.trace| - 18]) + 4500
  {
    OnlyCleanPollsLower(initial, max, m, t);
    ResetIsEarly(initial, max, m, t);
  }

  // ----- Such a reset does happen -----

  const QUIET_TURN := Turn(false, false, Running, false, true)

  ghost function QuietTurns(k: nat): seq<Turn> {
    if k == 0 then [] else [QUIET_TURN] + QuietTurns(k - 1)
  }

  lemma RunOne(m: Monitor, t: Turn, rest: seq<Turn>)
    ensures RunFrom(m, [t] + rest) == RunFrom(Step(m, t), rest)
  {
    assert ([t] + rest)[1..] == rest;
  }

  lemma RunThree(m: Monitor, a: Turn, b: Turn, c: Turn, rest: seq<Turn>)
    ensures RunFrom(m, [a, b, c] + rest) == RunFrom(Step(Step(Step(m, a), b), c), rest)
  {
    RunOne(m, a, [b, c] + rest);
    RunOne(Step(m, a), b, [c] + rest);
    RunOne(Step(Step(m, a), b), c, rest);
    assert [a, b, c] + rest == [a] + ([b, c] + rest) && [b, c] + rest == [b] + ([c] + rest);
  }

  /** Running, `n` clean polls into a spell, with the given backoff. */
  ghost predicate Calm(m: Monitor, n: nat, backoff: nat, initial: nat) {
    SpellBegan(m, n) && !m.ended && !m.pendingRestart && m.policy.backoff == backoff && m.policy.initial == initial
  }

  lemma CalmStep(m: Monitor, n: nat, backoff: nat, initial: nat)
    requires Calm(m, n, backoff, initial) && n < 9
    ensures Calm(Step(m, QUIET_TURN), n + 1, backoff, initial)
  {
    SpellGrows(m, n);
    assert AfterTick(m.policy, POLL_INTERVAL_MS) == (m.policy.(stable := m.policy.stable + 500), false);
  }

  lemma QuietRun(m: Monitor, k: nat)
    requires k > 0
    ensures RunFrom(m, QuietTurns(k)) == RunFrom(Step(m, QUIET_TURN), QuietTurns(k - 1))
  {
    RunOne(m, QUIET_TURN, QuietTurns(k - 1));
  }

  lemma {:induction false} QuietTurnsLengthenSpell(m: Monitor, n: nat, k: nat, backoff: nat, initial: nat)
    requires Calm(m, n, backoff, initial) && n + k <= 9
    ensures Calm(RunFrom(m, QuietTurns(k)), n + k, backoff, initial)
    decreases k
  {
    if k == 0 {
      assert RunFrom(m, QuietTurns(k)) == m;
    } else {
      var next := Step(m, QUIET_TURN);
      CalmStep(m, n, backoff, initial);
      QuietRun(m, k);
      QuietTurnsLengthenSpell(next, n + 1, k - 1, backoff, initial);
    }
  }

  lemma AfterOutage() returns (a: Turn, b: Turn, c: Turn)
    ensures var m := Step(Step(Step(Start(1000, 30000), a), b), c);
      && SpellBegan(m, 0) && !m.ended && !m.pendingRestart
      && m.policy.backoff == 2000 && m.policy.initial == 1000
  {
    a, b := Turn(false, false, Crashed, false, true), QUIET_TURN;
    c := QUIET_TURN.(restarts := true);
    var m1 := Step(Start(1000, 30000), a);
    assert m1.policy == Policy(1000, 30000, 1000, 1, 0) && m1.pendingRestart;
    var m2 := Step(m1, b);
    assert m2.policy == Policy(1000, 30000, 2000, 1, 0) && m2.pendingRestart;
    var m3 := Step(m2, c);
    assert m3.trace[|m3.trace| - 1] == Restarted(true);
  }

  lemma TenthQuietTickResets(m: Monitor)
    requires SpellBegan(m, 9) && !m.ended && !m.pendingRestart
    ensures Step(m, QUIET_TURN).policy.backoff == m.policy.initial
    ensures |m.trace| >= 18 && SleptMs(m.trace) == SleptMs(m.trace[..|m.trace| - 18]) + 4500
  {
    NinePollsSleep(m);
    OnlyTheTenthTickResets(m, 9);
  }

  ghost predicate ResetsEarly(m: Monitor, backoff: nat, initial: nat) {
    && !m.ended && !m.pendingRestart
    && m.policy.backoff == backoff && Step(m, QUIET_TURN).policy.backoff == initial
    && |m.trace| >= 18 && SleptMs(m.trace) == SleptMs(m.trace[..|m.trace| - 18]) + 4500
  }

  lemma QuietAfter(begin: Monitor, k: nat)
    requires Calm(begin, 0, begin.policy.backoff, begin.policy.initial) && k == 9
    ensures ResetsEarly(RunFrom(begin, QuietTurns(k)), begin.policy.backoff, begin.policy.initial)
  {
    QuietTurnsLengthenSpell(begin, 0, k, begin.policy.backoff, begin.policy.initial);
    TenthQuietTickResets(RunFrom(begin, QuietTurns(k)));
  }

  /** A crash, a failed and a successful restart, then quiet: nine intervals later the backoff is reset. */
  lemma EarlyResetHappens() returns (turns: seq<Turn>)
    ensures ResetsEarly(RunFrom(Start(1000, 30000), turns), 2000, 1000)
  {
    var a, b, c := AfterOutage();
    var k :| k == 9;
    turns := [a, b, c] + QuietTurns(k);
    RunThree(Start(1000, 30000), a, b, c, QuietTurns(k));
    QuietAfter(Step(Step(Step(Start(1000, 30000), a), b), c), k);
  }
}
