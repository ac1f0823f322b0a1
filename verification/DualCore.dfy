/**
 The owner of two managed kernels of which one is active: start, stop, restart and switch with
 rollback. Operations do not overlap. What the operating system does to a launch or a stop is an
 input of each operation.
 */
module DualCore {

  datatype CoreKind = Mihomo | SingBox | Xray

  /** A launched kernel becomes ready, is never spawned, or is not ready and then reaped or left alive. */
  datatype Launch = Ready | NotSpawned | Reaped | LeakedLaunch

  /** A stop succeeds, or reports an error with the process gone or still alive. */
  datatype Halt = Stopped | ErrorButGone | LeakedHalt

  /** The process tree a backend owns, whether it is alive, and live processes it no longer owns. */
  datatype Kernel = Kernel(owned: bool, alive: bool, orphans: nat)

  function LiveOf(k: Kernel): nat {
    (if k.owned && k.alive then 1 else 0) + k.orphans
  }

  // ----- One backend -----

  function Launched(k: Kernel, launch: Launch): (Kernel, bool) {
    match launch
    case Ready => (Kernel(true, true, k.orphans), true)
    case NotSpawned => (k, false)
    case Reaped => (k, false)
    case LeakedLaunch => (k.(orphans := k.orphans + 1), false)
  }

  /** The tree is given up before it is killed, so a failed stop leaves nothing owned. */
  function Halted(k: Kernel, halt: Halt): (Kernel, bool) {
    var survivor := if halt == LeakedHalt && k.alive then 1 else 0;
    (Kernel(false, false, k.orphans + survivor), halt == Stopped)
  }

  function StartTimed(k: Kernel, launch: Launch): (Kernel, bool) {
    if k.owned then (k, true) else Launched(k, launch)
  }

  function StopTimed(k: Kernel, halt: Halt): (Kernel, bool) {
    if !k.owned then (k, true) else Halted(k, halt)
  }

  /** Mihomo checks its binary before stopping; sing-box only when launching. */
  function RestartTimed(k: Kernel, checksFirst: bool, executable: bool, halt: Halt, launch: Launch): (Kernel, bool) {
    if checksFirst && !executable then (k, false)
    else
      var (stopped, ok) := if k.owned then Halted(k, halt) else (k, true);
      if !ok then (stopped, false) else Launched(stopped, launch)
  }

  // ----- Both backends -----

  datatype Dual = Dual(active: CoreKind, mihomo: Kernel, singBox: Kernel) {
    /** Xray is served by the Mihomo backend. */
    function BackendFor(kind: CoreKind): Kernel {
      if kind == SingBox then singBox else mihomo
    }

    function With(kind: CoreKind, k: Kernel): Dual {
      if kind == SingBox then this.(singBox := k) else this.(mihomo := k)
    }

    function Live(): nat {
      LiveOf(mihomo) + LiveOf(singBox)
    }

    function Orphans(): nat {
      mihomo.orphans + singBox.orphans
    }
  }

  datatype Op =
    | Start(launch: Launch)
    | Stop(halt: Halt)
    | Restart(executable: bool, halt: Halt, launch: Launch)
    | SwitchTo(target: CoreKind, executable: bool, halt: Halt, launch: Launch, relaunch: Launch)
    | ProcessExits             // the active kernel's process dies by itself
    | OrphanExits(kind: CoreKind)
    | PollExit                 // the crash monitor reaps a dead tree

  function Switched(d: Dual, op: Op): (Dual, bool)
    requires op.SwitchTo?
  {
    if d.active == op.target then
      var (k, ok) := RestartTimed(d.BackendFor(op.target), op.target != SingBox, op.executable, op.halt, op.launch);
      (d.With(op.target, k), ok)
    else
      var previous := d.active;
      var (stopped, stopOk) := StopTimed(d.BackendFor(previous), op.halt);
      var d1 := d.With(previous, stopped);
      if !stopOk then (d1, false)
      else
        var (started, startOk) := StartTimed(d1.BackendFor(op.target), op.launch);
        var d2 := d1.With(op.target, started).(active := op.target);
        if startOk then (d2, true)
        else
          var (restored, _) := StartTimed(d2.BackendFor(previous), op.relaunch);
          (d2.With(previous, restored).(active := previous), false)
  }

  function Step(d: Dual, op: Op): (Dual, bool) {
    var k := d.BackendFor(d.active);
    match op
    case Start(launch) => var (k', ok) := StartTimed(k, launch); (d.With(d.active, k'), ok)
    case Stop(halt) => var (k', ok) := StopTimed(k, halt); (d.With(d.active, k'), ok)
    case Restart(executable, halt, launch) =>
      var (k', ok) := RestartTimed(k, d.active != SingBox, executable, halt, launch);
      (d.With(d.active, k'), ok)
    case SwitchTo(_, _, _, _, _) => Switched(d, op)
    case ProcessExits => (d.With(d.active, k.(alive := false)), true)
    case OrphanExits(kind) =>
      var o := d.BackendFor(kind);
      (d.With(kind, if o.orphans > 0 then o.(orphans := o.orphans - 1) else o), true)
    case PollExit => (d.With(d.active, if k.owned && !k.alive then k.(owned := false) else k), true)
  }

  function RunOps(d: Dual, ops: seq<Op>): Dual
    decreases |ops|
  {
    if ops == [] then d else RunOps(Step(d, ops[0]).0, ops[1..])
  }

  /** The states a switch passes through: stopped, cell flipped, started, and on failure flipped back and restored. */
  function SwitchPhases(d: Dual, op: Op): seq<Dual>
    requires op.SwitchTo? && op.target != d.active
  {
    var previous := d.active;
    var (stopped, stopOk) := StopTimed(d.BackendFor(previous), op.halt);
    var halted := d.With(previous, stopped);
    if !stopOk then [d, halted]
    else
      var flipped := halted.(active := op.target);
      var (started, startOk) := StartTimed(flipped.BackendFor(op.target), op.launch);
      var launched := flipped.With(op.target, started);
      [d, halted, flipped, launched] + (if startOk then [] else RollbackPhases(launched, previous, op.relaunch))
  }

  /** The states a restart passes through: first the check of the binary, and a launch only behind a clean stop. */
  function RestartPhases(d: Dual, kind: CoreKind, executable: bool, halt: Halt, launch: Launch): seq<Dual> {
    var k := d.BackendFor(kind);
    if kind != SingBox && !executable then [d]
    else if !k.owned then [d, d.With(kind, Launched(k, launch).0)]
    else
      var (stopped, ok) := Halted(k, halt);
      [d, d.With(kind, stopped)] + (if ok then [d.With(kind, Launched(stopped, launch).0)] else [])
  }

  function RollbackPhases(d: Dual, previous: CoreKind, relaunch: Launch): seq<Dual> {
    var back := d.(active := previous);
    [back, back.With(previous, StartTimed(back.BackendFor(previous), relaunch).0)]
  }

  /** The states an operation passes through, its first and last included. */
  function Moments(d: Dual, op: Op): seq<Dual> {
    match op
    case SwitchTo(target, executable, halt, launch, _) =>
      if target != d.active then SwitchPhases(d, op) else RestartPhases(d, target, executable, halt, launch)
    case Restart(executable, halt, launch) => RestartPhases(d, d.active, executable, halt, launch)
    case _ => [d, Step(d, op).0]
  }

  class DualCoreLifecycle {
    var active: CoreKind
    var mihomo: Kernel
    var singBox: Kernel

    ghost function View(): Dual
      reads this
    {
      Dual(active, mihomo, singBox)
    }

    constructor (kind: CoreKind, mihomo: Kernel, singBox: Kernel)
      ensures View() == Dual(kind, mihomo, singBox)
    {
      this.active, this.mihomo, this.singBox := kind, mihomo, singBox;
    }

    method StartBackend(kind: CoreKind, launch: Launch) returns (ok: bool)
      modifies `mihomo, `singBox
      ensures var r := StartTimed(old(View()).BackendFor(kind), launch);
        (View(), ok) == (old(View()).With(kind, r.0), r.1)
    {
      if kind == SingBox {
        if singBox.owned {
          return true;
        }
        var (k, launched) := Launched(singBox, launch);
        singBox, ok := k, launched;
      } else {
        if mihomo.owned {
          return true;
        }
        var (k, launched) := Launched(mihomo, launch);
        mihomo, ok := k, launched;
      }
    }

    method StopBackend(kind: CoreKind, halt: Halt) returns (ok: bool)
      modifies `mihomo, `singBox
      ensures var r := StopTimed(old(View()).BackendFor(kind), halt);
        (View(), ok) == (old(View()).With(kind, r.0), r.1)
    {
      if kind == SingBox {
        if !singBox.owned {
          return true;
        }
        var (k, halted) := Halted(singBox, halt);
        singBox, ok := k, halted;
      } else {
        if !mihomo.owned {
          return true;
        }
        var (k, halted) := Halted(mihomo, halt);
        mihomo, ok := k, halted;
      }
    }

    method RestartBackend(kind: CoreKind, executable: bool, halt: Halt, launch: Launch)
      returns (ok: bool, ghost phases: seq<Dual>)
      modifies `mihomo, `singBox
      ensures var r := RestartTimed(old(View()).BackendFor(kind), kind != SingBox, executable, halt, launch);
        (View(), ok) == (old(View()).With(kind, r.0), r.1)
      ensures phases == RestartPhases(old(View()), kind, executable, halt, launch)
    {
      phases := [View()];
      if kind != SingBox && !executable {
        return false, phases;
      }
      if kind == SingBox {
        if singBox.owned {
          var (k, halted) := Halted(singBox, halt);
          singBox := k;
          phases := phases + [View()];
          if !halted {
            return false, phases;
          }
        }
        var (k, launched) := Launched(singBox, launch);
        singBox, ok := k, launched;
        phases := phases + [View()];
      } else {
        if mihomo.owned {
          var (k, halted) := Halted(mihomo, halt);
          mihomo := k;
          phases := phases + [View()];
          if !halted {
            return false, phases;
          }
        }
        var (k, launched) := Launched(mihomo, launch);
        mihomo, ok := k, launched;
        phases := phases + [View()];
      }
    }

    /** Flips the cell back and tries to bring the previous kernel up again, whatever comes of it. */
    method RollBack(previous: CoreKind, relaunch: Launch) returns (ghost phases: seq<Dual>)
      modifies this
      ensures phases == RollbackPhases(old(View()), previous, relaunch) && View() == phases[1]
    {
      active := previous;
      phases := [View()];
      var _ := StartBackend(previous, relaunch);
      phases := phases + [View()];
    }

    /** Stops the active kernel, flips the cell and starts the target, or rolls back. */
    method MoveTo(op: Op) returns (ok: bool, ghost phases: seq<Dual>)
      requires op.SwitchTo? && op.target != active
      modifies this
      ensures (View(), ok) == Switched(old(View()), op) && phases == SwitchPhases(old(View()), op)
    {
      phases := [View()];
      var previous := active;
      ok := StopBackend(previous, op.halt);
      phases := phases + [View()];
      if !ok {
        return;
      }
      active := op.target;
      phases := phases + [View()];
      ok := StartBackend(op.target, op.launch);
      phases := phases + [View()];
      if !ok {
        ghost var back := RollBack(previous, op.relaunch);
        phases := phases + back;
      }
    }

    /** `phases` collects the states passed through. */
    method SwitchCore(target: CoreKind, executable: bool, halt: Halt, launch: Launch, relaunch: Launch)
      returns (ok: bool, ghost phases: seq<Dual>)
      modifies this
      ensures var op := SwitchTo(target, executable, halt, launch, relaunch);
        (View(), ok) == Switched(old(View()), op) && phases == Moments(old(View()), op)
    {
      if active == target {
        ok, phases := RestartBackend(target, executable, halt, launch);
      } else {
        ok, phases := MoveTo(SwitchTo(target, executable, halt, launch, relaunch));
      }
    }
  }

  // ----- Exclusivity -----

  /** Only the active cell's backend owns a kernel. */
  ghost predicate Exclusive(d: Dual) {
    if d.active == SingBox then !d.mihomo.owned else !d.singBox.owned
  }

  /** Every run keeps it, whatever launches and stops do. */
  lemma StepKeepsExclusive(d: Dual, op: Op)
    requires Exclusive(d)
    ensures Exclusive(Step(d, op).0)
  {
  }

  lemma {:induction false} RunKeepsExclusive(d: Dual, ops: seq<Op>)
    requires Exclusive(d)
    ensures Exclusive(RunOps(d, ops))
    decreases |ops|
  {
    if ops != [] {
      StepKeepsExclusive(d, ops[0]);
      RunKeepsExclusive(Step(d, ops[0]).0, ops[1..]);
    }
  }

  /** The backend owns a kernel, and it is alive. */
  predicate Running(k: Kernel) {
    k.owned && k.alive
  }

  /** After any run, a switch either lands on the target running alone, or leaves the cell where it was. */
  lemma SwitchOutcome(d: Dual, ops: seq<Op>, op: Op)
    requires Exclusive(d) && op.SwitchTo?
    ensures var before := RunOps(d, ops);
      var (after, ok) := Step(before, op);
      && (ok ==> after.active == op.target && Running(after.BackendFor(op.target)) && Exclusive(after))
      && (!ok ==> after.active == before.active)
  {
    RunKeepsExclusive(d, ops);
    StepKeepsExclusive(RunOps(d, ops), op);
  }

  /** The stop a switch begins with succeeds, or there is nothing to stop. */
  predicate StopsCleanly(d: Dual, op: Op)
    requires op.SwitchTo?
  {
    d.BackendFor(d.active).owned ==> op.halt == Stopped
  }

  /** A failed switch leaves the previous kernel running exactly after a clean stop and a ready rollback launch. */
  lemma RollbackRestoresService(d: Dual, op: Op)
    requires Exclusive(d) && op.SwitchTo? && op.target != d.active && !Step(d, op).1
    ensures var after := Step(d, op).0;
      && after.active == d.active
      && (Running(after.BackendFor(d.active)) <==> StopsCleanly(d, op) && op.relaunch == Ready)
      && (after.BackendFor(d.active).owned <==> Running(after.BackendFor(d.active)))
  {
  }

  ghost predicate NeverBothOwned(states: seq<Dual>) {
    forall k :: 0 <= k < |states| ==> !(states[k].mihomo.owned && states[k].singBox.owned)
  }

  /** An operation passes from the state before it to the state after it. */
  lemma MomentsFromTo(d: Dual, op: Op)
    ensures var moments := Moments(d, op);
      moments[0] == d && moments[|moments| - 1] == Step(d, op).0
  {
    var moments := Moments(d, op);
    if op.SwitchTo? && op.target != d.active && |moments| > 4 {
      assert moments[5] == Step(d, op).0;
    }
  }

  /** Two kernels are owned at no moment of a switch, its rollback included. */
  lemma SwitchNeverOverlaps(d: Dual, op: Op)
    requires Exclusive(d) && op.SwitchTo? && op.target != d.active
    ensures NeverBothOwned(SwitchPhases(d, op))
  {
    var phases := SwitchPhases(d, op);
    if |phases| > 4 {
      assert !phases[3].BackendFor(op.target).owned;
      assert phases == [phases[0], phases[1], phases[2], phases[3], phases[4], phases[5]];
    }
  }

  // ----- Processes -----

  predicate LeaksNothing(op: Op) {
    match op
    case Start(launch) => launch != LeakedLaunch
    case Stop(halt) => halt != LeakedHalt
    case Restart(_, halt, launch) => halt != LeakedHalt && launch != LeakedLaunch
    case SwitchTo(_, _, halt, launch, relaunch) =>
      halt != LeakedHalt && launch != LeakedLaunch && relaunch != LeakedLaunch
    case _ => true
  }

  lemma LeakFreeStart(k: Kernel, launch: Launch)
    requires launch != LeakedLaunch
    ensures StartTimed(k, launch).0.orphans == k.orphans
  {
  }

  lemma LeakFreeStop(k: Kernel, halt: Halt)
    requires halt != LeakedHalt
    ensures StopTimed(k, halt).0.orphans == k.orphans
  {
  }

  lemma LeakFreeSwitch(d: Dual, op: Op)
    requires op.SwitchTo? && LeaksNothing(op)
    ensures Switched(d, op).0.Orphans() == d.Orphans()
  {
    if d.active != op.target {
      var d1 := d.With(d.active, StopTimed(d.BackendFor(d.active), op.halt).0);
      var d2 := d1.With(op.target, StartTimed(d1.BackendFor(op.target), op.launch).0);
      LeakFreeStop(d.BackendFor(d.active), op.halt);
      LeakFreeStart(d1.BackendFor(op.target), op.launch);
      LeakFreeStart(d2.BackendFor(d.active), op.relaunch);
    }
  }

  lemma LeakFreeStep(d: Dual, op: Op)
    requires LeaksNothing(op)
    ensures Step(d, op).0.Orphans() <= d.Orphans()
  {
    if op.SwitchTo? {
      LeakFreeSwitch(d, op);
    }
  }

  lemma {:induction false} LeakFreeRun(d: Dual, ops: seq<Op>)
    requires Exclusive(d) && AllLeakFree(ops)
    ensures Exclusive(RunOps(d, ops)) && RunOps(d, ops).Orphans() <= d.Orphans()
    decreases |ops|
  {
    if ops != [] {
      StepKeepsExclusive(d, ops[0]);
      LeakFreeStep(d, ops[0]);
      LeakFreeRun(Step(d, ops[0]).0, ops[1..]);
    }
  }

  ghost predicate AllAlone(states: seq<Dual>) {
    forall k :: 0 <= k < |states| ==> states[k].Live() <= 1
  }

  ghost predicate AllLeakFree(ops: seq<Op>) {
    forall k :: 0 <= k < |ops| ==> LeaksNothing(ops[k])
  }

  /** At every moment of every operation, as long as each reap succeeds, one kernel process at most is alive. */
  ghost predicate AlwaysAlone(d: Dual) {
    forall ops, op :: AllLeakFree(ops) && LeaksNothing(op) ==> AllAlone(Moments(RunOps(d, ops), op))
  }

  /** An unready launch whose reap fails, behind a clean stop, and a rollback launch that leaves a process too. */
  predicate BringsTwo(d: Dual, op: Op) {
    && op.SwitchTo? && op.target != d.active && StopsCleanly(d, op)
    && op.launch == LeakedLaunch && (op.relaunch == Ready || op.relaunch == LeakedLaunch)
  }

  lemma RestartStaysAlone(d: Dual, executable: bool, halt: Halt, launch: Launch)
    requires Exclusive(d) && d.Orphans() == 0
    ensures AllAlone(RestartPhases(d, d.active, executable, halt, launch))
  {
  }

  predicate NoneOwned(d: Dual) {
    !d.mihomo.owned && !d.singBox.owned
  }

  lemma CleanStopLeavesNone(d: Dual, op: Op)
    requires Exclusive(d) && d.Orphans() == 0 && op.SwitchTo? && StopsCleanly(d, op)
    ensures var halted := d.With(d.active, StopTimed(d.BackendFor(d.active), op.halt).0);
      NoneOwned(halted) && halted.Live() == 0
  {
  }

  /** A launch leaves a process when it is ready, and when it is not and the reap fails. */
  lemma LaunchAdds(d: Dual, kind: CoreKind, launch: Launch)
    requires NoneOwned(d)
    ensures var (k, ok) := StartTimed(d.BackendFor(kind), launch); var after := d.With(kind, k);
      && (ok <==> launch == Ready) && (!ok ==> NoneOwned(after))
      && after.Live() == d.Live() + if launch == Ready || launch == LeakedLaunch then 1 else 0
  {
  }

  lemma SwitchAloneIff(d: Dual, op: Op)
    requires Exclusive(d) && d.Orphans() == 0 && op.SwitchTo? && op.target != d.active
    ensures AllAlone(SwitchPhases(d, op)) <==> !BringsTwo(d, op)
  {
    if StopsCleanly(d, op) {
      CleanStopLeavesNone(d, op);
      var flipped := d.With(d.active, StopTimed(d.BackendFor(d.active), op.halt).0).(active := op.target);
      LaunchAdds(flipped, op.target, op.launch);
      var launched := flipped.With(op.target, StartTimed(flipped.BackendFor(op.target), op.launch).0);
      if op.launch != Ready {
        LaunchAdds(launched.(active := d.active), d.active, op.relaunch);
        assert SwitchPhases(d, op)[4..] == RollbackPhases(launched, d.active, op.relaunch);
        assert SwitchPhases(d, op)[5] == RollbackPhases(launched, d.active, op.relaunch)[1];
      }
    }
  }

  /** From a state without stray processes, exactly one kind of operation ever has two alive at some moment. */
  lemma MomentsAloneIff(d: Dual, op: Op)
    requires Exclusive(d) && d.Orphans() == 0
    ensures AllAlone(Moments(d, op)) <==> !BringsTwo(d, op)
  {
    if op.SwitchTo? && op.target != d.active {
      SwitchAloneIff(d, op);
    } else if op.SwitchTo? || op.Restart? {
      RestartStaysAlone(d, op.executable, op.halt, op.launch);
    }
  }

  /** After a run in which every reap succeeded, two are alive in the next operation exactly when it is of that kind. */
  lemma OverlapIff(d: Dual, ops: seq<Op>, op: Op)
    requires Exclusive(d) && d.Orphans() == 0 && AllLeakFree(ops)
    ensures AllAlone(Moments(RunOps(d, ops), op)) <==> !BringsTwo(RunOps(d, ops), op)
  {
    LeakFreeRun(d, ops);
    MomentsAloneIff(RunOps(d, ops), op);
  }

  /**
   Two kernel processes never run side by side from here on, as long as every reap succeeds, exactly
   when no earlier reap has left a process behind.
   */
  lemma ProcessesAreExclusiveIffNoOrphans(d: Dual)
    requires Exclusive(d)
    ensures AlwaysAlone(d) <==> d.Orphans() == 0
  {
    if d.Orphans() == 0 {
      forall ops, op | AllLeakFree(ops) && LeaksNothing(op)
        ensures AllAlone(Moments(RunOps(d, ops), op))
      {
        OverlapIff(d, ops, op);
      }
    } else {
      var op := Restart(true, Stopped, Ready);
      var moments := Moments(RunOps(d, []), op);
      var last := moments[|moments| - 1];
      assert last == Step(d, op).0 && last.Live() == 1 + d.Orphans();
      assert AllLeakFree([]) && LeaksNothing(op) && !AllAlone(moments);
    }
  }

  /** One unready launch whose reap fails, during a switch: its rollback starts a second process. */
  lemma RollbackBesideALeak()
    ensures var d := Dual(Mihomo, Kernel(true, true, 0), Kernel(false, false, 0));
      Step(d, SwitchTo(SingBox, true, Stopped, LeakedLaunch, Ready)).0.Live() == 2
  {
  }
}
