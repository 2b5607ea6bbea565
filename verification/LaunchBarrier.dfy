/**
 Bringing up the processors of the virtual machine monitor.  The boot processor
 initialises alone, lets the application processors go, and resumes the guest only
 once all of them have reported in.  They share a launch flag and a launch counter.
 */
module LaunchBarrier {
  datatype VmmState = Unset | Boot | WaitForAps | Running

  /** Where the boot processor is, by the next thing it does. */
  datatype BspPc =
    | SingleCoreInit      // up to and including vmm_set_state(VMM_STATE_BOOT)
    | LateInit            // the rest of the single-core initialisation
    | SetWaitState        // vmm_set_state(VMM_STATE_WAIT_FOR_APs)
    | RaiseFlag           // LAUNCH_APPLICATION_PROCS
    | OwnInit             // its own per-processor initialisation
    | AwaitAps            // WAIT_FOR_APPLICATION_PROCS_LAUNCHED_THE_GUEST
    | SetRunState         // vmm_set_state(VMM_STATE_RUN)
    | BspDone

  /** Where an application processor is; `Dead` is the dead loop entered when its initialisation fails. */
  datatype ApPc =
    | AwaitFlag           // WAIT_FOR_APPLICATION_PROCS_LAUNCH
    | ApInit              // its own initialisation
    | Increment           // APPLICATION_PROC_LAUNCHING_THE_GUEST
    | ApDone
    | Dead

  /** The shared memory and all program counters; `aps` has one entry per application processor. */
  datatype State = State(flag: bool, count: nat, vmm: VmmState, bsp: BspPc, aps: seq<ApPc>)

  function Initial(n: nat): State {
    State(false, 0, Unset, SingleCoreInit, seq(n, i => AwaitFlag))
  }

  // ----- one step of one processor

  /** A spinning processor whose condition is not met has no step. */
  predicate BspEnabled(s: State) {
    match s.bsp
    case AwaitAps => s.count == |s.aps|
    case BspDone => false
    case _ => true
  }

  function BspStep(s: State): State
    requires BspEnabled(s)
  {
    match s.bsp
    case SingleCoreInit => s.(vmm := Boot, bsp := LateInit)
    case LateInit => s.(bsp := SetWaitState)
    case SetWaitState => s.(vmm := WaitForAps, bsp := RaiseFlag)
    case RaiseFlag => s.(flag := true, bsp := OwnInit)
    case OwnInit => s.(bsp := AwaitAps)
    case AwaitAps => s.(bsp := SetRunState)
    case SetRunState => s.(vmm := Running, bsp := BspDone)
  }

  predicate ApEnabled(s: State, i: nat) {
    i < |s.aps| && match s.aps[i]
                   case AwaitFlag => s.flag
                   case ApInit => true
                   case Increment => true
                   case ApDone => false
                   case Dead => false
  }

  function ApStep(s: State, i: nat, fails: bool): State
    requires ApEnabled(s, i)
  {
    match s.aps[i]
    case AwaitFlag => s.(aps := s.aps[i := ApInit])
    case ApInit => s.(aps := s.aps[i := if fails then Dead else Increment])
    case Increment => s.(count := s.count + 1, aps := s.aps[i := ApDone])
  }

  datatype Move = Bsp | Ap(i: nat, fails: bool)

  predicate Enabled(s: State, m: Move) {
    match m
    case Bsp => BspEnabled(s)
    case Ap(i, _) => ApEnabled(s, i)
  }

  function Step(s: State, m: Move): State
    requires Enabled(s, m)
  {
    match m
    case Bsp => BspStep(s)
    case Ap(i, fails) => ApStep(s, i, fails)
  }

  /** A schedule is an interleaving in which every processor steps only when it can. */
  predicate Possible(s: State, schedule: seq<Move>)
    decreases schedule
  {
    schedule != [] ==> Enabled(s, schedule[0]) && Possible(Step(s, schedule[0]), schedule[1..])
  }

  function Run(s: State, schedule: seq<Move>): State
    requires Possible(s, schedule)
    decreases schedule
  {
    if schedule == [] then s else Run(Step(s, schedule[0]), schedule[1..])
  }

  // ----- what every interleaving keeps

  /** How many application processors have incremented the counter. */
  function Launched(aps: seq<ApPc>): (n: nat)
    ensures n <= |aps|
  {
    if aps == [] then 0 else Launched(aps[..|aps| - 1]) + (if aps[|aps| - 1].ApDone? then 1 else 0)
  }

  lemma {:induction false} LaunchedAfterUpdate(aps: seq<ApPc>, i: nat, pc: ApPc)
    requires i < |aps|
    ensures Launched(aps[i := pc]) ==
              Launched(aps) - (if aps[i].ApDone? then 1 else 0) + (if pc.ApDone? then 1 else 0)
  {
    var k := |aps| - 1;
    var bps := aps[i := pc];
    if i < k {
      LaunchedAfterUpdate(aps[..k], i, pc);
      assert bps[..k] == aps[..k][i := pc];
    } else {
      assert bps[..k] == aps[..k];
    }
  }

  lemma {:induction false} AllLaunched(aps: seq<ApPc>)
    ensures Launched(aps) == |aps| <==> forall i :: 0 <= i < |aps| ==> aps[i].ApDone?
  {
    if aps != [] {
      var k := |aps| - 1;
      AllLaunched(aps[..k]);
      assert forall i :: 0 <= i < k ==> aps[..k][i] == aps[i];
    }
  }

  /** How far the boot processor has come. */
  function Phase(pc: BspPc): nat {
    match pc
    case SingleCoreInit => 0
    case LateInit => 1
    case SetWaitState => 2
    case RaiseFlag => 3
    case OwnInit => 4
    case AwaitAps => 5
    case SetRunState => 6
    case BspDone => 7
  }

  function StateAt(phase: nat): VmmState {
    if phase == 0 then Unset else if phase <= 2 then Boot else if phase <= 6 then WaitForAps else Running
  }

  ghost predicate Inv(s: State) {
    && s.count == Launched(s.aps)
    && (s.flag <==> Phase(s.bsp) >= 4)
    && s.vmm == StateAt(Phase(s.bsp))
    && (!s.flag ==> forall i :: 0 <= i < |s.aps| ==> s.aps[i].AwaitFlag?)
    && (Phase(s.bsp) >= 6 ==> s.count == |s.aps|)
  }

  lemma StepKeepsInv(s: State, m: Move)
    requires Inv(s) && Enabled(s, m)
    ensures Inv(Step(s, m)) && |Step(s, m).aps| == |s.aps|
  {
    if m.Ap? {
      LaunchedAfterUpdate(s.aps, m.i, Step(s, m).aps[m.i]);
      if Phase(s.bsp) >= 6 {
        AllLaunched(s.aps);
      }
    }
  }

  lemma {:induction false} RunKeepsInv(s: State, schedule: seq<Move>)
    requires Inv(s) && Possible(s, schedule)
    ensures Inv(Run(s, schedule)) && |Run(s, schedule).aps| == |s.aps|
    decreases schedule
  {
    if schedule != [] {
      StepKeepsInv(s, schedule[0]);
      RunKeepsInv(Step(s, schedule[0]), schedule[1..]);
    }
  }

  lemma {:induction false} InitialInv(n: nat)
    ensures Inv(Initial(n))
  {
    NoneLaunched(Initial(n).aps);
  }

  lemma {:induction false} NoneLaunched(aps: seq<ApPc>)
    requires forall i :: 0 <= i < |aps| ==> aps[i].AwaitFlag?
    ensures Launched(aps) == 0
  {
    if aps != [] {
      NoneLaunched(aps[..|aps| - 1]);
    }
  }

  /**
   Safety of the launch, in every interleaving of the boot processor with any
   number of application processors.
   */
  lemma LaunchIsSafe(n: nat, schedule: seq<Move>)
    requires Possible(Initial(n), schedule)
    ensures var s := Run(Initial(n), schedule);
            // no application processor is past its wait before the single-core initialisation ends
            && (Phase(s.bsp) < 4 ==> forall i :: 0 <= i < |s.aps| ==> s.aps[i].AwaitFlag?)
            // the counter counts the processors that have reported in
            && s.count == Launched(s.aps) <= n
            // the guest runs only after all of them have
            && (s.vmm.Running? ==> s.count == n && forall i :: 0 <= i < |s.aps| ==> s.aps[i].ApDone?)
  {
    InitialInv(n);
    RunKeepsInv(Initial(n), schedule);
    AllLaunched(Run(Initial(n), schedule).aps);
  }

  // ----- progress

  /** Steps still ahead of the boot processor and of every live application processor. */
  function ApDistance(pc: ApPc): nat {
    match pc
    case AwaitFlag => 3
    case ApInit => 2
    case Increment => 1
    case ApDone => 0
    case Dead => 0
  }

  function Distance(aps: seq<ApPc>): nat {
    if aps == [] then 0 else Distance(aps[..|aps| - 1]) + ApDistance(aps[|aps| - 1])
  }

  function Remaining(s: State): nat {
    7 - Phase(s.bsp) + Distance(s.aps)
  }

  lemma {:induction false} DistanceAfterUpdate(aps: seq<ApPc>, i: nat, pc: ApPc)
    requires i < |aps|
    ensures Distance(aps[i := pc]) == Distance(aps) - ApDistance(aps[i]) + ApDistance(pc)
  {
    var k := |aps| - 1;
    var bps := aps[i := pc];
    if i < k {
      DistanceAfterUpdate(aps[..k], i, pc);
      assert bps[..k] == aps[..k][i := pc];
    } else {
      assert bps[..k] == aps[..k];
    }
  }

  lemma StepsRunOut(s: State, m: Move)
    requires Enabled(s, m)
    ensures Remaining(Step(s, m)) < Remaining(s)
  {
    if m.Ap? {
      DistanceAfterUpdate(s.aps, m.i, Step(s, m).aps[m.i]);
    }
  }

  /** Every step brings the end closer, so no interleaving is longer than the steps that remain. */
  lemma {:induction false} SchedulesAreFinite(s: State, schedule: seq<Move>)
    requires Possible(s, schedule)
    ensures |schedule| + Remaining(Run(s, schedule)) <= Remaining(s)
    decreases schedule
  {
    if schedule != [] {
      StepsRunOut(s, schedule[0]);
      SchedulesAreFinite(Step(s, schedule[0]), schedule[1..]);
    }
  }

  ghost predicate SomeDead(s: State) {
    exists i :: 0 <= i < |s.aps| && s.aps[i].Dead?
  }

  ghost predicate Stuck(s: State) {
    forall m :: !Enabled(s, m)
  }

  /**
   Progress: after any schedule nothing can move any more only if the guest is
   running, or else some application processor has failed to initialise.
   */
  lemma StuckOnlyWhenRunningOrDead(n: nat, schedule: seq<Move>)
    requires Possible(Initial(n), schedule)
    ensures var s := Run(Initial(n), schedule);
            && (Stuck(s) ==> s.vmm.Running? || SomeDead(s))
            && (s.vmm.Running? ==> Stuck(s) && !SomeDead(s))
  {
    InitialInv(n);
    RunKeepsInv(Initial(n), schedule);
    var s := Run(Initial(n), schedule);
    AllLaunched(s.aps);
    if Stuck(s) && !s.vmm.Running? {
      assert !Enabled(s, Bsp);
      assert s.bsp.AwaitAps? && s.flag;
      var i :| 0 <= i < |s.aps| && !s.aps[i].ApDone?;
      assert !Enabled(s, Ap(i, false));
    }
  }

  // ----- where everybody is, read off the schedule

  /** The moves of one application processor, each with whether it was to fail. */
  function ApMoves(schedule: seq<Move>, i: nat): seq<bool> {
    if schedule == [] then []
    else
      var k := |schedule| - 1;
      ApMoves(schedule[..k], i) + if schedule[k].Ap? && schedule[k].i == i then [schedule[k].fails] else []
  }

  function BspMoves(schedule: seq<Move>): nat {
    if schedule == [] then 0
    else BspMoves(schedule[..|schedule| - 1]) + if schedule[|schedule| - 1].Bsp? then 1 else 0
  }

  /** The second move of a processor, its initialisation, is one that fails. */
  predicate InitFails(schedule: seq<Move>, i: nat) {
    var moves := ApMoves(schedule, i);
    |moves| >= 2 && moves[1]
  }

  /** The boot processor's program, in order. */
  const BSP_PROGRAM := [SingleCoreInit, LateInit, SetWaitState, RaiseFlag, OwnInit, AwaitAps, SetRunState, BspDone]

  /** The processor is where its moves have taken it. */
  predicate ApIsAt(pc: ApPc, moves: seq<bool>) {
    match pc
    case AwaitFlag => |moves| == 0
    case ApInit => |moves| == 1
    case Increment => |moves| == 2 && !moves[1]
    case ApDone => |moves| == 3 && !moves[1]
    case Dead => |moves| == 2 && moves[1]
  }

  ghost predicate FollowsSchedule(s: State, schedule: seq<Move>) {
    && BspMoves(schedule) < |BSP_PROGRAM| && s.bsp == BSP_PROGRAM[BspMoves(schedule)]
    && forall i :: 0 <= i < |s.aps| ==> ApIsAt(s.aps[i], ApMoves(schedule, i))
  }

  lemma StepFollowsSchedule(s: State, past: seq<Move>, m: Move)
    requires FollowsSchedule(s, past) && Enabled(s, m)
    ensures FollowsSchedule(Step(s, m), past + [m])
  {
    assert (past + [m])[..|past|] == past;
    forall i: nat | i < |s.aps| ensures ApIsAt(Step(s, m).aps[i], ApMoves(past + [m], i)) {
      assert ApMoves(past + [m], i) == ApMoves(past, i) + if m.Ap? && m.i == i then [m.fails] else [];
    }
  }

  lemma {:induction false} RunFollowsSchedule(s: State, past: seq<Move>, schedule: seq<Move>)
    requires FollowsSchedule(s, past) && Possible(s, schedule)
    ensures FollowsSchedule(Run(s, schedule), past + schedule)
    decreases schedule
  {
    if schedule == [] {
      assert past + schedule == past;
    } else {
      StepFollowsSchedule(s, past, schedule[0]);
      RunFollowsSchedule(Step(s, schedule[0]), past + [schedule[0]], schedule[1..]);
      assert past + [schedule[0]] + schedule[1..] == past + schedule;
    }
  }

  /**
   In every interleaving each processor runs its program in order: the schedule alone
   tells where it is, and it is dead exactly if its initialisation move failed.
   */
  lemma ScheduleTellsTheState(n: nat, schedule: seq<Move>)
    requires Possible(Initial(n), schedule)
    ensures var s := Run(Initial(n), schedule);
            && FollowsSchedule(s, schedule) && |s.aps| == n
            && forall i :: 0 <= i < n ==> (s.aps[i].Dead? <==> InitFails(schedule, i))
  {
    assert [] + schedule == schedule;
    RunFollowsSchedule(Initial(n), [], schedule);
    InitialInv(n);
    RunKeepsInv(Initial(n), schedule);
  }

  /**
   Progress, read off the schedule: when nothing can move any more the guest runs
   with all processors counted, unless the initialisation of one of them failed.
   */
  lemma LaunchSucceedsUnlessInitFails(n: nat, schedule: seq<Move>)
    requires Possible(Initial(n), schedule)
    ensures var s := Run(Initial(n), schedule);
            Stuck(s) ==> if exists i :: 0 <= i < n && InitFails(schedule, i) then !s.vmm.Running?
                         else s.vmm.Running? && s.count == n
  {
    ScheduleTellsTheState(n, schedule);
    StuckOnlyWhenRunningOrDead(n, schedule);
    LaunchIsSafe(n, schedule);
  }
}
