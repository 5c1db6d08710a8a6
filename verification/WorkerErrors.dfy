/**
 ERROR in the handshake of firmware/bench-kernel/src/linux.rs: a recovery ends with ERROR clear, and while
 it is clear and no worker's SBI call fails, no wait ends by it.
 */
module WorkerErrors {
  import opened Bits
  import opened Helpers
  import opened WorkerHandshake
  import opened WorkerProgress

  /** From the moment that `suspend_supported` finds ERROR set to the moment that it returns. */
  predicate InRecovery(boot: BootPc) {
    match boot
    case LoadAck(_, after) => after.Recover?
    case SendIpi(_, _, after) => after.Recover?
    case RecoverReady(_, _, _) => true
    case RecoverAck(_, _, _) => true
    case SwapError => true
    case _ => false
  }

  // ----- how a recovery begins and ends -----

  /**
   In every run, a recovery that the boot hart leaves without an abort is left to the next operation, with
   ERROR clear, COMMAND at READY, and the recovered worker idle and owing nothing.
   */
  lemma RecoveryEndsClear(c: Config, start: State, before: seq<Event>, e: Event)
    requires c.Valid() && IsInitial(c, start)
    requires var s := Run(c, start, before); var t := Next(c, s, e);
             InRecovery(s.boot) && !InRecovery(t.boot) && !t.aborted
    ensures var t := Next(c, Run(c, start, before), e);
            && t.boot == Idle && t.m.error == 0
            && forall h <- t.running :: h < c.smp && t.m.command == READY && Listening(t.harts[h].pc) && !Owed(t.harts[h])
  {
    var s := Run(c, start, before);
    var t := Next(c, s, e);
    Reachable(c, start, before);
    NextKeeps(c, s, e);
    forall h | h in t.running
      ensures h < c.smp && t.m.command == READY && Listening(t.harts[h].pc) && !Owed(t.harts[h])
    {
      assert Fits(c, h, t.m, t.harts[h], t.log.stale, RoleOf(t.boot, t.running, h));
    }
  }

  /** In every run a recovery begins only in `suspend_supported`, where its check has found ERROR set. */
  lemma RecoveryBegins(c: Config, start: State, before: seq<Event>, e: Event)
    requires c.Valid() && IsInitial(c, start)
    requires var s := Run(c, start, before); !InRecovery(s.boot) && InRecovery(Next(c, s, e).boot)
    ensures var s := Run(c, start, before);
            e.BootRuns? && s.boot.Wait? && s.boot.checking && s.boot.goal.Parked? && s.boot.goal.probing && s.m.error != 0
  {
  }

  // ----- what aborts a run -----

  /** The SBI call of this step has its result checked: HART_START, HART_GET_STATUS, and two of the sends. */
  predicate CheckedCall(boot: BootPc) {
    match boot
    case HartStart(_) => true
    case Wait(goal, checking) => !checking && (goal.Parked? || goal.Halted?)
    case SendIpi(_, _, after) => after.Recover? || (after.Release? && after.probing)
    case _ => false
  }

  /**
   In every run, the boot hart aborts exactly when a call that it checks fails, or when a wait other than
   the one in `suspend_supported` finds ERROR set.
   */
  lemma AbortsExactly(c: Config, start: State, before: seq<Event>, e: Event)
    requires c.Valid() && IsInitial(c, start) && !Run(c, start, before).aborted
    ensures var s := Run(c, start, before);
            Next(c, s, e).aborted <==>
              && e.BootRuns?
              && ((CheckedCall(s.boot) && !e.ok)
                  || (s.boot.Wait? && s.boot.checking && s.m.error != 0 && !(s.boot.goal.Parked? && s.boot.goal.probing)))
  {
    Reachable(c, start, before);
    var s := Run(c, start, before);
    if e.BootRuns? {
      match s.boot
      case HartStart(h) =>
        assert Fits(c, h, s.m, s.harts[h], s.log.stale, RoleOf(s.boot, s.running, h));
      case SendIpi(h, _, _) =>
        assert c.Worker(h);
      case _ =>
    }
  }

  /**
   In every run a wait begins with the test of its condition, and ERROR is read only after that test has
   failed: a wait whose condition holds when it begins is left at once, ERROR set or not.
   */
  lemma WaitsTestFirst(c: Config, start: State, before: seq<Event>, e: Event)
    requires c.Valid() && IsInitial(c, start)
    ensures var s := Run(c, start, before); var t := Next(c, s, e);
            t.boot.Wait? && t.boot != s.boot ==>
              if s.boot.Wait? && s.boot.goal == t.boot.goal then s.boot.checking == !t.boot.checking else !t.boot.checking
    ensures var s := Run(c, start, before); var t := Next(c, s, e);
            s.boot.Wait? && !s.boot.checking && !s.aborted && e == BootRuns(true) && Reached(s.m, s.harts, s.boot.goal) ==>
              !t.aborted && !SameWait(t.boot, s.boot)
  {
    Reachable(c, start, before);
  }

  // ----- operations come to their end -----

  /** How many stages of its operation are before the boot hart; only between operations there is none. */
  function Stage(boot: BootPc): nat {
    match boot
    case Idle => 0
    case ClearOnline(_) => 4
    case SetReady(_) => 3
    case HartStart(_) => 2
    case SetCommand(_, _, _) => 16
    case SetStop(pending) => |pending| + 1
    case LoadAck(_, after) => 3 + StageAfter(after)
    case SendIpi(_, _, after) => 2 + StageAfter(after)
    case RecoverReady(_, _, _) => 2
    case RecoverAck(_, _, _) => 2
    case SwapError => 1
    case Wait(Online(_), _) => 1
    case Wait(Acked(_, _, after), _) => 1 + StageAfter(after)
    case Wait(Released(_, _), _) => 1
    case Wait(Parked(_, _, _), _) => 15
    case Wait(Halted(pending), _) => |pending|
  }

  function StageAfter(after: After): nat {
    match after
    case Return => 0
    case Release(_, _) => 1
    case Recover(_) => 1
  }

  predicate Advances(s: State, t: State) {
    t.aborted || SameWait(t.boot, s.boot) || Stage(t.boot) < Stage(s.boot)
  }

  lemma WaitAdvances(c: Config, s: State, ok: bool)
    requires Inv(c, s) && s.boot.Wait?
    ensures Stage(s.boot) > 0 && Advances(s, WaitNext(s, s.boot.goal, s.boot.checking, ok))
  {
  }

  lemma SendAdvances(c: Config, s: State, ok: bool)
    requires Inv(c, s) && s.boot.SendIpi? && s.boot.h < |s.harts|
    ensures Advances(s, SendNext(s, s.boot.h, s.boot.expected, s.boot.after, ok))
  {
  }

  lemma StoreAdvances(c: Config, s: State)
    requires !s.boot.Idle? && !s.boot.Wait? && !s.boot.SendIpi? && !s.boot.HartStart?
    ensures Advances(s, BootStore(c, s))
  {
  }

  /**
   In every run, each turn of the boot hart within an operation aborts, stays in the wait that it is in, or
   brings the operation closer to its end. Since every wait that is not doomed is left, and only a doomed one
   can last, no operation goes round in circles.
   */
  lemma OperationAdvances(c: Config, start: State, before: seq<Event>, ok: bool)
    requires c.Valid() && IsInitial(c, start)
    requires var s := Run(c, start, before); !s.aborted && !s.boot.Idle?
    ensures var s := Run(c, start, before); var t := Next(c, s, BootRuns(ok));
            && Stage(s.boot) > 0
            && (t.aborted || SameWait(t.boot, s.boot) || Stage(t.boot) < Stage(s.boot))
  {
    Reachable(c, start, before);
    var s := Run(c, start, before);
    match s.boot
    case Wait(_, _) => WaitAdvances(c, s, ok);
    case SendIpi(h, _, _) => if h < c.smp { SendAdvances(c, s, ok); }
    case HartStart(_) =>
    case _ => StoreAdvances(c, s);
  }

  // ----- runs without failing calls of workers -----

  /** No worker's SBI call in the schedule fails. */
  predicate Healthy(schedule: seq<Event>) {
    forall e <- schedule :: e.WorkerRuns? ==> e.result == 0
  }

  /** ERROR is clear, no worker is about to set it, and no recovery is under way. */
  ghost predicate Calm(c: Config, s: State)
    requires Shaped(c, s)
  {
    && s.m.error == 0 && !InRecovery(s.boot)
    && forall h: nat | c.Worker(h) :: !s.harts[h].pc.StoreError? && !s.harts[h].pc.StoreStopError?
  }

  lemma BootKeepsCalm(c: Config, s: State, ok: bool)
    requires Shaped(c, s) && Calm(c, s)
    ensures Calm(c, BootNext(c, s, ok))
  {
  }

  lemma NextKeepsCalm(c: Config, s: State, e: Event)
    requires Shaped(c, s) && Calm(c, s) && (e.WorkerRuns? ==> e.result == 0)
    ensures Calm(c, Next(c, s, e))
  {
    match e
    case Begin(_) =>
    case BootRuns(ok) => BootKeepsCalm(c, s, ok);
    case WorkerRuns(h, _) =>
    case Deliver(h) =>
  }

  lemma {:induction false} HealthyKeepsCalm(c: Config, s: State, schedule: seq<Event>)
    requires Shaped(c, s) && Calm(c, s) && Healthy(schedule)
    ensures Calm(c, Run(c, s, schedule))
  {
    if schedule != [] {
      var last := |schedule| - 1;
      HealthyKeepsCalm(c, s, schedule[..last]);
      NextKeepsCalm(c, Run(c, s, schedule[..last]), schedule[last]);
    }
  }

  /** Between two operations, no worker is about to set ERROR. */
  lemma IdleIsCalm(c: Config, start: State, before: seq<Event>)
    requires c.Valid() && IsInitial(c, start)
    requires var s := Run(c, start, before); s.boot.Idle? && s.m.error == 0
    ensures Calm(c, Run(c, start, before))
  {
    forall h: nat | c.Worker(h) { CommandsFindIdleWorkers(c, start, before, h); }
  }

  /**
   From every point between two operations where ERROR is clear, and for as long as no worker's SBI call
   fails: ERROR stays clear, no recovery begins, and nothing but a failed call of its own that it checks
   makes the boot hart abort. No wait ends by ERROR.
   */
  lemma HealthyRunsSucceed(c: Config, start: State, before: seq<Event>, more: seq<Event>, e: Event)
    requires c.Valid() && IsInitial(c, start) && Healthy(more)
    requires var s := Run(c, start, before); s.boot.Idle? && s.m.error == 0
    ensures var t := Run(c, start, before + more);
            && t.m.error == 0 && !InRecovery(t.boot)
            && (!t.aborted && Next(c, t, e).aborted ==> e == BootRuns(false) && CheckedCall(t.boot))
  {
    IdleIsCalm(c, start, before);
    HealthyKeepsCalm(c, Run(c, start, before), more);
    RunAppend(c, start, before, more);
    if !Run(c, start, before + more).aborted { AbortsExactly(c, start, before + more, e); }
  }

  /** After a recovery the next operations are as safe as after power-on: ERROR does not come back by itself. */
  lemma RecoveredRunsSucceed(c: Config, start: State, before: seq<Event>, e: Event, more: seq<Event>)
    requires c.Valid() && IsInitial(c, start) && Healthy(more)
    requires var s := Run(c, start, before); var t := Next(c, s, e);
             InRecovery(s.boot) && !InRecovery(t.boot) && !t.aborted
    ensures Run(c, start, before + [e] + more).m.error == 0
  {
    RecoveryEndsClear(c, start, before, e);
    var schedule := before + [e];
    assert schedule[..|before|] == before;
    HealthyRunsSucceed(c, start, schedule, more, BootRuns(true));
  }
}
