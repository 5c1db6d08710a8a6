/**
 Whether the waits of the handshake in firmware/bench-kernel/src/linux.rs end: each does, under any
 schedule that lets the awaited hart and the boot hart run, except in two cases that are given exactly,
 a recovery entered because of an old ERROR and a measured sample whose send failed.
 */
module WorkerProgress {
  import opened Bits
  import opened WorkerHandshake

  // ----- how far a worker is from what the boot hart waits for -----

  /** Steps to the acknowledgement of an IPI that a listening hart has been sent. */
  function ToAck(w: Hart): nat {
    if w.inflight then 6
    else if w.ssip then (match w.pc case Poll => 4 case ClearSip => 3 case _ => 5)
    else if w.pc.AddAck? then 2
    else 0
  }

  function ToPark(m: Atomics, w: Hart): nat {
    if m.error != 0 then 0
    else match w.pc
      case Poll => 6
      case LoadCommand => 5
      case Reload(_) => 4
      case CallSuspend(_, _) => 3
      case SuspendPending(_) => 2
      case StoreError(_, _) => 1
      case _ => 0
  }

  function ToHalt(m: Atomics, w: Hart): nat {
    if m.error != 0 then 0
    else match w.pc
      case Poll => 5
      case LoadCommand => 4
      case CallStop => 3
      case StopPending => 2
      case StoreStopError(_) => 1
      case _ => 0
  }

  /**
   In a recovery: to the READY of a worker whose suspend has failed, or whose IPI will find it suspended,
   and to its acknowledgement.
   */
  function ToRecover(m: Atomics, w: Hart): nat {
    match w.pc
    case StoreError(_, _) => 20 + ToAck(w)
    case SuspendPending(_) => 20
    case Suspended(_) => 19
    case ResumePending(_) => 18
    case StoreReady(_, _) => 10 + ToAck(w)
    case StoreOnline => 7
    case _ => ToAck(w)
  }

  function Distance(m: Atomics, w: Hart, role: Role): nat {
    match role
    case Starting => (match w.pc case StartPending => 2 case StoreOnline => 1 case _ => 0)
    case Parking(_) => ToPark(m, w)
    case Owing(_) => ToAck(w)
    case Waking(_, _) =>
      (match w.pc
       case Suspended(_) => 10
       case ResumePending(_) => 9
       case StoreReady(_, _) => 8
       case StoreOnline => 7
       case _ => ToAck(w))
    case Recovering(_, _) => ToRecover(m, w)
    case Stopping => ToHalt(m, w)
    case _ => 0
  }

  lemma OrOne(x: nat)
    ensures Or(x, 1) != 0
  {
    OrBit(x, 1, 0);
    ZeroBit(0);
  }

  /**
   In a recovery: the worker has yet to suspend, so that its IPI may be used up before it does, or it
   sleeps, or is about to, with no IPI on its way.
   */
  predicate MissesWake(m: Atomics, w: Hart) {
    && m.command != READY
    && (Listening(w.pc) || w.pc.Reload? || w.pc.CallSuspend?
        || ((w.pc.SuspendPending? || w.pc.Suspended?) && !w.inflight))
  }

  predicate Safe(m: Atomics, w: Hart, role: Role) {
    role.Recovering? ==> !MissesWake(m, w)
  }

  /** Does the awaited worker need its IPI before its own steps help? */
  predicate NeedsDelivery(w: Hart) {
    w.inflight && !w.pc.StoreReady? && !w.pc.StoreError? && !w.pc.SuspendPending?
  }

  lemma StepShrinks(c: Config, h: nat, m: Atomics, w: Hart, result: nat, stale: bool, role: Role)
    requires Fits(c, h, m, w, stale, role) && Safe(m, w, role)
    requires Distance(m, w, role) > 0 && !NeedsDelivery(w)
    ensures var (m', w') := WorkerStep(c, h, m, w, result); Distance(m', w', role) < Distance(m, w, role)
  {
    if w.pc.StoreStopError? { OrOne(w.pc.error); }
  }

  lemma DeliveryShrinks(c: Config, h: nat, m: Atomics, w: Hart, stale: bool, role: Role)
    requires Fits(c, h, m, w, stale, role) && Safe(m, w, role)
    requires Distance(m, w, role) > 0
    ensures NeedsDelivery(w) ==> Distance(m, Delivered(w), role) < Distance(m, w, role)
    ensures Distance(m, Delivered(w), role) <= Distance(m, w, role)
  {
  }

  lemma StepNeverFurther(c: Config, h: nat, m: Atomics, w: Hart, result: nat, stale: bool, role: Role)
    requires Fits(c, h, m, w, stale, role) && Safe(m, w, role)
    ensures var (m', w') := WorkerStep(c, h, m, w, result);
            Distance(m', w', role) <= Distance(m, w, role) && Safe(m', w', role)
  {
    if w.pc.StoreStopError? { OrOne(w.pc.error); }
  }

  lemma DeliveryKeepsSafe(c: Config, h: nat, m: Atomics, w: Hart, stale: bool, role: Role)
    requires Fits(c, h, m, w, stale, role) && Safe(m, w, role)
    ensures Safe(m, Delivered(w), role)
  {
  }

  // ----- the waits of the boot hart -----

  /** The boot hart waits for worker `h`. */
  predicate Awaits(boot: BootPc, h: nat) {
    match boot
    case Wait(goal, _) =>
      (match goal
       case Online(g) => g == h
       case Acked(g, _, _) => g == h
       case Released(g, _) => g == h
       case Parked(g, _, _) => g == h
       case Halted(pending) => pending != [] && pending[0] == h)
    case RecoverReady(g, _, _) => g == h
    case RecoverAck(g, _, _) => g == h
    case _ => false
  }

  /** What the boot hart waits for holds, or its check of ERROR ends the wait. */
  predicate Over(s: State) {
    match s.boot
    case Wait(goal, _) => Reached(s.m, s.harts, goal) || s.m.error != 0
    case RecoverReady(_, _, expected) => s.m.command == READY && s.m.ack == expected
    case RecoverAck(_, _, expected) => s.m.command == READY && s.m.ack == expected
    case _ => true
  }

  function DistanceOf(s: State, h: nat): nat
    requires h < |s.harts|
  {
    Distance(s.m, s.harts[h], RoleOf(s.boot, s.running, h))
  }

  /** The step that brings the awaited worker closer: the delivery of its IPI or a turn of its own. */
  function Helpful(s: State, h: nat, result: nat): Event
    requires h < |s.harts|
  {
    if NeedsDelivery(s.harts[h]) then Deliver(h) else WorkerRuns(h, result)
  }

  predicate Recovers(boot: BootPc) {
    boot.RecoverReady? || boot.RecoverAck?
  }

  /** After a send that failed, the boot hart waits for the READY of a worker that sleeps. */
  predicate LeftAsleep(s: State, h: nat)
    requires h < |s.harts|
  {
    s.boot.Wait? && s.boot.goal.Released? && s.harts[h].pc.Suspended?
  }

  /** A wait that need not end. */
  predicate Doomed(s: State, h: nat)
    requires h < |s.harts|
  {
    (Recovers(s.boot) && MissesWake(s.m, s.harts[h])) || (LeftAsleep(s, h) && s.m.error == 0)
  }

  lemma AwaitedFits(c: Config, s: State, h: nat)
    requires Inv(c, s) && Awaits(s.boot, h)
    ensures c.Worker(h) && h in s.running
    ensures Fits(c, h, s.m, s.harts[h], s.log.stale, RoleOf(s.boot, s.running, h))
  {
  }

  lemma NotDoomedIsSafe(c: Config, s: State, h: nat)
    requires Inv(c, s) && Awaits(s.boot, h) && h < c.smp && !Doomed(s, h)
    ensures Safe(s.m, s.harts[h], RoleOf(s.boot, s.running, h))
  {
    AwaitedFits(c, s, h);
  }

  /** No wake-up is lost: at distance zero the wait is over. */
  lemma NearMeansOver(c: Config, s: State, h: nat)
    requires Inv(c, s) && Awaits(s.boot, h)
    requires h < c.smp && DistanceOf(s, h) == 0 && !Doomed(s, h)
    ensures Over(s)
  {
    AwaitedFits(c, s, h);
  }

  /** While a wait is not over, the awaited worker has a step that brings it closer, whatever it returns. */
  lemma SomeoneHelps(c: Config, s: State, h: nat, result: nat)
    requires Inv(c, s) && Awaits(s.boot, h)
    requires h < c.smp && !Over(s) && !Doomed(s, h)
    ensures var s' := Next(c, s, Helpful(s, h, result));
            s'.boot == s.boot && DistanceOf(s', h) < DistanceOf(s, h)
  {
    AwaitedFits(c, s, h);
    NotDoomedIsSafe(c, s, h);
    if DistanceOf(s, h) == 0 { NearMeansOver(c, s, h); }
    var role := RoleOf(s.boot, s.running, h);
    if NeedsDelivery(s.harts[h]) {
      DeliveryShrinks(c, h, s.m, s.harts[h], s.log.stale, role);
    } else {
      StepShrinks(c, h, s.m, s.harts[h], result, s.log.stale, role);
    }
  }

  lemma OtherKeepsDistance(c: Config, s: State, g: nat, result: nat, h: nat)
    requires Inv(c, s) && Awaits(s.boot, h) && c.Worker(g) && g != h
    ensures var s' := WorkerNext(c, s, g, result);
            h < c.smp && DistanceOf(s', h) <= DistanceOf(s, h) && (!Doomed(s, h) ==> !Doomed(s', h))
  {
    AwaitedFits(c, s, h);
    var roleG := RoleOf(s.boot, s.running, g);
    var m' := WorkerStep(c, g, s.m, s.harts[g], result).0;
    assert Fits(c, g, s.m, s.harts[g], s.log.stale, roleG);
    StepUndisturbed(c, g, s.m, s.harts[g], result, s.log.stale, roleG);
    OneActs(c, s, g, h, m');
    if s.harts[g].pc.StoreStopError? { OrOne(s.harts[g].pc.error); }
  }

  lemma BootKeepsDistance(c: Config, s: State, ok: bool, h: nat)
    requires Inv(c, s) && Awaits(s.boot, h) && !Over(s)
    ensures var s' := BootNext(c, s, ok);
            Awaits(s'.boot, h) && h < c.smp && DistanceOf(s', h) == DistanceOf(s, h)
    ensures var s' := BootNext(c, s, ok); SameWait(s'.boot, s.boot) && (!Doomed(s, h) ==> !Doomed(s', h))
  {
    AwaitedFits(c, s, h);
  }

  /** The same wait, whichever of its two tests comes next. */
  predicate SameWait(a: BootPc, b: BootPc) {
    match a
    case Wait(goal, _) => b.Wait? && b.goal == goal
    case RecoverReady(h, kind, expected) => Recovers(b) && b.h == h && b.kind == kind && b.expected == expected
    case RecoverAck(h, kind, expected) => Recovers(b) && b.h == h && b.kind == kind && b.expected == expected
    case _ => false
  }

  lemma OwnStepHelps(c: Config, s: State, result: nat, h: nat)
    requires Inv(c, s) && Awaits(s.boot, h)
    requires h < c.smp && !Over(s) && !Doomed(s, h)
    ensures var s' := WorkerNext(c, s, h, result); DistanceOf(s', h) <= DistanceOf(s, h) && !Doomed(s', h)
  {
    AwaitedFits(c, s, h);
    NotDoomedIsSafe(c, s, h);
    StepNeverFurther(c, h, s.m, s.harts[h], result, s.log.stale, RoleOf(s.boot, s.running, h));
    if s.boot.Wait? && s.boot.goal.Released? { StaysAwake(c, s, result, h); }
  }

  lemma DeliveryHelps(c: Config, s: State, h: nat)
    requires Inv(c, s) && Awaits(s.boot, h)
    requires h < c.smp && !Over(s) && !Doomed(s, h)
    ensures var s' := DeliverNext(s, h); DistanceOf(s', h) <= DistanceOf(s, h) && !Doomed(s', h)
  {
    AwaitedFits(c, s, h);
    NotDoomedIsSafe(c, s, h);
    var role := RoleOf(s.boot, s.running, h);
    DeliveryKeepsSafe(c, h, s.m, s.harts[h], s.log.stale, role);
    if DistanceOf(s, h) == 0 { NearMeansOver(c, s, h); }
    DeliveryShrinks(c, h, s.m, s.harts[h], s.log.stale, role);
  }

  /** While a wait is not over, no step at all takes the awaited worker further away, or leaves the wait. */
  lemma NobodyHinders(c: Config, s: State, e: Event, h: nat)
    requires Inv(c, s) && Awaits(s.boot, h)
    requires h < c.smp && !Over(s) && !Doomed(s, h)
    ensures var s' := Next(c, s, e);
            && Awaits(s'.boot, h) && SameWait(s'.boot, s.boot)
            && DistanceOf(s', h) <= DistanceOf(s, h) && !Doomed(s', h)
  {
    AwaitedFits(c, s, h);
    match e
    case Begin(task) =>
    case BootRuns(ok) => BootKeepsDistance(c, s, ok, h);
    case WorkerRuns(g, result) =>
      if g == h { OwnStepHelps(c, s, result, h); } else if c.Worker(g) { OtherKeepsDistance(c, s, g, result, h); }
    case Deliver(g) => if g == h { DeliveryHelps(c, s, h); }
  }

  /** A worker that has answered does not fall asleep again while the boot hart waits for READY. */
  lemma StaysAwake(c: Config, s: State, result: nat, h: nat)
    requires Inv(c, s) && Awaits(s.boot, h) && h < c.smp && s.boot.Wait? && s.boot.goal.Released?
    ensures WorkerNext(c, s, h, result).harts[h].pc.Suspended? ==> s.harts[h].pc.Suspended?
  {
    AwaitedFits(c, s, h);
  }

  // ----- a wait that is over is left -----

  /** The boot hart has left the wait that it was in at `boot`, onwards or by an assertion that fails. */
  predicate Left(s: State, boot: BootPc) {
    s.aborted || !SameWait(s.boot, boot)
  }

  /** How many turns of its own the boot hart needs to leave a wait that is over. */
  function Patience(s: State): nat {
    match s.boot
    case Wait(goal, checking) =>
      if checking then (if s.m.error != 0 then 1 else 2)
      else if Reached(s.m, s.harts, goal) then 1
      else 2
    case RecoverReady(_, _, _) => 2
    case _ => 1
  }

  /** What ends a wait lasts: no step but one of the boot hart undoes it. */
  lemma OverStays(c: Config, s: State, e: Event, h: nat)
    requires Inv(c, s) && Awaits(s.boot, h) && Over(s) && !e.BootRuns?
    ensures var s' := Next(c, s, e);
            s'.boot == s.boot && s'.aborted == s.aborted && Over(s') && Patience(s') <= Patience(s)
  {
    AwaitedFits(c, s, h);
    match e
    case Begin(task) =>
    case WorkerRuns(g, result) => if c.Worker(g) { WorkerKeepsOver(c, s, g, result, h); }
    case Deliver(g) =>
  }

  /** A worker whose part is done leaves what the boot hart waits for as it is. */
  lemma OwnStepKeepsReached(c: Config, h: nat, m: Atomics, w: Hart, result: nat, stale: bool, goal: Goal)
    requires Fits(c, h, m, w, stale, GoalRole(goal, h)) && Awaits(Wait(goal, false), h)
    ensures var (m', w') := WorkerStep(c, h, m, w, result);
            && (goal.Online? && m.online == h + 1 ==> m'.online == h + 1)
            && (goal.Acked? && !goal.after.Recover? && m.ack == goal.expected && c.max > 0 ==> m'.ack == goal.expected)
            && (goal.Released? && m.command == READY ==> m'.command == READY)
            && (goal.Parked? && w.pc.Suspended? ==> w'.pc.Suspended?)
            && (goal.Halted? && w.pc.Stopped? ==> w'.pc.Stopped?)
            && (m.error != 0 ==> m'.error != 0)
  {
    if w.pc.StoreStopError? { OrOne(w.pc.error); }
  }

  lemma OwnStepKeepsRecovered(c: Config, h: nat, m: Atomics, w: Hart, result: nat, stale: bool, role: Role)
    requires Fits(c, h, m, w, stale, role) && role.Recovering? && c.max > 0
    requires m.command == READY && m.ack == role.expected
    ensures var (m', w') := WorkerStep(c, h, m, w, result); m'.command == READY && m'.ack == role.expected
  {
  }

  lemma WorkerKeepsOver(c: Config, s: State, g: nat, result: nat, h: nat)
    requires Inv(c, s) && Awaits(s.boot, h) && Over(s) && c.Worker(g)
    ensures var s' := WorkerNext(c, s, g, result); Over(s') && Patience(s') <= Patience(s)
  {
    AwaitedFits(c, s, h);
    if g == h {
      if s.boot.Wait? {
        OwnStepKeepsReached(c, h, s.m, s.harts[h], result, s.log.stale, s.boot.goal);
      } else {
        OwnStepKeepsRecovered(c, h, s.m, s.harts[h], result, s.log.stale, RoleOf(s.boot, s.running, h));
      }
    } else {
      var roleG := RoleOf(s.boot, s.running, g);
      var m' := WorkerStep(c, g, s.m, s.harts[g], result).0;
      assert Fits(c, g, s.m, s.harts[g], s.log.stale, roleG);
      StepUndisturbed(c, g, s.m, s.harts[g], result, s.log.stale, roleG);
      OneActs(c, s, g, h, m');
      if s.harts[g].pc.StoreStopError? { OrOne(s.harts[g].pc.error); }
    }
  }

  /** A turn of the boot hart in a wait that is over leaves it, or comes one turn closer to leaving. */
  lemma TurnLeaves(c: Config, s: State, ok: bool, h: nat)
    requires Inv(c, s) && Awaits(s.boot, h) && Over(s) && !s.aborted
    ensures var s' := BootNext(c, s, ok);
            Left(s', s.boot) || (Awaits(s'.boot, h) && Over(s') && Patience(s') < Patience(s))
  {
    AwaitedFits(c, s, h);
  }

  // ----- fair schedules -----

  /** At some point of the schedule the boot hart has left the wait. */
  predicate LeftDuring(c: Config, s: State, boot: BootPc, schedule: seq<Event>)
    requires Shaped(c, s)
    decreases |schedule|
  {
    Left(s, boot) || (schedule != [] && LeftDuring(c, Next(c, s, schedule[0]), boot, schedule[1..]))
  }

  predicate IsHelpful(s: State, h: nat, e: Event)
    requires h < |s.harts|
  {
    if NeedsDelivery(s.harts[h]) then e == Deliver(h) else e.WorkerRuns? && e.h == h
  }

  /** How often the schedule lets the awaited hart take the step that is its turn. */
  function Helps(c: Config, s: State, schedule: seq<Event>, h: nat): nat
    requires Shaped(c, s) && h < c.smp
    decreases |schedule|
  {
    if schedule == [] then 0
    else (if IsHelpful(s, h, schedule[0]) then 1 else 0) + Helps(c, Next(c, s, schedule[0]), schedule[1..], h)
  }

  function BootTurns(schedule: seq<Event>): nat {
    if schedule == [] then 0
    else (if schedule[0].BootRuns? then 1 else 0) + BootTurns(schedule[1..])
  }

  lemma {:induction false} SameWaitSymmetric(a: BootPc, b: BootPc)
    requires SameWait(a, b)
    ensures SameWait(b, a)
    ensures forall d :: SameWait(d, a) <==> SameWait(d, b)
  {
  }

  /** Two turns of the boot hart leave a wait that is over, whatever runs in between. */
  lemma {:induction false} OverIsLeft(c: Config, s: State, boot: BootPc, schedule: seq<Event>, h: nat)
    requires Inv(c, s) && Awaits(s.boot, h) && Over(s) && SameWait(s.boot, boot)
    requires BootTurns(schedule) >= Patience(s)
    ensures LeftDuring(c, s, boot, schedule)
    decreases |schedule|
  {
    if !s.aborted && schedule != [] {
      var e := schedule[0];
      NextKeeps(c, s, e);
      SameWaitSymmetric(s.boot, boot);
      if e.BootRuns? {
        TurnLeaves(c, s, e.ok, h);
      } else {
        OverStays(c, s, e, h);
      }
      if !Left(Next(c, s, e), boot) {
        AwaitedFits(c, s, h);
        OverIsLeft(c, Next(c, s, e), boot, schedule[1..], h);
      }
    }
  }

  lemma {:induction false} BootTurnsOfSum(a: seq<Event>, b: seq<Event>)
    ensures BootTurns(a + b) == BootTurns(a) + BootTurns(b)
  {
    if a == [] {
      assert a + b == b;
    } else {
      assert (a + b)[1..] == a[1..] + b;
      BootTurnsOfSum(a[1..], b);
    }
  }

  lemma {:induction false} HelpedIsLeft(c: Config, s: State, boot: BootPc, first: seq<Event>, second: seq<Event>, h: nat)
    requires Inv(c, s) && h < c.smp && Awaits(s.boot, h) && !Doomed(s, h) && SameWait(s.boot, boot)
    requires Helps(c, s, first, h) >= DistanceOf(s, h) && BootTurns(second) >= 2
    ensures LeftDuring(c, s, boot, first + second)
    decreases |first|
  {
    BootTurnsOfSum(first, second);
    if DistanceOf(s, h) == 0 { NearMeansOver(c, s, h); }
    if Over(s) {
      OverIsLeft(c, s, boot, first + second, h);
    } else {
      var e := first[0];
      assert (first + second)[1..] == first[1..] + second;
      NextKeeps(c, s, e);
      NobodyHinders(c, s, e, h);
      SameWaitSymmetric(s.boot, boot);
      if IsHelpful(s, h, e) { SomeoneHelps(c, s, h, if e.WorkerRuns? then e.result else 0); }
      HelpedIsLeft(c, Next(c, s, e), boot, first[1..], second, h);
    }
  }

  lemma DistanceBounded(c: Config, s: State, h: nat)
    requires Inv(c, s) && Awaits(s.boot, h)
    ensures h < c.smp && DistanceOf(s, h) <= 26
  {
    AwaitedFits(c, s, h);
  }

  /**
   From any reachable wait that is not doomed, the boot hart leaves the wait in every schedule that gives
   the awaited hart twenty-six of its turns and then the boot hart two, whatever SBI calls return and
   whatever runs in between.
   */
  lemma WaitsEnd(c: Config, start: State, before: seq<Event>, first: seq<Event>, second: seq<Event>, h: nat)
    requires c.Valid() && IsInitial(c, start) && h < c.smp
    requires var s := Run(c, start, before);
             Awaits(s.boot, h) && !Doomed(s, h) && Helps(c, s, first, h) >= 26 && BootTurns(second) >= 2
    ensures var s := Run(c, start, before); LeftDuring(c, s, s.boot, first + second)
  {
    Reachable(c, start, before);
    var s := Run(c, start, before);
    DistanceBounded(c, s, h);
    HelpedIsLeft(c, s, s.boot, first, second, h);
  }

  // ----- exactly which waits can last for good -----

  /** After some schedule, no continuation whatever makes the boot hart leave the wait. */
  ghost predicate CanHang(c: Config, s: State)
    requires Shaped(c, s)
  {
    exists schedule: seq<Event> :: Hangs(c, s, schedule)
  }

  ghost predicate Hangs(c: Config, s: State, schedule: seq<Event>)
    requires Shaped(c, s)
  {
    forall more: seq<Event> :: !LeftDuring(c, s, s.boot, schedule + more)
  }

  /** The worker sleeps, no IPI is on its way, and what the boot hart waits for is that it wakes. */
  predicate Stuck(s: State, h: nat) {
    && !s.aborted && h < |s.harts| && Awaits(s.boot, h)
    && s.harts[h].pc.Suspended? && !s.harts[h].inflight && SuspendCommand(s.m.command)
    && (Recovers(s.boot) || (LeftAsleep(s, h) && s.m.error == 0))
  }

  lemma StuckStays(c: Config, s: State, e: Event, h: nat)
    requires Inv(c, s) && Stuck(s, h)
    ensures var s' := Next(c, s, e); Stuck(s', h) && SameWait(s'.boot, s.boot)
  {
    AwaitedFits(c, s, h);
    if e.WorkerRuns? && c.Worker(e.h) && e.h != h {
      assert Fits(c, e.h, s.m, s.harts[e.h], s.log.stale, RoleOf(s.boot, s.running, e.h));
    }
  }

  lemma {:induction false} StuckForever(c: Config, s: State, boot: BootPc, schedule: seq<Event>, h: nat)
    requires Inv(c, s) && Stuck(s, h) && SameWait(s.boot, boot)
    ensures !LeftDuring(c, s, boot, schedule)
    decreases |schedule|
  {
    if schedule != [] {
      NextKeeps(c, s, schedule[0]);
      StuckStays(c, s, schedule[0], h);
      SameWaitSymmetric(s.boot, boot);
      StuckForever(c, Next(c, s, schedule[0]), boot, schedule[1..], h);
    }
  }

  /** Steps to sleep with no IPI on its way, for a worker that misses its wake-up. */
  function ToSleep(w: Hart): nat {
    (if w.inflight then 10 else 0)
    + match w.pc
      case Poll => if w.ssip then 8 else 6
      case ClearSip => 7
      case AddAck => 6
      case LoadCommand => 5
      case Reload(_) => 4
      case CallSuspend(_, _) => 3
      case SuspendPending(_) => 2
      case _ => 0
  }

  /** The IPI comes as early as it can, and the suspend call succeeds. */
  function Drowsy(s: State, h: nat): Event
    requires h < |s.harts|
  {
    if s.harts[h].inflight then Deliver(h) else WorkerRuns(h, 0)
  }

  lemma DrowsyStep(c: Config, s: State, h: nat)
    requires Inv(c, s) && Awaits(s.boot, h) && Recovers(s.boot) && !s.aborted && h < c.smp
    requires MissesWake(s.m, s.harts[h]) && !Stuck(s, h)
    ensures var s' := Next(c, s, Drowsy(s, h));
            && s'.boot == s.boot && !s'.aborted && MissesWake(s'.m, s'.harts[h])
            && ToSleep(s'.harts[h]) < ToSleep(s.harts[h])
  {
    AwaitedFits(c, s, h);
  }

  lemma {:induction false} FallsAsleep(c: Config, s: State, h: nat) returns (schedule: seq<Event>)
    requires Inv(c, s) && Awaits(s.boot, h) && h < c.smp && Doomed(s, h) && !s.aborted
    ensures Hangs(c, s, schedule)
    decreases ToSleep(s.harts[h])
  {
    AwaitedFits(c, s, h);
    if Stuck(s, h) {
      schedule := [];
      forall more: seq<Event> ensures !LeftDuring(c, s, s.boot, schedule + more) {
        StuckForever(c, s, s.boot, schedule + more, h);
      }
    } else {
      var e := Drowsy(s, h);
      DrowsyStep(c, s, h);
      NextKeeps(c, s, e);
      var rest := FallsAsleep(c, Next(c, s, e), h);
      schedule := [e] + rest;
      forall more: seq<Event> ensures !LeftDuring(c, s, s.boot, schedule + more) {
        assert (schedule + more)[1..] == rest + more;
        assert !LeftDuring(c, Next(c, s, e), s.boot, rest + more);
      }
    }
  }

  /** A wait that is not doomed can be left, after any schedule that has not left it. */
  lemma {:induction false} CanLeave(c: Config, s: State, boot: BootPc, h: nat) returns (more: seq<Event>)
    requires Inv(c, s) && Awaits(s.boot, h) && h < c.smp && !Doomed(s, h) && SameWait(s.boot, boot)
    ensures LeftDuring(c, s, boot, more)
    decreases DistanceOf(s, h), if Over(s) then 0 else 1
  {
    if Over(s) {
      more := [BootRuns(true), BootRuns(true)];
      assert more[1..] == [BootRuns(true)] && more[1..][1..] == [];
      OverIsLeft(c, s, boot, more, h);
    } else {
      var e := Helpful(s, h, 0);
      NextKeeps(c, s, e);
      SomeoneHelps(c, s, h, 0);
      NobodyHinders(c, s, e, h);
      var rest := CanLeave(c, Next(c, s, e), boot, h);
      more := [e] + rest;
      assert more[1..] == rest;
    }
  }

  lemma {:induction false} AlwaysLeaves(c: Config, s: State, boot: BootPc, h: nat, schedule: seq<Event>)
    returns (more: seq<Event>)
    requires Inv(c, s) && Awaits(s.boot, h) && h < c.smp && !Doomed(s, h) && SameWait(s.boot, boot)
    ensures LeftDuring(c, s, boot, schedule + more)
    decreases |schedule|
  {
    if schedule == [] || Over(s) {
      more := CanLeave(c, s, boot, h);
      assert schedule == [] ==> schedule + more == more;
      if Over(s) {
        more := [BootRuns(true), BootRuns(true)];
        assert more[1..] == [BootRuns(true)] && more[1..][1..] == [];
        BootTurnsOfSum(schedule, more);
        OverIsLeft(c, s, boot, schedule + more, h);
      }
    } else {
      var e := schedule[0];
      NextKeeps(c, s, e);
      NobodyHinders(c, s, e, h);
      SameWaitSymmetric(s.boot, boot);
      more := AlwaysLeaves(c, Next(c, s, e), boot, h, schedule[1..]);
      assert (schedule + more)[1..] == schedule[1..] + more;
    }
  }

  /**
   Exactly when a reachable wait can last for good: the boot hart recovers from a suspend that has not
   failed, so that the IPI can miss the worker's sleep or has missed it, or a send has failed and left
   the worker asleep while ERROR is clear.
   */
  lemma CanHangIffDoomed(c: Config, start: State, before: seq<Event>, h: nat)
    requires c.Valid() && IsInitial(c, start)
    requires Awaits(Run(c, start, before).boot, h) && !Run(c, start, before).aborted
    ensures h < c.smp && (CanHang(c, Run(c, start, before)) <==> Doomed(Run(c, start, before), h))
  {
    Reachable(c, start, before);
    var s := Run(c, start, before);
    AwaitedFits(c, s, h);
    if Doomed(s, h) {
      var schedule := FallsAsleep(c, s, h);
    } else {
      forall schedule: seq<Event> ensures !Hangs(c, s, schedule) {
        var more := AlwaysLeaves(c, s, s.boot, h, schedule);
      }
    }
  }

  /**
   What has happened before every such wait: ERROR was already set when the suspend command was stored,
   or the last SEND_IPI has failed.
   */
  lemma DoomedHasCause(c: Config, start: State, before: seq<Event>, h: nat)
    requires c.Valid() && IsInitial(c, start)
    requires var s := Run(c, start, before); Awaits(s.boot, h) && h < |s.harts| && Doomed(s, h)
    ensures var s := Run(c, start, before);
            if Recovers(s.boot) then s.log.stale else s.log.unsent && s.m.error == 0
  {
    Reachable(c, start, before);
    AwaitedFits(c, Run(c, start, before), h);
  }

  lemma Then(c: Config, s: State, before: seq<Event>, e: Event) returns (schedule: seq<Event>)
    requires Shaped(c, s)
    ensures Run(c, s, schedule) == Next(c, Run(c, s, before), e)
  {
    schedule := before + [e];
    assert schedule[..|before|] == before;
  }

  /**
   Which send of an IPI begins a wait that can last for good, said of the state before it: a measured send
   that fails while ERROR is clear, or the recovery send while the worker has yet to suspend.
   */
  lemma SendDoomsIff(c: Config, start: State, before: seq<Event>, h: nat, expected: nat, after: After, ok: bool)
    requires c.Valid() && IsInitial(c, start)
    requires Run(c, start, before).boot == SendIpi(h, expected, after) && !Run(c, start, before).aborted
    ensures var s := Run(c, start, before);
            var t := Next(c, s, BootRuns(ok));
            h < c.smp && (!t.aborted && Awaits(t.boot, h) && CanHang(c, t) <==> SendDooms(s, h, after, ok))
  {
    Reachable(c, start, before);
    var s := Run(c, start, before);
    assert Fits(c, h, s.m, s.harts[h], s.log.stale, RoleOf(s.boot, s.running, h));
    var schedule := Then(c, start, before, BootRuns(ok));
    var t := Run(c, start, schedule);
    if !t.aborted && Awaits(t.boot, h) { CanHangIffDoomed(c, start, schedule, h); }
  }

  predicate SendDooms(s: State, h: nat, after: After, ok: bool)
    requires h < |s.harts|
  {
    if ok then
      var pc := s.harts[h].pc;
      after.Recover? && s.m.command != READY && (Listening(pc) || pc.Reload? || pc.CallSuspend?)
    else after.Release? && !after.probing && s.m.error == 0
  }

  // ----- the two causes lead there -----

  /** A measured send that fails, with ERROR clear, leaves the worker asleep and the boot hart waiting. */
  lemma FailedSendLeavesAsleep(c: Config, s: State, h: nat, expected: nat, kind: nat)
    requires Inv(c, s) && !s.aborted && s.boot == SendIpi(h, expected, Release(kind, false)) && s.m.error == 0
    ensures var t := Next(c, s, BootRuns(false));
            Awaits(t.boot, h) && h < c.smp && LeftAsleep(t, h) && CanHang(c, t)
  {
    assert Fits(c, h, s.m, s.harts[h], s.log.stale, RoleOf(s.boot, s.running, h));
    var t := Next(c, s, BootRuns(false));
    NextKeeps(c, s, BootRuns(false));
    var schedule := FallsAsleep(c, t, h);
  }

  /** While ERROR stays clear, a worker left asleep sleeps on, whatever runs. */
  lemma {:induction false} LeftAsleepForever(c: Config, s: State, schedule: seq<Event>, h: nat)
    requires Inv(c, s) && !s.aborted && h < c.smp && Awaits(s.boot, h) && LeftAsleep(s, h) && s.m.error == 0
    ensures var t := Run(c, s, schedule); LeftAsleep(t, h) && t.m.error == 0 && SameWait(t.boot, s.boot)
  {
    AwaitedFits(c, s, h);
    if schedule != [] {
      var last := |schedule| - 1;
      LeftAsleepForever(c, s, schedule[..last], h);
      var t := Run(c, s, schedule[..last]);
      RunKeeps(c, s, schedule[..last]);
      StuckRun(c, s, schedule[..last], h);
      StuckStays(c, t, schedule[last], h);
      SameWaitSymmetric(t.boot, s.boot);
    }
  }

  lemma {:induction false} StuckRun(c: Config, s: State, schedule: seq<Event>, h: nat)
    requires Inv(c, s) && Stuck(s, h)
    ensures Stuck(Run(c, s, schedule), h)
  {
    if schedule != [] {
      var last := |schedule| - 1;
      RunKeeps(c, s, schedule[..last]);
      StuckRun(c, s, schedule[..last], h);
      StuckStays(c, Run(c, s, schedule[..last]), schedule[last], h);
    }
  }

  /** The old ERROR is taken for a failed suspend: the boot hart sets out to recover at once. */
  lemma Mistake(c: Config, s: State, h: nat, kind: nat) returns (p: seq<Event>)
    requires c.Worker(h) && Shaped(c, s) && !s.aborted && s.m.error != 0
    requires s.boot == SetCommand(h, kind, true) && !s.harts[h].pc.Suspended?
    ensures Run(c, s, p) == s.(boot := SendIpi(h, Wrap(c, s.m.ack), Recover(kind)), m := s.m.(command := kind),
                               log := s.log.(mark := s.log.acks, loaded := s.m.ack, stale := true))
  {
    p := Then(c, s, [], BootRuns(true));
    p := Then(c, s, p, BootRuns(true));
    p := Then(c, s, p, BootRuns(true));
    p := Then(c, s, p, BootRuns(true));
  }

  lemma SentTooEarly(c: Config, s: State, h: nat, expected: nat, kind: nat)
    requires Inv(c, s) && !s.aborted && s.boot == SendIpi(h, expected, Recover(kind)) && h < c.smp
    requires s.m.command == kind && Listening(s.harts[h].pc)
    ensures var t := Next(c, s, BootRuns(true));
            Awaits(t.boot, h) && Recovers(t.boot) && !t.aborted && Doomed(t, h)
  {
    assert Fits(c, h, s.m, s.harts[h], s.log.stale, RoleOf(s.boot, s.running, h));
  }

  /**
   With ERROR set when `suspend_supported` stores its command, five turns of the boot hart take the old
   error for a failed suspend and send the recovery IPI while the worker still polls: a doomed wait.
   */
  lemma OldErrorDooms(c: Config, s: State, h: nat, kind: nat) returns (schedule: seq<Event>)
    requires Inv(c, s) && !s.aborted && s.boot == SetCommand(h, kind, true) && s.m.error != 0
    ensures var t := Run(c, s, schedule); Awaits(t.boot, h) && Recovers(t.boot) && CanHang(c, t)
  {
    assert c.Worker(h) && Fits(c, h, s.m, s.harts[h], s.log.stale, Resting);
    var p := Mistake(c, s, h, kind);
    RunKeeps(c, s, p);
    SentTooEarly(c, Run(c, s, p), h, Wrap(c, s.m.ack), kind);
    schedule := Then(c, s, p, BootRuns(true));
    RunKeeps(c, s, schedule);
    var rest := FallsAsleep(c, Run(c, s, schedule), h);
  }

  // ----- both happen from power-on -----

  lemma {:induction false} RunAppend(c: Config, s: State, a: seq<Event>, b: seq<Event>)
    requires Shaped(c, s)
    ensures Run(c, s, a + b) == Run(c, Run(c, s, a), b)
  {
    if b == [] {
      assert a + b == a;
    } else {
      var last := |b| - 1;
      assert (a + b)[..|a + b| - 1] == a + b[..last];
      RunAppend(c, s, a, b[..last]);
    }
  }

  /** Two harts, hart 0 boots, hart 1 works. */
  function Pair(boot: BootPc, running: set<nat>, m: Atomics, pc: WorkerPc, log: History): State {
    State(boot, false, running, m, [Hart(Stopped, false, false), Hart(pc, false, false)], log)
  }

  /** A turn of the worker of a pair. */
  lemma Turn(c: Config, s: State, before: seq<Event>, boot: BootPc, running: set<nat>, m: Atomics, pc: WorkerPc,
             log: History, result: nat) returns (p: seq<Event>)
    requires c == Config(2, 0, c.max) && |log.acks| == |log.mark| == 2 && Shaped(c, s)
    requires !pc.AddAck? && !pc.ClearSip?
    requires Run(c, s, before) == Pair(boot, running, m, pc, log)
    ensures var (m', w) := WorkerStep(c, 1, m, Hart(pc, false, false), result);
            Run(c, s, p) == Pair(boot, running, m', w.pc, log)
  {
    p := Then(c, s, before, WorkerRuns(1, result));
  }

  /** Starting the worker; the boot hart finds it online and does not look at ERROR. */
  lemma StartRun(c: Config, log: History, m: Atomics) returns (p: seq<Event>)
    requires c == Config(2, 0, c.max) && c.Valid() && |log.acks| == |log.mark| == 2
    ensures Run(c, Pair(Idle, {}, m, Stopped, log), p) == Pair(Idle, {1}, m.(command := READY, online := 2), Poll, log)
  {
    var s := Pair(Idle, {}, m, Stopped, log);
    p := Then(c, s, [], Begin(Start(1)));
    p := Then(c, s, p, BootRuns(true));
    p := Then(c, s, p, BootRuns(true));
    var m' := m.(command := READY, online := 0);
    assert Run(c, s, p) == Pair(HartStart(1), {}, m', Stopped, log);
    p := Then(c, s, p, BootRuns(true));
    p := Then(c, s, p, WorkerRuns(1, 0));
    assert Run(c, s, p) == Pair(Wait(Online(1), false), {1}, m', StoreOnline, log);
    p := Then(c, s, p, WorkerRuns(1, 0));
    p := Then(c, s, p, BootRuns(true));
    assert Run(c, s, p) == Pair(Idle, {1}, m.(command := READY, online := 2), Poll, log);
  }

  /** A worker that polls is told to stop, and HART_STOP fails. */
  lemma StopFails(c: Config, s: State, before: seq<Event>, boot: BootPc, log: History, m: Atomics)
    returns (p: seq<Event>)
    requires c == Config(2, 0, c.max) && |log.acks| == |log.mark| == 2 && Shaped(c, s)
    requires m.command == STOP && Run(c, s, before) == Pair(boot, {1}, m, Poll, log)
    ensures Run(c, s, p) == Pair(boot, {1}, m.(error := Or(1, 1)), Poll, log)
  {
    p := Turn(c, s, before, boot, {1}, m, Poll, log, 0);
    p := Turn(c, s, p, boot, {1}, m, LoadCommand, log, 0);
    p := Turn(c, s, p, boot, {1}, m, CallStop, log, 1);
    p := Turn(c, s, p, boot, {1}, m, StoreStopError(1), log, 0);
  }

  /** It polls again, and HART_STOP succeeds. */
  lemma StopSucceeds(c: Config, s: State, before: seq<Event>, boot: BootPc, log: History, m: Atomics)
    returns (p: seq<Event>)
    requires c == Config(2, 0, c.max) && |log.acks| == |log.mark| == 2 && Shaped(c, s)
    requires m.command == STOP && Run(c, s, before) == Pair(boot, {1}, m, Poll, log)
    ensures Run(c, s, p) == Pair(boot, {1}, m, Stopped, log)
  {
    p := Turn(c, s, before, boot, {1}, m, Poll, log, 0);
    p := Turn(c, s, p, boot, {1}, m, LoadCommand, log, 0);
    p := Turn(c, s, p, boot, {1}, m, CallStop, log, 0);
    p := Turn(c, s, p, boot, {1}, m, StopPending, log, 0);
  }

  /** Both happen before the boot hart looks at ERROR. */
  lemma StopRun(c: Config, log: History, m: Atomics) returns (p: seq<Event>)
    requires c == Config(2, 0, c.max) && c.Valid() && |log.acks| == |log.mark| == 2
    ensures Run(c, Pair(Idle, {1}, m, Poll, log), p)
         == Pair(Idle, {}, m.(command := STOP, error := Or(1, 1)), Stopped, log)
  {
    var s := Pair(Idle, {1}, m, Poll, log);
    var boot := Wait(Halted([1]), false);
    p := StopBegins(c, log, m);
    p := StopFails(c, s, p, boot, log, m.(command := STOP));
    p := StopSucceeds(c, s, p, boot, log, m.(command := STOP, error := Or(1, 1)));
    p := StopEnds(c, s, p, log, m.(command := STOP, error := Or(1, 1)));
  }

  lemma StopBegins(c: Config, log: History, m: Atomics) returns (p: seq<Event>)
    requires c == Config(2, 0, c.max) && c.Valid() && |log.acks| == |log.mark| == 2
    ensures Run(c, Pair(Idle, {1}, m, Poll, log), p)
         == Pair(Wait(Halted([1]), false), {1}, m.(command := STOP), Poll, log)
  {
    var s := Pair(Idle, {1}, m, Poll, log);
    p := Then(c, s, [], Begin(Stop([1])));
    p := Then(c, s, p, BootRuns(true));
  }

  /** The boot hart finds the worker stopped. */
  lemma StopEnds(c: Config, s: State, before: seq<Event>, log: History, m: Atomics) returns (p: seq<Event>)
    requires c == Config(2, 0, c.max) && c.Valid() && |log.acks| == |log.mark| == 2 && Shaped(c, s)
    requires Run(c, s, before) == Pair(Wait(Halted([1]), false), {1}, m, Stopped, log)
    ensures Run(c, s, p) == Pair(Idle, {}, m, Stopped, log)
  {
    p := Then(c, s, before, BootRuns(true));
  }

  /** HART_STOP fails once and then succeeds: the next worker starts, and its suspend finds ERROR set. */
  lemma OldErrorHappens(c: Config) returns (schedule: seq<Event>, s: State)
    requires c == Config(2, 0, c.max) && c.Valid()
    ensures IsInitial(c, s)
    ensures var t := Run(c, s, schedule); Awaits(t.boot, 1) && Recovers(t.boot) && CanHang(c, t)
  {
    var log := History([0, 0], [0, 0], 0, false, false);
    var m := Atomics(0, 0, 0, 0);
    s := Pair(Idle, {}, m, Stopped, log);
    var p := StartRun(c, log, m);
    var q := StopRun(c, log, m.(command := READY, online := 2));
    RunAppend(c, s, p, q);
    var m' := Atomics(STOP, 2, 0, Or(1, 1));
    var r := StartRun(c, log, m');
    RunAppend(c, s, p + q, r);
    OrOne(1);
    r := Then(c, s, p + q + r, Begin(Suspend(1, RETENTIVE, true)));
    assert Run(c, s, r).boot == SetCommand(1, RETENTIVE, true);
    InitialInv(c, s);
    RunKeeps(c, s, r);
    var t := OldErrorDooms(c, Run(c, s, r), 1, RETENTIVE);
    RunAppend(c, s, r, t);
    schedule := r + t;
  }

  /** The worker of a pair obeys a suspend command. */
  lemma SleepRun(c: Config, s: State, before: seq<Event>, boot: BootPc, log: History, m: Atomics)
    returns (p: seq<Event>)
    requires c == Config(2, 0, c.max) && |log.acks| == |log.mark| == 2 && Shaped(c, s)
    requires m.command == RETENTIVE && Run(c, s, before) == Pair(boot, {1}, m, Poll, log)
    ensures Run(c, s, p) == Pair(boot, {1}, m, Suspended(RETENTIVE), log)
  {
    p := Turn(c, s, before, boot, {1}, m, Poll, log, 0);
    p := Turn(c, s, p, boot, {1}, m, LoadCommand, log, 0);
    p := Turn(c, s, p, boot, {1}, m, Reload(RETENTIVE), log, 0);
    p := Turn(c, s, p, boot, {1}, m, CallSuspend(RETENTIVE, RETENTIVE), log, 0);
    p := Turn(c, s, p, boot, {1}, m, SuspendPending(RETENTIVE), log, 0);
  }

  /** The worker is told to suspend for a measured sample, and does. */
  lemma SampleRun(c: Config, log: History, m: Atomics) returns (p: seq<Event>)
    requires c == Config(2, 0, c.max) && c.Valid() && |log.acks| == |log.mark| == 2 && m.error == 0
    ensures var t := Run(c, Pair(Idle, {1}, m, Poll, log), p);
            t.boot.SendIpi? && t.boot.h == 1 && t.boot.after == Release(RETENTIVE, false) && !t.aborted && t.m.error == 0
  {
    var s := Pair(Idle, {1}, m, Poll, log);
    p := Then(c, s, [], Begin(Suspend(1, RETENTIVE, false)));
    p := Then(c, s, p, BootRuns(true));
    p := SleepRun(c, s, p, Wait(Parked(1, RETENTIVE, false), false), log.(stale := false), m.(command := RETENTIVE));
    p := Then(c, s, p, BootRuns(true));
    p := Then(c, s, p, BootRuns(true));
  }

  /** A measured sample whose SEND_IPI fails, with ERROR clear all along. */
  lemma FailedSendHappens(c: Config) returns (schedule: seq<Event>, s: State)
    requires c == Config(2, 0, c.max) && c.Valid()
    ensures IsInitial(c, s)
    ensures var t := Run(c, s, schedule); Awaits(t.boot, 1) && LeftAsleep(t, 1) && CanHang(c, t)
  {
    var log := History([0, 0], [0, 0], 0, false, false);
    var m := Atomics(0, 0, 0, 0);
    s := Pair(Idle, {}, m, Stopped, log);
    var p := StartRun(c, log, m);
    var q := SampleRun(c, log, m.(command := READY, online := 2));
    RunAppend(c, s, p, q);
    InitialInv(c, s);
    RunKeeps(c, s, p + q);
    var t := Run(c, s, p + q);
    FailedSendLeavesAsleep(c, t, 1, t.boot.expected, RETENTIVE);
    schedule := Then(c, s, p + q, BootRuns(false));
  }
}
