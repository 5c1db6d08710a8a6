/**
 The command/acknowledge handshake of the Linux-like workload (firmware/bench-kernel/src/linux.rs)
 as a state machine: one boot hart issues commands to worker harts over the atomics COMMAND, ONLINE,
 ACK and ERROR, with one transition for each access to them, each SBI call, each HSM state change and
 each delivered interrupt. Atomics are sequentially consistent, timeouts never fire, and an IPI wakes
 a hart only while that hart is SUSPENDED.
 */
module WorkerHandshake {
  import opened Bits
  import opened Helpers

  const READY: nat := 1
  const STOP: nat := 2
  const RETENTIVE: nat := 3
  const NON_RETENTIVE: nat := 4

  /** Harts `0..smp`, the boot hart among them; `max` is `usize::MAX`. */
  datatype Config = Config(smp: nat, boot: nat, max: nat) {
    predicate Valid() {
      boot < smp < max
    }

    predicate Worker(h: nat) {
      h < smp && h != boot
    }
  }

  predicate SuspendCommand(kind: nat) {
    kind == RETENTIVE || kind == NON_RETENTIVE
  }

  /** `wrapping_add(1)` */
  function Wrap(c: Config, n: nat): nat {
    if n >= c.max then 0 else n + 1
  }

  /** Where a worker hart is in `worker` and `resumed`, or in the firmware below them. */
  datatype WorkerPc =
    | Stopped
    | StartPending
    | StoreOnline                            // ONLINE.store(hart + 1)
    | Poll                                   // read sip
    | ClearSip                               // csrci sip, 2
    | AddAck                                 // ACK.fetch_add(1)
    | LoadCommand                            // match COMMAND.load()
    | CallStop                               // HART_STOP
    | StopPending
    | StoreStopError(error: nat)             // ERROR.store(ret.error | 1)
    | Reload(first: nat)                     // kind = COMMAND.load(), after the match saw `first`
    | CallSuspend(first: nat, kind: nat)     // HART_SUSPEND of that kind
    | SuspendPending(kind: nat)
    | Suspended(kind: nat)
    | ResumePending(kind: nat)
    | StoreError(kind: nat, error: nat)      // ERROR.store(ret.error)
    | StoreReady(kind: nat, cold: bool)      // COMMAND.store(READY), in `resumed` when cold

  /** What the boot hart does once `send_and_ack` has returned. */
  datatype After =
    | Return
    | Release(kind: nat, probing: bool)      // wait for COMMAND == READY
    | Recover(kind: nat)                     // suspend_supported found no suspended state

  /** What a `wait` of the boot hart waits for. */
  datatype Goal =
    | Online(h: nat)                                // ONLINE == h + 1
    | Acked(h: nat, expected: nat, after: After)    // ACK == expected
    | Released(h: nat, kind: nat)                   // COMMAND == READY
    | Parked(h: nat, kind: nat, probing: bool)      // hart h reports SUSPENDED
    | Halted(pending: seq<nat>)                     // the first of these harts reports STOPPED

  datatype BootPc =
    | Idle
    | ClearOnline(h: nat)                           // ONLINE.store(0)
    | SetReady(h: nat)                              // COMMAND.store(READY)
    | HartStart(h: nat)                             // HART_START
    | SetCommand(h: nat, kind: nat, probing: bool)  // COMMAND.store(kind)
    | SetStop(pending: seq<nat>)                    // COMMAND.store(STOP)
    | LoadAck(h: nat, after: After)                 // expected = ACK.load() + 1
    | SendIpi(h: nat, expected: nat, after: After)  // SEND_IPI
    | Wait(goal: Goal, checking: bool)              // checking: about to read ERROR
    | RecoverReady(h: nat, kind: nat, expected: nat) // until COMMAND == READY ...
    | RecoverAck(h: nat, kind: nat, expected: nat)   // ... and ACK == expected
    | SwapError                                     // ERROR.swap(0)

  /** What `run` asks for when the boot hart is between two operations. */
  datatype Task =
    | Start(h: nat)
    | Send(h: nat)
    | Suspend(h: nat, kind: nat, probing: bool)
    | Stop(pending: seq<nat>)

  /** COMMAND, ONLINE, ACK and ERROR. */
  datatype Atomics = Atomics(command: nat, online: nat, ack: nat, error: nat)

  /** One hart: where it is, whether an IPI is on its way to it, and its pending bit `sip.SSIP`. */
  datatype Hart = Hart(pc: WorkerPc, inflight: bool, ssip: bool)

  /**
   No transition reads the history: `acks[h]` counts the acknowledgements of hart `h`; `mark` and
   `loaded` are `acks` and ACK as they were when the boot hart last loaded ACK; `stale` says whether
   ERROR was set when the last suspend command was stored, and `unsent` whether the last SEND_IPI failed.
   */
  datatype History = History(acks: seq<nat>, mark: seq<nat>, loaded: nat, stale: bool, unsent: bool)

  /**
   `running` is the set of workers that `run` has started and not stopped; `aborted` means that an
   assertion of the boot hart has failed.
   */
  datatype State = State(boot: BootPc, aborted: bool, running: set<nat>, m: Atomics, harts: seq<Hart>,
                         log: History)

  datatype Event =
    | Begin(task: Task)
    | BootRuns(ok: bool)                     // ok: the SBI call made by this step, if any, succeeds
    | WorkerRuns(h: nat, result: nat)        // the error code of the SBI call made by this step, if any
    | Deliver(h: nat)

  predicate Shaped(c: Config, s: State) {
    |s.harts| == |s.log.acks| == |s.log.mark| == c.smp
  }

  // ----- transitions of a worker -----

  /** One step of worker `h`, on the atomics and on its own state. */
  function WorkerStep(c: Config, h: nat, m: Atomics, w: Hart, result: nat): (Atomics, Hart) {
    match w.pc
    case Stopped => (m, w)
    case StartPending => (m, w.(pc := StoreOnline))
    case StoreOnline => (m.(online := h + 1), w.(pc := Poll))
    case Poll => (m, w.(pc := if w.ssip then ClearSip else LoadCommand))
    case ClearSip => (m, w.(ssip := false, pc := AddAck))
    case AddAck => (m.(ack := Wrap(c, m.ack)), w.(pc := LoadCommand))
    case LoadCommand =>
      (m, w.(pc := if m.command == STOP then CallStop
                   else if SuspendCommand(m.command) then Reload(m.command)
                   else Poll))
    case CallStop => (m, w.(pc := if result == 0 then StopPending else StoreStopError(result)))
    case StopPending => (m, w.(pc := Stopped))
    case StoreStopError(error) => (m.(error := Or(error, 1)), w.(pc := Poll))
    case Reload(first) => (m, w.(pc := CallSuspend(first, m.command)))
    case CallSuspend(_, kind) =>
      (m, w.(pc := if result == 0 then SuspendPending(kind) else StoreError(kind, result)))
    case SuspendPending(kind) => (m, w.(pc := Suspended(kind)))
    case Suspended(kind) => (m, w)
    case ResumePending(kind) => (m, w.(pc := StoreReady(kind, kind != RETENTIVE)))
    case StoreError(kind, error) => (m.(error := error), w.(pc := StoreReady(kind, false)))
    case StoreReady(_, cold) => (m.(command := READY), w.(pc := if cold then StoreOnline else Poll))
  }

  /**
   The IPI reaches the hart: it becomes pending there, and a suspended hart starts to resume. One that
   finds the hart on its way into the suspended state is delivered, and wakes it, only there.
   */
  function Delivered(w: Hart): Hart {
    if !w.inflight || w.pc.SuspendPending? then w
    else Hart(if w.pc.Suspended? then ResumePending(w.pc.kind) else w.pc, false, true)
  }

  function WorkerNext(c: Config, s: State, h: nat, result: nat): State
    requires Shaped(c, s) && h < c.smp
  {
    var (m, w) := WorkerStep(c, h, s.m, s.harts[h], result);
    var acks := if s.harts[h].pc.AddAck? then s.log.acks[h := s.log.acks[h] + 1] else s.log.acks;
    s.(m := m, harts := s.harts[h := w], log := s.log.(acks := acks))
  }

  function DeliverNext(s: State, h: nat): State
    requires h < |s.harts|
  {
    s.(harts := s.harts[h := Delivered(s.harts[h])])
  }

  // ----- transitions of the boot hart -----

  /** The order in which `run` issues operations: workers are started before they are used. */
  predicate Allowed(c: Config, s: State, task: Task) {
    match task
    case Start(h) => c.Worker(h) && h !in s.running
    case Send(h) => h in s.running
    case Suspend(h, kind, _) => s.running == {h} && SuspendCommand(kind)
    case Stop(pending) => pending != [] && s.running == Elems(pending) && Distinct(pending)
  }

  predicate Distinct(pending: seq<nat>) {
    forall i, j | 0 <= i < j < |pending| :: pending[i] != pending[j]
  }

  function FirstStep(task: Task): BootPc {
    match task
    case Start(h) => ClearOnline(h)
    case Send(h) => LoadAck(h, Return)
    case Suspend(h, kind, probing) => SetCommand(h, kind, probing)
    case Stop(pending) => SetStop(pending)
  }

  function BeginNext(c: Config, s: State, task: Task): State {
    if !s.boot.Idle? || s.aborted || !Allowed(c, s, task) then s
    else s.(boot := FirstStep(task))
  }

  predicate Reached(m: Atomics, harts: seq<Hart>, goal: Goal) {
    match goal
    case Online(h) => m.online == h + 1
    case Acked(_, expected, _) => m.ack == expected
    case Released(_, _) => m.command == READY
    case Parked(h, kind, _) => h < |harts| && harts[h].pc.Suspended?
    case Halted(pending) => pending != [] && pending[0] < |harts| && harts[pending[0]].pc.Stopped?
  }

  /** Where the boot hart goes once it has seen what it waited for. */
  function Onward(goal: Goal): BootPc {
    match goal
    case Online(h) => Idle
    case Acked(h, _, after) =>
      if after.Release? then Wait(Released(h, after.kind), false) else Idle
    case Released(h, kind) => Idle
    case Parked(h, kind, probing) => LoadAck(h, Release(kind, probing))
    case Halted(pending) => if |pending| <= 1 then Idle else Wait(Halted(pending[1..]), false)
  }

  /** `while !done() { assert_eq!(ERROR.load(), 0) }`; `suspend_supported` recovers instead. */
  function WaitNext(s: State, goal: Goal, checking: bool, ok: bool): State {
    if !checking then
      if (goal.Parked? || goal.Halted?) && !ok then s.(aborted := true)
      else if Reached(s.m, s.harts, goal) then
        s.(boot := Onward(goal),
           running := if goal.Halted? then s.running - Elems(goal.pending[..1]) else s.running)
      else s.(boot := Wait(goal, true))
    else if s.m.error == 0 then s.(boot := Wait(goal, false))
    else if goal.Parked? && goal.probing then s.(boot := LoadAck(goal.h, Recover(goal.kind)))
    else s.(aborted := true)
  }

  function SendNext(s: State, h: nat, expected: nat, after: After, ok: bool): State
    requires h < |s.harts|
  {
    var t := s.(log := s.log.(unsent := !ok));
    if ok then
      t.(harts := s.harts[h := s.harts[h].(inflight := true)],
         boot := if after.Recover? then RecoverReady(h, after.kind, expected)
                 else Wait(Acked(h, expected, after), false))
    else match after
      case Return => t.(boot := Idle)
      case Release(kind, probing) =>
        if probing then t.(aborted := true) else t.(boot := Wait(Released(h, kind), false))
      case Recover(_) => t.(aborted := true)
  }

  /** The steps of the boot hart that touch neither a hart nor a goal. */
  function BootStore(c: Config, s: State): State {
    match s.boot
    case ClearOnline(h) => s.(m := s.m.(online := 0), boot := SetReady(h))
    case SetReady(h) => s.(m := s.m.(command := READY), boot := HartStart(h))
    case SetCommand(h, kind, probing) =>
      s.(m := s.m.(command := kind), log := s.log.(stale := s.m.error != 0),
         boot := Wait(Parked(h, kind, probing), false))
    case SetStop(pending) => s.(m := s.m.(command := STOP), boot := Wait(Halted(pending), false))
    case LoadAck(h, after) =>
      s.(log := s.log.(mark := s.log.acks, loaded := s.m.ack), boot := SendIpi(h, Wrap(c, s.m.ack), after))
    case RecoverReady(h, kind, expected) =>
      if s.m.command == READY then s.(boot := RecoverAck(h, kind, expected)) else s
    case RecoverAck(h, kind, expected) =>
      s.(boot := if s.m.ack == expected then SwapError else RecoverReady(h, kind, expected))
    case SwapError => s.(m := s.m.(error := 0), boot := Idle)
    case _ => s
  }

  function BootNext(c: Config, s: State, ok: bool): State
    requires Shaped(c, s)
  {
    if s.aborted then s
    else match s.boot
      case HartStart(h) =>
        if !ok || h >= c.smp || !s.harts[h].pc.Stopped? then s.(aborted := true)
        else s.(harts := s.harts[h := s.harts[h].(pc := StartPending)], running := s.running + {h},
                boot := Wait(Online(h), false))
      case SendIpi(h, expected, after) =>
        if h >= c.smp then s.(aborted := true) else SendNext(s, h, expected, after, ok)
      case Wait(goal, checking) => WaitNext(s, goal, checking, ok)
      case _ => BootStore(c, s)
  }

  function Next(c: Config, s: State, e: Event): (r: State)
    requires Shaped(c, s)
    ensures Shaped(c, r)
  {
    match e
    case Begin(task) => BeginNext(c, s, task)
    case BootRuns(ok) => BootNext(c, s, ok)
    case WorkerRuns(h, result) => if c.Worker(h) then WorkerNext(c, s, h, result) else s
    case Deliver(h) => if c.Worker(h) then DeliverNext(s, h) else s
  }

  predicate IsInitial(c: Config, s: State) {
    && Shaped(c, s) && s.boot == Idle && !s.aborted && s.running == {}
    && (forall h :: 0 <= h < c.smp ==> s.harts[h] == Hart(Stopped, false, false))
    && s.m == Atomics(0, 0, 0, 0) && !s.log.stale && !s.log.unsent
  }

  function Run(c: Config, s: State, schedule: seq<Event>): (r: State)
    requires Shaped(c, s)
    ensures Shaped(c, r)
  {
    if schedule == [] then s
    else Next(c, Run(c, s, schedule[..|schedule| - 1]), schedule[|schedule| - 1])
  }

  // ----- what the boot hart expects of each worker -----

  /** The part a started worker plays in the operation under way. */
  datatype Role =
    | Off
    | Resting                                // nothing is asked of it
    | Starting
    | Parking(kind: nat)                     // told to suspend
    | Asleep(kind: nat)                      // seen SUSPENDED
    | Owing(expected: nat)                   // sent an IPI while READY
    | Waking(kind: nat, expected: nat)       // sent an IPI while SUSPENDED
    | Releasing(kind: nat)                   // acknowledged, or left asleep by a failed send
    | Recovering(kind: nat, expected: nat)   // sent an IPI after a failed suspend
    | Stopping

  function RoleAfter(after: After): Role {
    match after
    case Return => Resting
    case Release(kind, _) => Asleep(kind)
    case Recover(kind) => Parking(kind)
  }

  function GoalRole(goal: Goal, h: nat): Role {
    match goal
    case Online(g) => if g == h then Starting else Resting
    case Acked(g, expected, after) =>
      if g != h then Resting
      else if after.Release? then Waking(after.kind, expected)
      else Owing(expected)
    case Released(g, kind) => if g == h then Releasing(kind) else Resting
    case Parked(g, kind, _) => if g == h then Parking(kind) else Resting
    case Halted(_) => Stopping
  }

  function BootRole(boot: BootPc, h: nat): Role {
    match boot
    case LoadAck(g, after) => if g == h then RoleAfter(after) else Resting
    case SendIpi(g, _, after) => if g == h then RoleAfter(after) else Resting
    case Wait(goal, _) => GoalRole(goal, h)
    case RecoverReady(g, kind, expected) => if g == h then Recovering(kind, expected) else Resting
    case RecoverAck(g, kind, expected) => if g == h then Recovering(kind, expected) else Resting
    case _ => Resting
  }

  function RoleOf(boot: BootPc, running: set<nat>, h: nat): Role {
    if h in running then BootRole(boot, h) else Off
  }

  /** An IPI to the hart has been sent and its acknowledgement has not been counted. */
  predicate Owed(w: Hart) {
    w.inflight || w.ssip || w.pc.AddAck?
  }

  predicate Listening(pc: WorkerPc) {
    pc.Poll? || pc.ClearSip? || pc.AddAck? || pc.LoadCommand?
  }

  /** The IPI to a hart is in one place, and a worker clears only a bit that is set. */
  predicate OnePlace(w: Hart) {
    && !(w.inflight && w.ssip)
    && (w.pc.AddAck? ==> !w.inflight && !w.ssip)
    && (w.pc.ClearSip? ==> w.ssip)
  }

  /** `expected` is one more than ACK was; ACK reaches it when the acknowledgement is counted. */
  predicate Counted(c: Config, m: Atomics, w: Hart, expected: nat) {
    expected == if Owed(w) then Wrap(c, m.ack) else m.ack
  }

  /** The worker has not answered the command yet. */
  predicate Busy(m: Atomics, w: Hart, kind: nat) {
    && m.command == kind
    && match w.pc
       case Reload(first) => first == kind
       case CallSuspend(first, k) => first == k == kind
       case SuspendPending(k) => k == kind
       case Suspended(k) => k == kind
       case ResumePending(k) => k == kind && w.ssip
       case StoreError(k, error) => k == kind && error != 0
       case StoreReady(k, cold) => k == kind && (cold ==> w.ssip)
       case pc => Listening(pc)
  }

  /** The worker has stored READY. */
  predicate Answered(m: Atomics, w: Hart) {
    m.command == READY && (Listening(w.pc) || (w.pc.StoreOnline? && w.ssip))
  }

  /** A suspended worker has been sent an IPI. */
  predicate Woken(m: Atomics, w: Hart, kind: nat) {
    match w.pc
    case Suspended(k) => m.command == kind == k && w.inflight
    case ResumePending(k) => m.command == kind == k && w.ssip
    case StoreReady(k, cold) => m.command == kind == k && w.ssip
    case _ => Answered(m, w)
  }

  /** ERROR is set exactly when the worker has stored it and, after it, has READY to store. */
  predicate FreshError(m: Atomics, w: Hart) {
    m.error != 0 <==> w.pc.StoreReady? || m.command == READY
  }

  predicate Fits(c: Config, h: nat, m: Atomics, w: Hart, stale: bool, role: Role) {
    && OnePlace(w)
    && match role
       case Off => w.pc.Stopped? && !Owed(w)
       case Resting => Listening(w.pc) && !Owed(w) && m.command == READY
       case Starting =>
         && !Owed(w) && m.command == READY
         && (if w.pc.StartPending? || w.pc.StoreOnline? then m.online == 0
             else Listening(w.pc) && m.online == h + 1)
       case Parking(kind) =>
         && SuspendCommand(kind) && !Owed(w)
         && (Busy(m, w, kind) || Answered(m, w))
         && (if stale then m.error != 0 else FreshError(m, w))
       case Asleep(kind) => SuspendCommand(kind) && !Owed(w) && w.pc == Suspended(kind) && m.command == kind
       case Owing(expected) => Counted(c, m, w, expected) && Listening(w.pc) && m.command == READY
       case Waking(kind, expected) => SuspendCommand(kind) && Counted(c, m, w, expected) && Woken(m, w, kind)
       case Releasing(kind) =>
         && SuspendCommand(kind) && !Owed(w)
         && (if w.pc.Suspended? then m.command == kind == w.pc.kind else Listening(w.pc) && m.command == READY)
       case Recovering(kind, expected) =>
         && SuspendCommand(kind) && Counted(c, m, w, expected)
         && (Busy(m, w, kind) || Answered(m, w))
         && (!stale ==> m.error != 0 && (w.pc.StoreReady? || m.command == READY))
       case Stopping =>
         && !Owed(w) && m.command == STOP
         && (Listening(w.pc) || w.pc.CallStop? || w.pc.StopPending? || w.pc.StoreStopError? || w.pc.Stopped?)
  }

  /** What the position of the boot hart says by itself. */
  predicate BootFits(c: Config, boot: BootPc, running: set<nat>, m: Atomics) {
    match boot
    case ClearOnline(h) => c.Worker(h) && h !in running
    case SetReady(h) => c.Worker(h) && h !in running && m.online == 0
    case HartStart(h) => c.Worker(h) && h !in running && m.online == 0 && m.command == READY
    case SetCommand(h, kind, _) => running == {h} && SuspendCommand(kind)
    case SetStop(pending) => pending != [] && running == Elems(pending) && Distinct(pending)
    case LoadAck(h, after) =>
      h in running && (after.Return? || running == {h}) && (after.Recover? ==> m.error != 0)
    case SendIpi(h, expected, after) =>
      && h in running && (after.Return? || running == {h}) && (after.Recover? ==> m.error != 0)
      && expected == Wrap(c, m.ack)
    case Wait(goal, _) =>
      (match goal
       case Online(h) => h in running
       case Acked(h, _, after) => h in running && !after.Recover? && (after.Return? || running == {h})
       case Released(h, _) => running == {h}
       case Parked(h, _, _) => running == {h}
       case Halted(pending) => pending != [] && running == Elems(pending) && Distinct(pending))
    case RecoverReady(h, _, _) => running == {h}
    case RecoverAck(h, _, _) => running == {h} && m.command == READY
    case _ => true
  }

  ghost predicate HartsFit(c: Config, s: State)
    requires Shaped(c, s)
  {
    forall h: nat | c.Worker(h) :: Fits(c, h, s.m, s.harts[h], s.log.stale, RoleOf(s.boot, s.running, h))
  }

  ghost predicate Inv(c: Config, s: State) {
    && c.Valid() && Shaped(c, s)
    && (forall h <- s.running :: c.Worker(h))
    && BootFits(c, s.boot, s.running, s.m)
    && HartsFit(c, s)
  }

  // ----- every transition keeps the invariant -----

  lemma InitialInv(c: Config, s: State)
    requires c.Valid() && IsInitial(c, s)
    ensures Inv(c, s)
  {
  }

  lemma BeginKeeps(c: Config, s: State, task: Task)
    requires Inv(c, s)
    ensures Inv(c, BeginNext(c, s, task))
  {
    var s' := BeginNext(c, s, task);
    if s' != s {
      forall h: nat | c.Worker(h) ensures Fits(c, h, s'.m, s'.harts[h], s'.log.stale, RoleOf(s'.boot, s'.running, h)) {
        assert Fits(c, h, s.m, s.harts[h], s.log.stale, RoleOf(s.boot, s.running, h));
      }
    }
  }

  predicate Suspends(role: Role) {
    role.Parking? || role.Waking? || role.Recovering?
  }

  lemma StepFitsSuspending(c: Config, h: nat, m: Atomics, w: Hart, result: nat, stale: bool, role: Role)
    requires Fits(c, h, m, w, stale, role) && Suspends(role)
    ensures var (m', w') := WorkerStep(c, h, m, w, result); Fits(c, h, m', w', stale, role)
  {
  }

  lemma StepFitsOtherwise(c: Config, h: nat, m: Atomics, w: Hart, result: nat, stale: bool, role: Role)
    requires Fits(c, h, m, w, stale, role) && !Suspends(role)
    ensures var (m', w') := WorkerStep(c, h, m, w, result); Fits(c, h, m', w', stale, role)
  {
  }

  /** A worker keeps to its own role. */
  lemma StepFits(c: Config, h: nat, m: Atomics, w: Hart, result: nat, stale: bool, role: Role)
    requires Fits(c, h, m, w, stale, role)
    ensures var (m', w') := WorkerStep(c, h, m, w, result); Fits(c, h, m', w', stale, role)
  {
    if Suspends(role) {
      StepFitsSuspending(c, h, m, w, result, stale, role);
    } else {
      StepFitsOtherwise(c, h, m, w, result, stale, role);
    }
  }

  /** What a worker may do to the atomics, by its role. */
  predicate Undisturbed(m: Atomics, m': Atomics, role: Role) {
    && (m'.command != m.command ==>
          m'.command == READY && (role.Parking? || role.Waking? || role.Recovering?))
    && (m'.ack != m.ack ==> role.Owing? || role.Waking? || role.Recovering?)
    && (m'.online != m.online ==> role.Starting? || role.Waking? || role.Recovering? || role.Parking?)
    && (m'.error != m.error ==>
          role.Stopping? || ((role.Parking? || role.Recovering?) && m'.error != 0))
  }

  lemma StepUndisturbed(c: Config, h: nat, m: Atomics, w: Hart, result: nat, stale: bool, role: Role)
    requires Fits(c, h, m, w, stale, role)
    ensures Undisturbed(m, WorkerStep(c, h, m, w, result).0, role)
  {
  }

  lemma DeliveryFits(c: Config, h: nat, m: Atomics, w: Hart, stale: bool, role: Role)
    requires Fits(c, h, m, w, stale, role)
    ensures Fits(c, h, m, Delivered(w), stale, role)
  {
  }

  /** A hart that only listens, or is off, does not notice what the others do to the atomics. */
  lemma BystanderFits(c: Config, h: nat, m: Atomics, m': Atomics, w: Hart, stale: bool, role: Role)
    requires Fits(c, h, m, w, stale, role)
    requires role.Off? || m' == m || ((role.Resting? || role.Stopping?) && m'.command == m.command)
    ensures Fits(c, h, m', w, stale, role)
  {
  }

  /** At most one worker is in a role in which it changes COMMAND, ONLINE or ACK. */
  lemma OneActs(c: Config, s: State, g: nat, h: nat, m': Atomics)
    requires Inv(c, s) && c.Worker(g) && c.Worker(h) && g != h
    requires Undisturbed(s.m, m', RoleOf(s.boot, s.running, g))
    ensures var role := RoleOf(s.boot, s.running, h);
            role.Off? || m' == s.m || ((role.Resting? || role.Stopping?) && m'.command == s.m.command)
  {
  }

  lemma WorkerFits(c: Config, s: State, g: nat, result: nat, h: nat)
    requires Inv(c, s) && c.Worker(g) && c.Worker(h)
    ensures var s' := WorkerNext(c, s, g, result);
            Fits(c, h, s'.m, s'.harts[h], s'.log.stale, RoleOf(s'.boot, s'.running, h))
  {
    var roleG, roleH := RoleOf(s.boot, s.running, g), RoleOf(s.boot, s.running, h);
    assert Fits(c, g, s.m, s.harts[g], s.log.stale, roleG);
    assert Fits(c, h, s.m, s.harts[h], s.log.stale, roleH);
    if h == g {
      StepFits(c, g, s.m, s.harts[g], result, s.log.stale, roleG);
    } else {
      var m' := WorkerStep(c, g, s.m, s.harts[g], result).0;
      StepUndisturbed(c, g, s.m, s.harts[g], result, s.log.stale, roleG);
      OneActs(c, s, g, h, m');
      BystanderFits(c, h, s.m, m', s.harts[h], s.log.stale, roleH);
    }
  }

  /** What the boot hart knows survives a step of a worker in its role. */
  lemma WorkerBootFits(c: Config, boot: BootPc, running: set<nat>, m: Atomics, m': Atomics, role: Role)
    requires BootFits(c, boot, running, m)
    requires exists g | c.Worker(g) :: role == RoleOf(boot, running, g) && Undisturbed(m, m', role)
    ensures BootFits(c, boot, running, m')
  {
  }

  lemma WorkerKeeps(c: Config, s: State, g: nat, result: nat)
    requires Inv(c, s) && c.Worker(g)
    ensures Inv(c, WorkerNext(c, s, g, result))
  {
    var s' := WorkerNext(c, s, g, result);
    var role := RoleOf(s.boot, s.running, g);
    assert Fits(c, g, s.m, s.harts[g], s.log.stale, role);
    StepUndisturbed(c, g, s.m, s.harts[g], result, s.log.stale, role);
    WorkerBootFits(c, s.boot, s.running, s.m, s'.m, role);
    forall h: nat | c.Worker(h) ensures Fits(c, h, s'.m, s'.harts[h], s'.log.stale, RoleOf(s'.boot, s'.running, h)) {
      WorkerFits(c, s, g, result, h);
    }
  }

  lemma DeliverKeeps(c: Config, s: State, g: nat)
    requires Inv(c, s) && c.Worker(g)
    ensures Inv(c, DeliverNext(s, g))
  {
    var s' := DeliverNext(s, g);
    forall h: nat | c.Worker(h) ensures Fits(c, h, s'.m, s'.harts[h], s'.log.stale, RoleOf(s'.boot, s'.running, h)) {
      var role := RoleOf(s.boot, s.running, h);
      assert Fits(c, h, s.m, s.harts[h], s.log.stale, role);
      DeliveryFits(c, h, s.m, s.harts[h], s.log.stale, role);
    }
  }

  predicate StoresCommand(boot: BootPc) {
    boot.ClearOnline? || boot.SetReady? || boot.SetCommand? || boot.SetStop?
  }

  lemma CommandFits(c: Config, s: State, h: nat)
    requires Inv(c, s) && c.Worker(h) && StoresCommand(s.boot)
    ensures var s' := BootStore(c, s);
            Fits(c, h, s'.m, s'.harts[h], s'.log.stale, RoleOf(s'.boot, s'.running, h))
  {
    assert Fits(c, h, s.m, s.harts[h], s.log.stale, RoleOf(s.boot, s.running, h));
  }

  lemma StoreFits(c: Config, s: State, h: nat)
    requires Inv(c, s) && c.Worker(h) && !StoresCommand(s.boot)
    ensures var s' := BootStore(c, s);
            Fits(c, h, s'.m, s'.harts[h], s'.log.stale, RoleOf(s'.boot, s'.running, h))
  {
    assert Fits(c, h, s.m, s.harts[h], s.log.stale, RoleOf(s.boot, s.running, h));
  }

  lemma StoreKeeps(c: Config, s: State)
    requires Inv(c, s)
    ensures Inv(c, BootStore(c, s))
  {
    var s' := BootStore(c, s);
    forall h: nat | c.Worker(h) ensures Fits(c, h, s'.m, s'.harts[h], s'.log.stale, RoleOf(s'.boot, s'.running, h)) {
      if StoresCommand(s.boot) { CommandFits(c, s, h); } else { StoreFits(c, s, h); }
    }
  }

  lemma SendFits(c: Config, s: State, ok: bool, h: nat)
    requires Inv(c, s) && s.boot.SendIpi? && c.Worker(h) && s.boot.h < c.smp
    ensures var s' := SendNext(s, s.boot.h, s.boot.expected, s.boot.after, ok);
            Fits(c, h, s'.m, s'.harts[h], s'.log.stale, RoleOf(s'.boot, s'.running, h))
  {
    assert Fits(c, h, s.m, s.harts[h], s.log.stale, RoleOf(s.boot, s.running, h));
  }

  lemma SendKeeps(c: Config, s: State, ok: bool)
    requires Inv(c, s) && s.boot.SendIpi? && s.boot.h < c.smp
    ensures Inv(c, SendNext(s, s.boot.h, s.boot.expected, s.boot.after, ok))
  {
    var s' := SendNext(s, s.boot.h, s.boot.expected, s.boot.after, ok);
    forall h: nat | c.Worker(h) ensures Fits(c, h, s'.m, s'.harts[h], s'.log.stale, RoleOf(s'.boot, s'.running, h)) {
      SendFits(c, s, ok, h);
    }
  }

  lemma ReachedFits(c: Config, s: State, h: nat)
    requires Inv(c, s) && s.boot.Wait? && c.Worker(h) && Reached(s.m, s.harts, s.boot.goal)
    ensures var running := if s.boot.goal.Halted? then s.running - Elems(s.boot.goal.pending[..1]) else s.running;
            Fits(c, h, s.m, s.harts[h], s.log.stale, RoleOf(Onward(s.boot.goal), running, h))
  {
    assert Fits(c, h, s.m, s.harts[h], s.log.stale, RoleOf(s.boot, s.running, h));
  }

  lemma WaitFits(c: Config, s: State, ok: bool, h: nat)
    requires Inv(c, s) && s.boot.Wait? && c.Worker(h)
    ensures var s' := WaitNext(s, s.boot.goal, s.boot.checking, ok);
            Fits(c, h, s'.m, s'.harts[h], s'.log.stale, RoleOf(s'.boot, s'.running, h))
  {
    assert Fits(c, h, s.m, s.harts[h], s.log.stale, RoleOf(s.boot, s.running, h));
    if Reached(s.m, s.harts, s.boot.goal) {
      ReachedFits(c, s, h);
    } else {
      assert RoleOf(Wait(s.boot.goal, true), s.running, h) == RoleOf(s.boot, s.running, h);
    }
  }

  lemma WaitBootFits(c: Config, s: State, ok: bool)
    requires Inv(c, s) && s.boot.Wait?
    ensures var s' := WaitNext(s, s.boot.goal, s.boot.checking, ok); BootFits(c, s'.boot, s'.running, s'.m)
  {
    if s.boot.goal.Halted? {
      var pending := s.boot.goal.pending;
      assert pending == pending[..1] + pending[1..];
      assert Elems(pending) == Elems(pending[..1]) + Elems(pending[1..]);
    }
  }

  lemma WaitKeeps(c: Config, s: State, ok: bool)
    requires Inv(c, s) && s.boot.Wait?
    ensures Inv(c, WaitNext(s, s.boot.goal, s.boot.checking, ok))
  {
    var s' := WaitNext(s, s.boot.goal, s.boot.checking, ok);
    WaitBootFits(c, s, ok);
    forall h: nat | c.Worker(h) ensures Fits(c, h, s'.m, s'.harts[h], s'.log.stale, RoleOf(s'.boot, s'.running, h)) {
      WaitFits(c, s, ok, h);
    }
  }

  lemma StartKeeps(c: Config, s: State, ok: bool)
    requires Inv(c, s) && s.boot.HartStart?
    ensures Inv(c, BootNext(c, s, ok))
  {
    var s' := BootNext(c, s, ok);
    forall h: nat | c.Worker(h) ensures Fits(c, h, s'.m, s'.harts[h], s'.log.stale, RoleOf(s'.boot, s'.running, h)) {
      assert Fits(c, h, s.m, s.harts[h], s.log.stale, RoleOf(s.boot, s.running, h));
    }
  }

  lemma BootKeeps(c: Config, s: State, ok: bool)
    requires Inv(c, s)
    ensures Inv(c, BootNext(c, s, ok))
  {
    if !s.aborted {
      match s.boot
      case HartStart(_) => StartKeeps(c, s, ok);
      case SendIpi(h, _, _) => if h < c.smp { SendKeeps(c, s, ok); }
      case Wait(_, _) => WaitKeeps(c, s, ok);
      case _ => StoreKeeps(c, s);
    }
  }

  lemma NextKeeps(c: Config, s: State, e: Event)
    requires Inv(c, s)
    ensures Inv(c, Next(c, s, e))
  {
    match e
    case Begin(task) => BeginKeeps(c, s, task);
    case BootRuns(ok) => BootKeeps(c, s, ok);
    case WorkerRuns(h, result) => if c.Worker(h) { WorkerKeeps(c, s, h, result); }
    case Deliver(h) => if c.Worker(h) { DeliverKeeps(c, s, h); }
  }

  lemma {:induction false} RunKeeps(c: Config, s: State, schedule: seq<Event>)
    requires Inv(c, s)
    ensures Inv(c, Run(c, s, schedule))
  {
    if schedule != [] {
      var last := |schedule| - 1;
      RunKeeps(c, s, schedule[..last]);
      NextKeeps(c, Run(c, s, schedule[..last]), schedule[last]);
    }
  }

  /** The state after a schedule from power-on. */
  lemma Reachable(c: Config, s: State, schedule: seq<Event>)
    requires c.Valid() && IsInitial(c, s)
    ensures Inv(c, Run(c, s, schedule)) && HistoryFits(c, Run(c, s, schedule))
  {
    InitialInv(c, s);
    RunKeeps(c, s, schedule);
    RunKeepsHistory(c, s, schedule);
  }

  // ----- what the counters of acknowledgements say -----

  /** Since ACK was loaded, the hart that was sent an IPI may have acknowledged it, once; nobody else has. */
  predicate Attributed(c: Config, s: State, h: nat, expected: nat)
    requires Shaped(c, s)
  {
    && expected == Wrap(c, s.log.loaded) && h < c.smp
    && s.log.acks == if Owed(s.harts[h]) then s.log.mark else s.log.mark[h := s.log.mark[h] + 1]
  }

  predicate HistoryFits(c: Config, s: State)
    requires Shaped(c, s)
  {
    match s.boot
    case SendIpi(_, expected, _) => expected == Wrap(c, s.log.loaded) && s.log.acks == s.log.mark
    case Wait(Acked(h, expected, _), _) => Attributed(c, s, h, expected)
    case Wait(Released(h, _), _) => h < c.smp && (s.harts[h].pc.Suspended? ==> s.log.unsent)
    case RecoverReady(h, _, expected) => Attributed(c, s, h, expected)
    case RecoverAck(h, _, expected) => Attributed(c, s, h, expected)
    case _ => true
  }

  /** Only a hart that owes an acknowledgement is at the step that counts one. */
  lemma OneOwes(c: Config, s: State, g: nat, h: nat)
    requires Inv(c, s) && c.Worker(g) && c.Worker(h) && Owed(s.harts[g]) && Owed(s.harts[h])
    ensures g == h
  {
    assert Fits(c, g, s.m, s.harts[g], s.log.stale, RoleOf(s.boot, s.running, g));
    assert Fits(c, h, s.m, s.harts[h], s.log.stale, RoleOf(s.boot, s.running, h));
  }

  lemma StepOwed(c: Config, h: nat, m: Atomics, w: Hart, result: nat)
    requires OnePlace(w)
    ensures Owed(WorkerStep(c, h, m, w, result).1) == (Owed(w) && !w.pc.AddAck?)
  {
  }

  lemma WorkerKeepsHistory(c: Config, s: State, g: nat, result: nat)
    requires Inv(c, s) && HistoryFits(c, s) && c.Worker(g)
    ensures HistoryFits(c, WorkerNext(c, s, g, result))
  {
    assert Fits(c, g, s.m, s.harts[g], s.log.stale, RoleOf(s.boot, s.running, g));
    StepOwed(c, g, s.m, s.harts[g], result);
  }

  lemma DeliverKeepsHistory(c: Config, s: State, g: nat)
    requires Inv(c, s) && HistoryFits(c, s) && c.Worker(g)
    ensures HistoryFits(c, DeliverNext(s, g))
  {
    assert Fits(c, g, s.m, s.harts[g], s.log.stale, RoleOf(s.boot, s.running, g));
  }

  lemma StoreKeepsHistory(c: Config, s: State)
    requires Inv(c, s) && HistoryFits(c, s)
    ensures HistoryFits(c, BootStore(c, s))
  {
  }

  lemma SendKeepsHistory(c: Config, s: State, ok: bool)
    requires Inv(c, s) && HistoryFits(c, s) && s.boot.SendIpi? && s.boot.h < c.smp
    ensures HistoryFits(c, SendNext(s, s.boot.h, s.boot.expected, s.boot.after, ok))
  {
  }

  lemma WaitKeepsHistory(c: Config, s: State, ok: bool)
    requires Inv(c, s) && HistoryFits(c, s) && s.boot.Wait?
    ensures HistoryFits(c, WaitNext(s, s.boot.goal, s.boot.checking, ok))
  {
    if s.boot.goal.Acked? {
      var h := s.boot.goal.h;
      assert Fits(c, h, s.m, s.harts[h], s.log.stale, RoleOf(s.boot, s.running, h));
    }
  }

  lemma BootKeepsHistory(c: Config, s: State, ok: bool)
    requires Inv(c, s) && HistoryFits(c, s)
    ensures HistoryFits(c, BootNext(c, s, ok))
  {
    if !s.aborted {
      match s.boot
      case HartStart(_) =>
      case SendIpi(h, _, _) => if h < c.smp { SendKeepsHistory(c, s, ok); }
      case Wait(_, _) => WaitKeepsHistory(c, s, ok);
      case _ => StoreKeepsHistory(c, s);
    }
  }

  lemma NextKeepsHistory(c: Config, s: State, e: Event)
    requires Inv(c, s) && HistoryFits(c, s)
    ensures HistoryFits(c, Next(c, s, e))
  {
    match e
    case Begin(task) =>
    case BootRuns(ok) => BootKeepsHistory(c, s, ok);
    case WorkerRuns(h, result) => if c.Worker(h) { WorkerKeepsHistory(c, s, h, result); }
    case Deliver(h) => if c.Worker(h) { DeliverKeepsHistory(c, s, h); }
  }

  lemma {:induction false} RunKeepsHistory(c: Config, s: State, schedule: seq<Event>)
    requires Inv(c, s) && HistoryFits(c, s)
    ensures HistoryFits(c, Run(c, s, schedule))
  {
    if schedule != [] {
      var last := |schedule| - 1;
      RunKeeps(c, s, schedule[..last]);
      RunKeepsHistory(c, s, schedule[..last]);
      NextKeepsHistory(c, Run(c, s, schedule[..last]), schedule[last]);
    }
  }

  // ----- the handshake is safe in every run -----

  /**
   At any time at most one IPI is outstanding among all workers, it is in one place, and the boot hart
   is waiting for the acknowledgement of that very hart.
   */
  lemma OneIpiOutstanding(c: Config, s: State, schedule: seq<Event>, h: nat)
    requires c.Valid() && IsInitial(c, s) && c.Worker(h)
    ensures var r := Run(c, s, schedule);
            Owed(r.harts[h]) ==>
              && OnePlace(r.harts[h])
              && (forall g: nat | c.Worker(g) && g != h :: !Owed(r.harts[g]))
              && (match r.boot
                  case Wait(Acked(g, expected, _), _) => g == h && r.m.ack != expected
                  case RecoverReady(g, _, expected) => g == h && r.m.ack != expected
                  case RecoverAck(g, _, expected) => g == h && r.m.ack != expected
                  case _ => false)
  {
    Reachable(c, s, schedule);
    var r := Run(c, s, schedule);
    if Owed(r.harts[h]) {
      assert Fits(c, h, r.m, r.harts[h], r.log.stale, RoleOf(r.boot, r.running, h));
      forall g: nat | c.Worker(g) && g != h ensures !Owed(r.harts[g]) {
        if Owed(r.harts[g]) { OneOwes(c, r, g, h); }
      }
    }
  }

  /** ACK, and what was last loaded from it, fit in a word. */
  predicate InWord(c: Config, s: State) {
    && s.m.ack <= c.max
    && (match s.boot
        case SendIpi(_, _, _) => s.log.loaded <= c.max
        case Wait(Acked(_, _, _), _) => s.log.loaded <= c.max
        case RecoverReady(_, _, _) => s.log.loaded <= c.max
        case RecoverAck(_, _, _) => s.log.loaded <= c.max
        case _ => true)
  }

  lemma NextInWord(c: Config, s: State, e: Event)
    requires Shaped(c, s) && InWord(c, s)
    ensures InWord(c, Next(c, s, e))
  {
  }

  lemma {:induction false} RunInWord(c: Config, s: State, schedule: seq<Event>)
    requires Shaped(c, s) && InWord(c, s)
    ensures InWord(c, Run(c, s, schedule))
  {
    if schedule != [] {
      var last := |schedule| - 1;
      RunInWord(c, s, schedule[..last]);
      NextInWord(c, Run(c, s, schedule[..last]), schedule[last]);
    }
  }

  lemma WrapIsModular(c: Config, n: nat)
    requires n <= c.max
    ensures Wrap(c, n) == (n + 1) % (c.max + 1)
  {
  }

  /**
   When the wait of `send_and_ack(h)` is over, ACK has grown by exactly one since it was loaded, and it
   was hart `h`, and nobody else, that counted one acknowledgement.
   */
  lemma AckGrowsByOne(c: Config, s: State, schedule: seq<Event>, h: nat, expected: nat, after: After)
    requires c.Valid() && IsInitial(c, s)
    requires var r := Run(c, s, schedule);
             r.boot == Wait(Acked(h, expected, after), false) && Reached(r.m, r.harts, r.boot.goal)
    ensures var r := Run(c, s, schedule);
            && r.m.ack == (r.log.loaded + 1) % (c.max + 1) && h < c.smp
            && r.log.acks == r.log.mark[h := r.log.mark[h] + 1]
            && !Owed(r.harts[h])
  {
    Reachable(c, s, schedule);
    RunInWord(c, s, schedule);
    var r := Run(c, s, schedule);
    assert Fits(c, h, r.m, r.harts[h], r.log.stale, RoleOf(r.boot, r.running, h));
    WrapIsModular(c, r.log.loaded);
  }

  /**
   A worker that is about to store READY overwrites the command it has obeyed and no other, and its
   two loads of COMMAND agree.
   */
  lemma NoCommandLost(c: Config, s: State, schedule: seq<Event>, h: nat)
    requires c.Valid() && IsInitial(c, s) && c.Worker(h)
    ensures var r := Run(c, s, schedule);
            match r.harts[h].pc
            case Reload(first) => r.m.command == first
            case CallSuspend(first, kind) => first == kind == r.m.command
            case StoreReady(kind, _) => r.m.command == kind
            case CallStop => r.m.command == STOP
            case _ => true
  {
    Reachable(c, s, schedule);
    var r := Run(c, s, schedule);
    assert Fits(c, h, r.m, r.harts[h], r.log.stale, RoleOf(r.boot, r.running, h));
  }

  /** The boot hart stores a command only when every running worker is idle and the others are stopped. */
  lemma CommandsFindIdleWorkers(c: Config, s: State, schedule: seq<Event>, h: nat)
    requires c.Valid() && IsInitial(c, s) && c.Worker(h)
    requires var b := Run(c, s, schedule).boot; b.Idle? || b.SetReady? || b.SetCommand? || b.SetStop?
    ensures var r := Run(c, s, schedule);
            && !Owed(r.harts[h])
            && if h in r.running then r.m.command == READY && Listening(r.harts[h].pc)
               else r.harts[h].pc.Stopped?
  {
    Reachable(c, s, schedule);
    var r := Run(c, s, schedule);
    assert Fits(c, h, r.m, r.harts[h], r.log.stale, RoleOf(r.boot, r.running, h));
  }

  /** A worker goes on to load COMMAND only when its pending bit is clear: an IPI comes before a command. */
  lemma CommandsAfterInterrupts(c: Config, s: State, schedule: seq<Event>, h: nat, result: nat)
    requires c.Valid() && IsInitial(c, s) && c.Worker(h)
    ensures var r := Run(c, s, schedule); var w := Next(c, r, WorkerRuns(h, result)).harts[h];
            !r.harts[h].pc.LoadCommand? && w.pc.LoadCommand? ==> !w.ssip
  {
    Reachable(c, s, schedule);
    var r := Run(c, s, schedule);
    assert Fits(c, h, r.m, r.harts[h], r.log.stale, RoleOf(r.boot, r.running, h));
  }

  lemma ResumeSteps(c: Config, h: nat, m: Atomics, w: Hart, first: nat, second: nat)
    requires w.pc.ResumePending? && SuspendCommand(w.pc.kind)
    ensures var (m1, w1) := WorkerStep(c, h, m, w, first); var (m2, w2) := WorkerStep(c, h, m1, w1, second);
            m2.command == READY && w2.pc == if w.pc.kind == NON_RETENTIVE then StoreOnline else Poll
  {
  }

  /**
   A worker that resumes stores READY with its next two steps; from a non-retentive suspend it then starts
   over and reports itself online, from a retentive one it goes on polling.
   */
  lemma ResumesByKind(c: Config, s: State, schedule: seq<Event>, h: nat, first: nat, second: nat)
    requires c.Valid() && IsInitial(c, s) && c.Worker(h)
    requires Run(c, s, schedule).harts[h].pc.ResumePending?
    ensures var r := Run(c, s, schedule);
            var t := Next(c, Next(c, r, WorkerRuns(h, first)), WorkerRuns(h, second));
            t.m.command == READY
            && t.harts[h].pc == if r.harts[h].pc.kind == NON_RETENTIVE then StoreOnline else Poll
  {
    Reachable(c, s, schedule);
    var r := Run(c, s, schedule);
    assert Fits(c, h, r.m, r.harts[h], r.log.stale, RoleOf(r.boot, r.running, h));
    ResumeSteps(c, h, r.m, r.harts[h], first, second);
  }
}
