/**
 The handshake of firmware/bench-kernel/src/linux.rs as objects that change in place: the atomics
 COMMAND, ONLINE, ACK and ERROR and the position of each hart. Each method takes one turn; its contract
 is the transition of `WorkerHandshake` that it implements.
 */
module WorkerKernel {
  import opened Bits
  import opened Helpers
  import opened WorkerHandshake

  class Kernel {
    const c: Config
    const harts: array<Hart>
    var command: nat
    var online: nat
    var ack: nat
    var error: nat
    var boot: BootPc
    var aborted: bool
    var running: set<nat>
    ghost var log: History

    ghost predicate Valid()
      reads this
    {
      c.Valid() && harts.Length == |log.acks| == |log.mark| == c.smp
    }

    ghost function Words(): Atomics
      reads this
    {
      Atomics(command, online, ack, error)
    }

    ghost function Snapshot(): (s: State)
      requires Valid()
      reads this, harts
      ensures Shaped(c, s)
    {
      State(boot, aborted, running, Words(), harts[..], log)
    }

    constructor (config: Config)
      requires config.Valid()
      ensures Valid() && c == config && IsInitial(c, Snapshot()) && fresh(harts)
    {
      c := config;
      harts := new Hart[config.smp](_ => Hart(Stopped, false, false));
      command, online, ack, error := 0, 0, 0, 0;
      boot, aborted, running := Idle, false, {};
      log := History(seq(config.smp, _ => 0), seq(config.smp, _ => 0), 0, false, false);
    }

    /** The loop of `worker`, one access at a time. */
    method WorkerTurn(h: nat, result: nat)
      requires Valid() && h < c.smp
      modifies this, harts
      ensures Valid() && Snapshot() == WorkerNext(c, old(Snapshot()), h, result)
    {
      var w := harts[h];
      match w.pc {
        case Stopped =>
        case StartPending =>
          w := w.(pc := StoreOnline);
        case StoreOnline =>
          online := h + 1;
          w := w.(pc := Poll);
        case Poll =>
          w := w.(pc := if w.ssip then ClearSip else LoadCommand);
        case ClearSip =>
          w := w.(ssip := false, pc := AddAck);
        case AddAck =>
          ack := if ack >= c.max then 0 else ack + 1;
          log := log.(acks := log.acks[h := log.acks[h] + 1]);
          w := w.(pc := LoadCommand);
        case LoadCommand =>
          if command == STOP { w := w.(pc := CallStop); }
          else if command == RETENTIVE || command == NON_RETENTIVE { w := w.(pc := Reload(command)); }
          else { w := w.(pc := Poll); }
        case CallStop =>
          w := w.(pc := if result == 0 then StopPending else StoreStopError(result));
        case StopPending =>
          w := w.(pc := Stopped);
        case StoreStopError(code) =>
          error := Or(code, 1);
          w := w.(pc := Poll);
        case Reload(first) =>
          w := w.(pc := CallSuspend(first, command));
        case CallSuspend(_, kind) =>
          w := w.(pc := if result == 0 then SuspendPending(kind) else StoreError(kind, result));
        case SuspendPending(kind) =>
          w := w.(pc := Suspended(kind));
        case Suspended(_) =>
        case ResumePending(kind) =>
          w := w.(pc := StoreReady(kind, kind != RETENTIVE));
        case StoreError(kind, code) =>
          error := code;
          w := w.(pc := StoreReady(kind, false));
        case StoreReady(_, cold) =>
          command := READY;
          w := w.(pc := if cold then StoreOnline else Poll);
      }
      harts[h] := w;
    }

    method Raise(h: nat)
      requires Valid() && h < c.smp
      modifies harts
      ensures Valid() && Snapshot() == DeliverNext(old(Snapshot()), h)
    {
      var w := harts[h];
      if w.inflight && !w.pc.SuspendPending? {
        harts[h] := Hart(if w.pc.Suspended? then ResumePending(w.pc.kind) else w.pc, false, true);
      } else {
        harts[h] := w;
      }
    }

    /** `start_worker`, `stop_worker` and `suspend_supported`: what they do between their waits. */
    method StoreTurn()
      requires Valid()
      modifies this
      ensures Valid() && Snapshot() == BootStore(c, old(Snapshot()))
    {
      match boot {
        case ClearOnline(h) =>
          online, boot := 0, SetReady(h);
        case SetReady(h) =>
          command, boot := READY, HartStart(h);
        case SetCommand(h, kind, probing) =>
          log := log.(stale := error != 0);
          command, boot := kind, Wait(Parked(h, kind, probing), false);
        case SetStop(pending) =>
          command, boot := STOP, Wait(Halted(pending), false);
        case LoadAck(h, after) =>
          log := log.(mark := log.acks, loaded := ack);
          boot := SendIpi(h, if ack >= c.max then 0 else ack + 1, after);
        case RecoverReady(h, kind, expected) =>
          if command == READY { boot := RecoverAck(h, kind, expected); }
        case RecoverAck(h, kind, expected) =>
          boot := if ack == expected then SwapError else RecoverReady(h, kind, expected);
        case SwapError =>
          error, boot := 0, Idle;
        case _ =>
      }
    }

    method StartTurn(ok: bool)
      requires Valid() && boot.HartStart? && !aborted
      modifies this, harts
      ensures Valid() && Snapshot() == BootNext(c, old(Snapshot()), ok)
    {
      var h := boot.h;
      if !ok || h >= c.smp || !harts[h].pc.Stopped? {
        aborted := true;
      } else {
        harts[h] := harts[h].(pc := StartPending);
        running := running + {h};
        boot := Wait(Online(h), false);
      }
    }

    method SendTurn(ok: bool)
      requires Valid() && boot.SendIpi? && !aborted
      modifies this, harts
      ensures Valid() && Snapshot() == BootNext(c, old(Snapshot()), ok)
    {
      var h, expected, after := boot.h, boot.expected, boot.after;
      if h < c.smp { log := log.(unsent := !ok); }
      if h >= c.smp {
        aborted := true;
      } else if ok {
        harts[h] := harts[h].(inflight := true);
        if after.Recover? {
          boot := RecoverReady(h, after.kind, expected);
        } else {
          boot := Wait(Acked(h, expected, after), false);
        }
      } else {
        match after {
          case Return => boot := Idle;
          case Release(kind, probing) =>
            if probing { aborted := true; } else { boot := Wait(Released(h, kind), false); }
          case Recover(_) => aborted := true;
        }
      }
    }

    /** Does the condition of the current wait hold? */
    method Done(goal: Goal) returns (done: bool)
      requires Valid()
      ensures done == Reached(Words(), harts[..], goal)
    {
      match goal {
        case Online(h) => done := online == h + 1;
        case Acked(_, expected, _) => done := ack == expected;
        case Released(_, _) => done := command == READY;
        case Parked(h, _, _) => done := h < c.smp && harts[h].pc.Suspended?;
        case Halted(pending) =>
          done := pending != [] && pending[0] < c.smp && harts[pending[0]].pc.Stopped?;
      }
    }

    /** One pass of `wait`, or of the polling loop of `suspend_supported`. */
    method WaitTurn(ok: bool)
      requires Valid() && boot.Wait? && !aborted
      modifies this
      ensures Valid() && Snapshot() == BootNext(c, old(Snapshot()), ok)
    {
      var goal := boot.goal;
      if boot.checking {
        if error == 0 { boot := Wait(goal, false); }
        else if goal.Parked? && goal.probing { boot := LoadAck(goal.h, Recover(goal.kind)); }
        else { aborted := true; }
      } else if (goal.Parked? || goal.Halted?) && !ok {
        aborted := true;
      } else {
        var done := Done(goal);
        if done {
          if goal.Halted? { running := running - Elems(goal.pending[..1]); }
          boot := Onward(goal);
        } else {
          boot := Wait(goal, true);
        }
      }
    }

    method BootTurn(ok: bool)
      requires Valid()
      modifies this, harts
      ensures Valid() && Snapshot() == BootNext(c, old(Snapshot()), ok)
    {
      if !aborted {
        match boot {
          case HartStart(_) => StartTurn(ok);
          case SendIpi(_, _, _) => SendTurn(ok);
          case Wait(_, _) => WaitTurn(ok);
          case _ => StoreTurn();
        }
      }
    }

    method Ask(task: Task)
      requires Valid()
      modifies this
      ensures Valid() && Snapshot() == BeginNext(c, old(Snapshot()), task)
    {
      var allowed: bool;
      match task {
        case Start(h) => allowed := h < c.smp && h != c.boot && h !in running;
        case Send(h) => allowed := h in running;
        case Suspend(h, kind, _) => allowed := running == {h} && (kind == RETENTIVE || kind == NON_RETENTIVE);
        case Stop(pending) => allowed := pending != [] && running == Elems(pending) && Distinct(pending);
      }
      if boot.Idle? && !aborted && allowed { boot := FirstStep(task); }
    }

    /** Any schedule of turns keeps the invariant of the handshake. */
    method Interleave(schedule: seq<Event>)
      requires Valid() && Inv(c, Snapshot())
      modifies this, harts
      ensures Valid() && Snapshot() == Run(c, old(Snapshot()), schedule) && Inv(c, Snapshot())
    {
      var n := 0;
      while n < |schedule|
        invariant 0 <= n <= |schedule|
        invariant Valid() && Snapshot() == Run(c, old(Snapshot()), schedule[..n]) && Inv(c, Snapshot())
      {
        ghost var before := Snapshot();
        match schedule[n] {
          case Begin(task) => Ask(task);
          case BootRuns(ok) => BootTurn(ok);
          case WorkerRuns(h, result) => if c.Worker(h) { WorkerTurn(h, result); }
          case Deliver(h) => if c.Worker(h) { Raise(h); }
        }
        NextKeeps(c, before, schedule[n]);
        assert schedule[..n + 1][..n] == schedule[..n];
        n := n + 1;
      }
      assert schedule[..n] == schedule;
    }
  }
}
