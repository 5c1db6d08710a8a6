/**
 The bench kernel as objects that change in place: the statics READY_HART_COUNT, WAIT_COUNT and
 IPI_SENT, and the program position of each hart. Each method takes one turn; its contract is the
 transition of `BenchBarrier` that it implements, so all that is proved there holds of any schedule.
 */
module BenchKernel {
  import opened Bits
  import opened Helpers
  import opened HartMasks
  import opened BenchBarrier

  class Kernel {
    const c: Config
    const harts: array<HartPc>
    const ipiSent: array<bool>
    var round: nat
    var boot: BootPc
    var raised: set<nat>
    var readyHartCount: nat
    var waitCount: nat
    ghost var laps: seq<nat>
    ghost var fenced: seq<seq<nat>>

    ghost predicate Valid()
      reads this
    {
      && c.Valid() && harts.Length == ipiSent.Length == |laps| == |fenced| == c.smp
    }

    ghost function Snapshot(): (s: State)
      requires Valid()
      reads this, harts, ipiSent
      ensures Shaped(c, s)
    {
      State(round, boot, harts[..], ipiSent[..], raised, readyHartCount, waitCount, laps, fenced)
    }

    /** Every secondary is stopped; what `IPI_SENT` holds is not known. */
    constructor (config: Config)
      requires config.Valid()
      ensures Valid() && c == config && IsInitial(c, Snapshot())
      ensures fresh(harts) && fresh(ipiSent)
    {
      c := config;
      harts := new HartPc[config.smp](_ => Stopped);
      ipiSent := new bool[config.smp];
      round, boot, raised, readyHartCount, waitCount := 0, InitFlag(0), {}, 0, 0;
      laps := seq(config.smp, _ => 0);
      fenced := seq(config.smp, _ => []);
    }

    method BootTurn()
      requires Valid()
      modifies this, harts, ipiSent
      ensures Valid() && Snapshot() == BootNext(c, old(Snapshot()))
    {
      match boot {
        case InitFlag(i) =>
          if i < c.smp {
            ipiSent[i] := false;
            boot := if i == c.boot then InitFlag(i + 1) else Start(i);
          } else {
            boot := ClearFlag(0);
          }
        case Start(i) =>
          if i < c.smp {
            if harts[i].Stopped? { harts[i] := StartPending; }
            boot := AwaitStarted(i);
          }
        case AwaitStarted(i) =>
          if i < c.smp && Status(harts[i]) == SUSPENDED { boot := InitFlag(i + 1); }
        case ClearFlag(i) =>
          if i < c.smp {
            ipiSent[i] := false;
            boot := if i == c.boot then ClearFlag(i + 1) else AwaitParked(i);
          } else {
            boot := SetWait;
          }
        case AwaitParked(i) =>
          if i < c.smp && Status(harts[i]) == SUSPENDED { boot := ClearFlag(i + 1); }
        case SetWait =>
          waitCount, boot := c.smp - 1, ResetReady;
        case ResetReady =>
          readyHartCount := 0;
          var masks := BuildBatches(c.width, c.smp, c.boot);
          boot := Send(masks, {});
        case Send(pending, remaining) =>
          if remaining == {} {
            if pending == [] {
              boot := AwaitReady;
            } else {
              boot := Send(pending[1..], Elems(Decode(c.width, pending[0], c.smp)));
            }
          }
        case AwaitReady =>
          if readyHartCount == c.smp - 1 { boot := AwaitWait; }
        case AwaitWait =>
          if waitCount == 0 {
            round := round + 1;
            boot := if round >= ROUNDS then Finished else ClearFlag(0);
          }
        case Finished =>
      }
    }

    method Raise(h: nat)
      requires Valid()
      modifies this
      ensures Valid() && Snapshot() == DeliverNext(old(Snapshot()), h)
    {
      if boot.Send? && h in boot.remaining {
        boot := Send(boot.pending, boot.remaining - {h});
        raised := raised + {h};
      }
    }

    method HartTurn(h: nat)
      requires Valid() && h < c.smp
      modifies this, harts, ipiSent
      ensures Valid() && Snapshot() == HartNext(c, old(Snapshot()), h)
    {
      match harts[h] {
        case Stopped =>
        case StartPending =>
          harts[h] := SuspendCall;
        case SuspendCall =>
          harts[h] := SuspendPending;
        case SuspendPending =>
          harts[h] := Suspended;
        case Suspended =>
          if h in raised {
            raised := raised - {h};
            laps := laps[h := laps[h] + 1];
            harts[h] := ResumePending;
          }
        case ResumePending =>
          harts[h] := CheckFlag;
        case CheckFlag =>
          harts[h] := if ipiSent[h] then Resend else SetFlag;
        case SetFlag =>
          ipiSent[h] := true;
          harts[h] := AddReady;
        case AddReady =>
          readyHartCount := (readyHartCount + 1) % Pow2(c.width);
          harts[h] := SpinReady;
        case SpinReady =>
          if readyHartCount == c.smp - 1 {
            var masks := BuildBatches(c.width, c.smp, c.boot);
            harts[h] := Fence(masks);
          }
        case Fence(todo) =>
          if todo == [] {
            harts[h] := SubWait;
          } else {
            fenced := fenced[h := fenced[h] + Decode(c.width, todo[0], c.smp)];
            harts[h] := Fence(todo[1..]);
          }
        case SubWait =>
          waitCount := (waitCount - 1) % Pow2(c.width);
          harts[h] := SpinWait;
        case SpinWait =>
          if waitCount == 0 { harts[h] := SuspendCall; }
        case Resend =>
      }
    }

    method Turn(e: Event)
      requires Valid()
      modifies this, harts, ipiSent
      ensures Valid() && Snapshot() == Next(c, old(Snapshot()), e)
    {
      match e {
        case BootRuns => BootTurn();
        case Deliver(h) => Raise(h);
        case HartRuns(h) => if c.Secondary(h) { HartTurn(h); }
      }
    }

    /** Runs any schedule of turns; the safety of `BenchBarrier` holds after each of them. */
    method Interleave(schedule: seq<Event>)
      requires Valid() && Inv(c, Snapshot())
      modifies this, harts, ipiSent
      ensures Valid() && Snapshot() == Run(c, old(Snapshot()), schedule)
      ensures Inv(c, Snapshot())
    {
      var n := 0;
      while n < |schedule|
        invariant 0 <= n <= |schedule|
        invariant Valid() && Snapshot() == Run(c, old(Snapshot()), schedule[..n]) && Inv(c, Snapshot())
      {
        ghost var before := Snapshot();
        Turn(schedule[n]);
        NextKeeps(c, before, schedule[n]);
        assert schedule[..n + 1][..n] == schedule[..n];
        n := n + 1;
      }
      assert schedule[..n] == schedule;
    }
  }
}
