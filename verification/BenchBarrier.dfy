/**
 The multi-hart barrier of the bench kernel (firmware/bench-kernel/src/main.rs) as a state
 machine: one boot hart, any number of secondaries, and one transition for each access to a
 shared atomic, each HSM state change and each delivered interrupt. Atomics are sequentially
 consistent, and a suspended hart wakes only on a delivered IPI, which the wake-up consumes.
 */
module BenchBarrier {
  import opened Bits
  import opened Helpers
  import opened HartMasks

  const ROUNDS: nat := 4

  /** Harts `0..smp`, the boot hart among them, and the width of `usize`. */
  datatype Config = Config(smp: nat, boot: nat, width: nat) {
    predicate Valid() {
      boot < smp < Pow2(width)
    }

    predicate Secondary(h: nat) {
      h < smp && h != boot
    }

    function Masks(): seq<HartMask> {
      Batches(width, smp, boot)
    }
  }

  datatype HsmState = STARTED | STOPPED | START_PENDING | SUSPENDED | SUSPEND_PENDING | RESUME_PENDING

  /** Where the boot hart is in `rust_main`. */
  datatype BootPc =
    | InitFlag(i: nat)          // IPI_SENT[i].write(false)
    | Start(i: nat)             // hart_start(i)
    | AwaitStarted(i: nat)      // spin until hart i reports SUSPENDED
    | ClearFlag(i: nat)         // IPI_SENT[i].swap(false)
    | AwaitParked(i: nat)       // spin until hart i reports SUSPENDED
    | SetWait                   // WAIT_COUNT.swap(smp - 1)
    | ResetReady                // READY_HART_COUNT.store(0)
    | Send(pending: seq<HartMask>, remaining: set<nat>) // send_ipi, hart by hart within a mask
    | AwaitReady                // spin until READY_HART_COUNT == smp - 1
    | AwaitWait                 // spin until WAIT_COUNT == 0
    | Finished

  /** Where a secondary hart is in `init_main` and `send_ipi`. */
  datatype HartPc =
    | Stopped
    | StartPending
    | SuspendCall               // about to call hart_suspend
    | SuspendPending
    | Suspended
    | ResumePending
    | CheckFlag                 // IPI_SENT[hartid].load
    | SetFlag                   // IPI_SENT[hartid].swap(true)
    | AddReady                  // READY_HART_COUNT.fetch_add(1)
    | SpinReady                 // spin until READY_HART_COUNT == SMP_COUNT - 1
    | Fence(todo: seq<HartMask>) // remote_sfence_vma for each mask
    | SubWait                   // WAIT_COUNT.fetch_sub(1)
    | SpinWait                  // spin until WAIT_COUNT == 0
    | Resend                    // unreachable!("resend")

  function Status(pc: HartPc): HsmState {
    match pc
    case Stopped => STOPPED
    case StartPending => START_PENDING
    case SuspendPending => SUSPEND_PENDING
    case Suspended => SUSPENDED
    case ResumePending => RESUME_PENDING
    case _ => STARTED
  }

  /**
   `laps[h]` counts the wake-ups of hart `h`, and `fenced[h]` lists the harts of its remote fences so far.
   They are history, no transition reads them.
   */
  datatype State = State(round: nat, boot: BootPc, harts: seq<HartPc>, flags: seq<bool>,
                         ipi: set<nat>, ready: nat, waiting: nat, laps: seq<nat>, fenced: seq<seq<nat>>)

  datatype Event = BootRuns | Deliver(hart: nat) | HartRuns(hart: nat)

  predicate Shaped(c: Config, s: State) {
    |s.harts| == |s.flags| == |s.laps| == |s.fenced| == c.smp
  }

  /** One turn of the boot hart; a spin whose condition fails leaves the state as it is. */
  function BootNext(c: Config, s: State): State
    requires c.Valid() && Shaped(c, s)
  {
    match s.boot
    case InitFlag(i) =>
      if i >= c.smp then s.(boot := ClearFlag(0))
      else s.(flags := s.flags[i := false], boot := if i == c.boot then InitFlag(i + 1) else Start(i))
    case Start(i) =>
      if i >= c.smp then s
      else s.(harts := s.harts[i := if s.harts[i].Stopped? then StartPending else s.harts[i]],
              boot := AwaitStarted(i))
    case AwaitStarted(i) =>
      if i < c.smp && Status(s.harts[i]) == SUSPENDED then s.(boot := InitFlag(i + 1)) else s
    case ClearFlag(i) =>
      if i >= c.smp then s.(boot := SetWait)
      else s.(flags := s.flags[i := false], boot := if i == c.boot then ClearFlag(i + 1) else AwaitParked(i))
    case AwaitParked(i) =>
      if i < c.smp && Status(s.harts[i]) == SUSPENDED then s.(boot := ClearFlag(i + 1)) else s
    case SetWait => s.(waiting := c.smp - 1, boot := ResetReady)
    case ResetReady => s.(ready := 0, boot := Send(c.Masks(), {}))
    case Send(pending, remaining) =>
      if remaining != {} then s
      else if pending == [] then s.(boot := AwaitReady)
      else s.(boot := Send(pending[1..], Elems(Decode(c.width, pending[0], c.smp))))
    case AwaitReady => if s.ready == c.smp - 1 then s.(boot := AwaitWait) else s
    case AwaitWait =>
      if s.waiting != 0 then s
      else s.(round := s.round + 1, boot := if s.round + 1 >= ROUNDS then Finished else ClearFlag(0))
    case Finished => s
  }

  /** The firmware raises the interrupt on one more hart of the mask being sent. */
  function DeliverNext(s: State, h: nat): State {
    if s.boot.Send? && h in s.boot.remaining
    then s.(boot := s.boot.(remaining := s.boot.remaining - {h}), ipi := s.ipi + {h})
    else s
  }

  /** One turn of secondary hart `h`. */
  function HartNext(c: Config, s: State, h: nat): State
    requires c.Valid() && Shaped(c, s) && h < c.smp
  {
    match s.harts[h]
    case Stopped => s
    case StartPending => s.(harts := s.harts[h := SuspendCall])
    case SuspendCall => s.(harts := s.harts[h := SuspendPending])
    case SuspendPending => s.(harts := s.harts[h := Suspended])
    case Suspended =>
      if h in s.ipi
      then s.(harts := s.harts[h := ResumePending], ipi := s.ipi - {h}, laps := s.laps[h := s.laps[h] + 1])
      else s
    case ResumePending => s.(harts := s.harts[h := CheckFlag])
    case CheckFlag => s.(harts := s.harts[h := if s.flags[h] then Resend else SetFlag])
    case SetFlag => s.(harts := s.harts[h := AddReady], flags := s.flags[h := true])
    case AddReady => s.(harts := s.harts[h := SpinReady], ready := (s.ready + 1) % Pow2(c.width))
    case SpinReady => if s.ready == c.smp - 1 then s.(harts := s.harts[h := Fence(c.Masks())]) else s
    case Fence(todo) =>
      if todo == [] then s.(harts := s.harts[h := SubWait])
      else s.(harts := s.harts[h := Fence(todo[1..])],
              fenced := s.fenced[h := s.fenced[h] + Decode(c.width, todo[0], c.smp)])
    case SubWait => s.(harts := s.harts[h := SpinWait], waiting := (s.waiting - 1) % Pow2(c.width))
    case SpinWait => if s.waiting == 0 then s.(harts := s.harts[h := SuspendCall]) else s
    case Resend => s
  }

  function Next(c: Config, s: State, e: Event): (s': State)
    requires c.Valid() && Shaped(c, s)
    ensures Shaped(c, s')
  {
    match e
    case BootRuns => BootNext(c, s)
    case Deliver(h) => DeliverNext(s, h)
    case HartRuns(h) => if c.Secondary(h) then HartNext(c, s, h) else s
  }

  function Run(c: Config, s: State, events: seq<Event>): (s': State)
    requires c.Valid() && Shaped(c, s)
    ensures Shaped(c, s')
    decreases |events|
  {
    if events == [] then s
    else Next(c, Run(c, s, events[..|events| - 1]), events[|events| - 1])
  }

  /** Entry of `rust_main`: the secondaries are stopped; `IPI_SENT` is not initialized. */
  predicate IsInitial(c: Config, s: State) {
    && Shaped(c, s)
    && s.round == 0 && s.boot == InitFlag(0) && s.ipi == {} && s.ready == 0 && s.waiting == 0
    && (forall h :: 0 <= h < c.smp ==> s.harts[h] == Stopped && s.laps[h] == 0 && s.fenced[h] == [])
  }

  // ----- what holds in every reachable state -----

  /** The number of times READY_HART_COUNT has been reset, and WAIT_COUNT set. */
  function ReadyEpoch(s: State): nat {
    s.round + if s.boot.Send? || s.boot.AwaitReady? || s.boot.AwaitWait? then 1 else 0
  }

  function WaitEpoch(s: State): nat {
    ReadyEpoch(s) + if s.boot.ResetReady? then 1 else 0
  }

  predicate Parked(pc: HartPc) { pc.SuspendCall? || pc.SuspendPending? || pc.Suspended? }

  /** Past `WAIT_COUNT.fetch_sub`, past the first spin loop, past `READY_HART_COUNT.fetch_add`. */
  predicate PastSub(pc: HartPc) { Parked(pc) || pc.SpinWait? }

  predicate PastSpinReady(pc: HartPc) { PastSub(pc) || pc.SubWait? || pc.Fence? }

  predicate PastAdd(pc: HartPc) { PastSpinReady(pc) || pc.SpinReady? }

  /** The secondaries past their fetch_add, and past their fetch_sub, of the current round. */
  function Added(c: Config, s: State): set<nat>
    requires Shaped(c, s)
  {
    set h: nat | h < c.smp && c.Secondary(h) && s.laps[h] == ReadyEpoch(s) && PastAdd(s.harts[h])
  }

  function Subbed(c: Config, s: State): set<nat>
    requires Shaped(c, s)
  {
    set h: nat | h < c.smp && c.Secondary(h) && s.laps[h] == WaitEpoch(s) && PastSub(s.harts[h])
  }

  function Undelivered(c: Config, s: State): set<nat>
    requires s.boot.Send?
  {
    s.boot.remaining + Elems(DecodeAll(c.width, s.boot.pending, c.smp))
  }

  ghost predicate Ascending(s: seq<nat>) {
    forall j, k :: 0 <= j < k < |s| ==> s[j] < s[k]
  }

  ghost predicate SharedOk(c: Config, s: State) {
    && Shaped(c, s)
    && s.round <= ROUNDS && (s.boot.Finished? <==> s.round == ROUNDS)
    && (s.boot.InitFlag? || s.boot.Start? || s.boot.AwaitStarted? ==> s.round == 0)
    && (s.boot.InitFlag? || s.boot.ClearFlag? ==> s.boot.i <= c.smp)
    && (s.boot.Start? || s.boot.AwaitStarted? || s.boot.AwaitParked? ==> c.Secondary(s.boot.i))
    && s.ready == (if ReadyEpoch(s) == 0 then 0 else |Added(c, s)|)
    && s.waiting == (if WaitEpoch(s) == 0 then 0 else c.smp - 1 - |Subbed(c, s)|)
    && (s.boot.AwaitWait? ==> s.ready == c.smp - 1)
    && (s.boot.Send? ==>
          && Ascending(DecodeAll(c.width, s.boot.pending, c.smp))
          && s.boot.remaining !! Elems(DecodeAll(c.width, s.boot.pending, c.smp))
          && Undelivered(c, s) <= Secondaries(c))
  }

  /** Before the first round: harts below the one being started have suspended for the first time. */
  ghost predicate StartingOk(s: State, h: nat, i: nat)
    requires h < |s.harts| == |s.laps|
  {
    && s.laps[h] == 0 && h !in s.ipi
    && (h < i ==> s.harts[h].Suspended?)
    && (h == i ==> if s.boot.AwaitStarted? then Parked(s.harts[h]) || s.harts[h].StartPending? else s.harts[h].Stopped?)
    && (h > i ==> s.harts[h].Stopped?)
  }

  /** Between rounds: the hart has left, or is about to leave, its last lap. */
  ghost predicate BetweenOk(s: State, h: nat)
    requires h < |s.harts| == |s.laps|
  {
    s.laps[h] == s.round && h !in s.ipi && PastSub(s.harts[h])
  }

  /** During a round, with `owed` the harts whose interrupt has not been raised yet. */
  ghost predicate RoundOk(c: Config, s: State, h: nat, owed: set<nat>)
    requires c.Secondary(h) && Shaped(c, s)
  {
    if s.laps[h] == s.round then
      s.harts[h].Suspended? && !s.flags[h] && (h in s.ipi <==> h !in owed)
    else
      && s.laps[h] == s.round + 1
      && h !in s.ipi && h !in owed
      && !s.harts[h].Stopped? && !s.harts[h].StartPending? && !s.harts[h].Resend?
      && (s.flags[h] <==> !(s.harts[h].ResumePending? || s.harts[h].CheckFlag? || s.harts[h].SetFlag?))
      && (PastSpinReady(s.harts[h]) ==> s.ready == c.smp - 1)
      && (Parked(s.harts[h]) ==> s.waiting == 0)
  }

  ghost predicate HartOk(c: Config, s: State, h: nat)
    requires c.Secondary(h) && Shaped(c, s)
  {
    match s.boot
    case InitFlag(i) => StartingOk(s, h, i)
    case Start(i) => StartingOk(s, h, i)
    case AwaitStarted(i) => StartingOk(s, h, i)
    case ClearFlag(i) => BetweenOk(s, h) && (h < i ==> s.harts[h].Suspended? && !s.flags[h])
    case AwaitParked(i) => BetweenOk(s, h) && (h < i ==> s.harts[h].Suspended?) && (h <= i ==> !s.flags[h])
    case SetWait => BetweenOk(s, h) && s.harts[h].Suspended? && !s.flags[h]
    case ResetReady => BetweenOk(s, h) && s.harts[h].Suspended? && !s.flags[h]
    case Send(_, _) => RoundOk(c, s, h, Undelivered(c, s))
    case AwaitReady => RoundOk(c, s, h, {})
    case AwaitWait => RoundOk(c, s, h, {})
    case Finished => BetweenOk(s, h)
  }

  ghost predicate Inv(c: Config, s: State) {
    && SharedOk(c, s)
    && forall h: nat | c.Secondary(h) :: HartOk(c, s, h)
  }

  // ----- counting secondaries -----

  function Secondaries(c: Config): set<nat> {
    set h: nat | h < c.smp && c.Secondary(h)
  }

  lemma {:induction false} SecondariesBelowSize(c: Config, n: nat)
    requires c.Valid() && n <= c.smp
    ensures |set h: nat | h < n && c.Secondary(h)| == if c.boot < n then n - 1 else n
  {
    if n > 0 {
      SecondariesBelowSize(c, n - 1);
      var below := set h: nat | h < n - 1 && c.Secondary(h);
      var now := set h: nat | h < n && c.Secondary(h);
      if n - 1 == c.boot {
        assert now == below;
      } else {
        assert now == below + {n - 1} && n - 1 !in below;
      }
    }
  }

  lemma SecondariesSize(c: Config)
    requires c.Valid()
    ensures |Secondaries(c)| == c.smp - 1
  {
    SecondariesBelowSize(c, c.smp);
  }

  lemma SubsetSize(a: set<nat>, b: set<nat>)
    requires a <= b
    ensures |a| <= |b|
    ensures |a| == |b| ==> a == b
  {
    assert b == a + (b - a);
  }

  /** READY and WAIT never leave `0..smp`; either is at its bound only when every secondary has passed. */
  lemma CountsBounded(c: Config, s: State)
    requires c.Valid() && Shaped(c, s)
    ensures |Added(c, s)| <= c.smp - 1 && (|Added(c, s)| == c.smp - 1 ==> Added(c, s) == Secondaries(c))
    ensures |Subbed(c, s)| <= c.smp - 1 && (|Subbed(c, s)| == c.smp - 1 ==> Subbed(c, s) == Secondaries(c))
  {
    SecondariesSize(c);
    SubsetSize(Added(c, s), Secondaries(c));
    SubsetSize(Subbed(c, s), Secondaries(c));
  }

  lemma InitialInv(c: Config, s: State)
    requires c.Valid() && IsInitial(c, s)
    ensures Inv(c, s)
  {
  }

  // ----- every transition keeps the invariant -----

  lemma DeliverKeeps(c: Config, s: State, h: nat)
    requires c.Valid() && Inv(c, s)
    ensures Inv(c, DeliverNext(s, h))
  {
    var s' := DeliverNext(s, h);
    if s' != s {
      assert Added(c, s') == Added(c, s);
      assert Subbed(c, s') == Subbed(c, s);
      assert Undelivered(c, s') == Undelivered(c, s) - {h};
      forall k: nat | c.Secondary(k) ensures HartOk(c, s', k) { assert HartOk(c, s, k); }
    }
  }

  lemma SmallMod(x: nat, m: nat)
    requires x < m
    ensures x % m == x
  {
  }

  /** fetch_add happens below smp - 1 and fetch_sub above zero, so neither counter wraps. */
  lemma CountersDoNotWrap(c: Config, s: State, h: nat)
    requires c.Valid() && Inv(c, s) && c.Secondary(h)
    ensures s.harts[h].AddReady? ==> s.ready < c.smp - 1 && HartNext(c, s, h).ready == s.ready + 1
    ensures s.harts[h].SubWait? ==> 0 < s.waiting <= c.smp - 1 && HartNext(c, s, h).waiting == s.waiting - 1
  {
    assert HartOk(c, s, h);
    CountsBounded(c, s);
    assert h in Secondaries(c);
    if s.harts[h].AddReady? {
      assert h !in Added(c, s);
      SmallMod(s.ready + 1, Pow2(c.width));
    } else if s.harts[h].SubWait? {
      assert h !in Subbed(c, s);
      SmallMod(s.waiting - 1, Pow2(c.width));
    }
  }

  /** States that differ only in what hart `h` may have changed. */
  ghost predicate DifferAt(c: Config, s: State, s': State, h: nat) {
    && Shaped(c, s) && Shaped(c, s')
    && s'.boot == s.boot && s'.round == s.round
    && forall k: nat | k < c.smp && k != h ::
         s'.harts[k] == s.harts[k] && s'.laps[k] == s.laps[k] && s'.flags[k] == s.flags[k] && (k in s'.ipi <==> k in s.ipi)
  }

  lemma HartTurnIsLocal(c: Config, s: State, h: nat)
    requires c.Valid() && Shaped(c, s) && h < c.smp
    ensures DifferAt(c, s, HartNext(c, s, h), h)
  {
  }

  lemma OthersUnaffected(c: Config, s: State, s': State, h: nat, k: nat)
    requires DifferAt(c, s, s', h) && c.Secondary(k) && k != h && HartOk(c, s, k)
    requires s.ready == c.smp - 1 ==> s'.ready == c.smp - 1
    requires s.waiting == 0 ==> s'.waiting == 0
    ensures HartOk(c, s', k)
  {
    if s.boot.Send? { assert Undelivered(c, s') == Undelivered(c, s); }
  }

  lemma AddedAfter(c: Config, s: State, s': State, h: nat)
    requires DifferAt(c, s, s', h) && c.Secondary(h)
    ensures Added(c, s') == if s'.laps[h] == ReadyEpoch(s) && PastAdd(s'.harts[h]) then Added(c, s) + {h} else Added(c, s) - {h}
    ensures Subbed(c, s') == if s'.laps[h] == WaitEpoch(s) && PastSub(s'.harts[h]) then Subbed(c, s) + {h} else Subbed(c, s) - {h}
  {
  }

  /** Outside of a round a hart can only leave its lap and suspend. */
  lemma IdleHartTurn(c: Config, s: State, h: nat)
    requires c.Valid() && Inv(c, s) && c.Secondary(h)
    requires !(s.boot.Send? || s.boot.AwaitReady? || s.boot.AwaitWait?)
    ensures var s' := HartNext(c, s, h);
            && HartOk(c, s', h) && s'.laps[h] == s.laps[h] && s'.ready == s.ready && s'.waiting == s.waiting
            && (PastAdd(s'.harts[h]) || ReadyEpoch(s) == 0)
            && (PastSub(s.harts[h]) ==> PastSub(s'.harts[h]))
  {
    assert HartOk(c, s, h);
  }

  lemma RoundHartTurn(c: Config, s: State, h: nat, owed: set<nat>)
    requires c.Valid() && Inv(c, s) && c.Secondary(h) && RoundOk(c, s, h, owed)
    ensures RoundOk(c, HartNext(c, s, h), h, owed)
  {
    CountersDoNotWrap(c, s, h);
  }

  lemma HartKeepsSelf(c: Config, s: State, h: nat)
    requires c.Valid() && Inv(c, s) && c.Secondary(h)
    ensures HartOk(c, HartNext(c, s, h), h)
  {
    assert HartOk(c, s, h);
    HartTurnIsLocal(c, s, h);
    match s.boot {
      case Send(_, _) =>
        RoundHartTurn(c, s, h, Undelivered(c, s));
      case AwaitReady =>
        RoundHartTurn(c, s, h, {});
      case AwaitWait =>
        RoundHartTurn(c, s, h, {});
      case _ =>
        IdleHartTurn(c, s, h);
    }
  }

  /** In a round, `fetch_add` and `fetch_sub` are the only turns that move a hart past them. */
  lemma RoundHartMembership(c: Config, s: State, h: nat, owed: set<nat>)
    requires c.Valid() && Shaped(c, s) && c.Secondary(h) && RoundOk(c, s, h, owed)
    requires s.boot.Send? || s.boot.AwaitReady? || s.boot.AwaitWait?
    ensures var s' := HartNext(c, s, h);
            && (h in Added(c, s') <==> h in Added(c, s) || s.harts[h].AddReady?)
            && (h in Subbed(c, s') <==> h in Subbed(c, s) || s.harts[h].SubWait?)
            && !(h in Added(c, s) && s.harts[h].AddReady?)
            && !(h in Subbed(c, s) && s.harts[h].SubWait?)
            && (!s.harts[h].AddReady? ==> s'.ready == s.ready)
            && (!s.harts[h].SubWait? ==> s'.waiting == s.waiting)
  {
  }

  lemma HartInRound(c: Config, s: State, h: nat)
    requires c.Valid() && Inv(c, s) && c.Secondary(h)
    requires s.boot.Send? || s.boot.AwaitReady? || s.boot.AwaitWait?
    ensures RoundOk(c, s, h, if s.boot.Send? then Undelivered(c, s) else {})
  {
    assert HartOk(c, s, h);
  }

  lemma AtMostOneMore(a: set<nat>, b: set<nat>, h: nat)
    requires b == a + {h} || b == a - {h}
    requires h in a ==> h in b
    ensures if h in b && h !in a then |b| == |a| + 1 else b == a
  {
  }

  /** What a local change does to the two counts. */
  lemma CountsAfter(c: Config, s: State, s': State, h: nat)
    requires DifferAt(c, s, s', h) && c.Secondary(h)
    requires h in Added(c, s) ==> h in Added(c, s')
    requires h in Subbed(c, s) ==> h in Subbed(c, s')
    ensures |Added(c, s')| == |Added(c, s)| + if h in Added(c, s') && h !in Added(c, s) then 1 else 0
    ensures |Subbed(c, s')| == |Subbed(c, s)| + if h in Subbed(c, s') && h !in Subbed(c, s) then 1 else 0
  {
    AddedAfter(c, s, s', h);
    AtMostOneMore(Added(c, s), Added(c, s'), h);
    AtMostOneMore(Subbed(c, s), Subbed(c, s'), h);
  }

  lemma HartKeepsCounters(c: Config, s: State, h: nat)
    requires c.Valid() && Inv(c, s) && c.Secondary(h)
    ensures var s' := HartNext(c, s, h);
            && s'.ready == (if ReadyEpoch(s) == 0 then 0 else |Added(c, s')|)
            && s'.waiting == (if WaitEpoch(s) == 0 then 0 else c.smp - 1 - |Subbed(c, s')|)
  {
    var s' := HartNext(c, s, h);
    HartTurnIsLocal(c, s, h);
    if s.boot.Send? || s.boot.AwaitReady? || s.boot.AwaitWait? {
      RoundHartKeepsCounters(c, s, h);
    } else {
      IdleHartKeepsCounters(c, s, h);
    }
  }

  lemma IdleHartKeepsCounters(c: Config, s: State, h: nat)
    requires c.Valid() && Inv(c, s) && c.Secondary(h)
    requires !(s.boot.Send? || s.boot.AwaitReady? || s.boot.AwaitWait?)
    ensures var s' := HartNext(c, s, h);
            && s'.ready == (if ReadyEpoch(s) == 0 then 0 else |Added(c, s')|)
            && s'.waiting == (if WaitEpoch(s) == 0 then 0 else c.smp - 1 - |Subbed(c, s')|)
  {
    HartTurnIsLocal(c, s, h);
    IdleHartTurn(c, s, h);
    IdleHartCounted(c, s, h);
    if WaitEpoch(s) > 0 { CountsAfter(c, s, HartNext(c, s, h), h); }
  }

  lemma RoundHartKeepsCounters(c: Config, s: State, h: nat)
    requires c.Valid() && Inv(c, s) && c.Secondary(h)
    requires s.boot.Send? || s.boot.AwaitReady? || s.boot.AwaitWait?
    ensures var s' := HartNext(c, s, h);
            s'.ready == |Added(c, s')| && s'.waiting == c.smp - 1 - |Subbed(c, s')|
  {
    HartTurnIsLocal(c, s, h);
    HartInRound(c, s, h);
    RoundHartMembership(c, s, h, if s.boot.Send? then Undelivered(c, s) else {});
    CountersDoNotWrap(c, s, h);
    CountsAfter(c, s, HartNext(c, s, h), h);
  }

  lemma IdleHartCounted(c: Config, s: State, h: nat)
    requires c.Valid() && Inv(c, s) && c.Secondary(h)
    requires !(s.boot.Send? || s.boot.AwaitReady? || s.boot.AwaitWait?)
    ensures ReadyEpoch(s) > 0 ==> h in Added(c, s)
    ensures h in Subbed(c, s) <==> s.laps[h] == WaitEpoch(s) && PastSub(s.harts[h])
    ensures WaitEpoch(s) > 0 ==> PastSub(s.harts[h])
  {
    assert HartOk(c, s, h);
  }

  lemma HartKeepsShared(c: Config, s: State, h: nat)
    requires c.Valid() && Inv(c, s) && c.Secondary(h)
    ensures SharedOk(c, HartNext(c, s, h))
  {
    HartTurnIsLocal(c, s, h);
    HartKeepsCounters(c, s, h);
    CountersDoNotWrap(c, s, h);
    if s.boot.AwaitWait? {
      CountsBounded(c, s);
      HartInRound(c, s, h);
      assert h in Secondaries(c);
    }
  }

  lemma HartKeeps(c: Config, s: State, h: nat)
    requires c.Valid() && Inv(c, s) && c.Secondary(h)
    ensures Inv(c, HartNext(c, s, h))
  {
    var s' := HartNext(c, s, h);
    HartTurnIsLocal(c, s, h);
    HartKeepsShared(c, s, h);
    CountersDoNotWrap(c, s, h);
    forall k: nat | c.Secondary(k) ensures HartOk(c, s', k) {
      assert HartOk(c, s, k);
      if k == h { HartKeepsSelf(c, s, h); } else {
        KeepsThresholds(c, s, h);
        OthersUnaffected(c, s, s', h, k);
      }
    }
  }

  lemma KeepsThresholds(c: Config, s: State, h: nat)
    requires c.Valid() && Inv(c, s) && c.Secondary(h)
    ensures s.ready == c.smp - 1 ==> HartNext(c, s, h).ready == c.smp - 1
    ensures s.waiting == 0 ==> HartNext(c, s, h).waiting == 0
  {
    CountersDoNotWrap(c, s, h);
  }

  lemma BootKeepsStarting(c: Config, s: State)
    requires c.Valid() && Inv(c, s)
    requires s.boot.InitFlag? || s.boot.Start? || s.boot.AwaitStarted?
    ensures Inv(c, BootNext(c, s))
  {
    var s' := BootNext(c, s);
    forall k: nat | c.Secondary(k) ensures HartOk(c, s', k) { assert HartOk(c, s, k); }
    assert WaitEpoch(s) == 0 && WaitEpoch(s') == 0;
  }

  lemma BootKeepsParking(c: Config, s: State)
    requires c.Valid() && Inv(c, s)
    requires s.boot.ClearFlag? || s.boot.AwaitParked?
    ensures Inv(c, BootNext(c, s))
  {
    var s' := BootNext(c, s);
    forall k: nat | c.Secondary(k) ensures HartOk(c, s', k) { assert HartOk(c, s, k); }
    SameCounts(c, s, s');
  }

  /** When the counters are reset, no secondary counts for the new round yet. */
  lemma BootKeepsResetting(c: Config, s: State)
    requires c.Valid() && Inv(c, s)
    requires s.boot.SetWait? || s.boot.ResetReady?
    ensures Inv(c, BootNext(c, s))
  {
    var s' := BootNext(c, s);
    BatchesCoverSecondaries(c.width, c.smp, c.boot);
    SecondariesAreAllOnce(c.smp, c.boot, 0);
    forall k: nat | c.Secondary(k) ensures HartOk(c, s', k) { assert HartOk(c, s, k); }
    if s.boot.SetWait? {
      assert Added(c, s') == Added(c, s);
      assert Subbed(c, s') == {} by {
        forall k: nat | c.Secondary(k) ensures s.laps[k] == s.round { assert HartOk(c, s, k); }
      }
    } else {
      assert Subbed(c, s') == Subbed(c, s);
      assert Added(c, s') == {} by {
        forall k: nat | c.Secondary(k) ensures s.laps[k] == s.round { assert HartOk(c, s, k); }
      }
    }
  }

  /** Passing a mask to the firmware changes nothing about whose interrupt is still to be raised. */
  lemma MaskPassedOn(c: Config, s: State)
    requires c.Valid() && SharedOk(c, s) && s.boot.Send? && s.boot.remaining == {} && s.boot.pending != []
    ensures var s' := BootNext(c, s);
            && s'.boot.Send? && Undelivered(c, s') == Undelivered(c, s)
            && Ascending(DecodeAll(c.width, s'.boot.pending, c.smp))
            && s'.boot.remaining !! Elems(DecodeAll(c.width, s'.boot.pending, c.smp))
  {
    var first := Decode(c.width, s.boot.pending[0], c.smp);
    var rest := DecodeAll(c.width, s.boot.pending[1..], c.smp);
    AscendingSplit(first, rest);
  }

  lemma SendingKeepsHart(c: Config, s: State, h: nat)
    requires c.Valid() && SharedOk(c, s) && s.boot.Send? && c.Secondary(h) && HartOk(c, s, h)
    ensures HartOk(c, BootNext(c, s), h)
  {
    if s.boot.remaining == {} {
      if s.boot.pending == [] {
        assert Undelivered(c, s) == {};
      } else {
        MaskPassedOn(c, s);
      }
    }
  }

  lemma SameCounts(c: Config, s: State, s': State)
    requires Shaped(c, s) && Shaped(c, s') && s'.harts == s.harts && s'.laps == s.laps
    requires ReadyEpoch(s') == ReadyEpoch(s) && WaitEpoch(s') == WaitEpoch(s)
    ensures Added(c, s') == Added(c, s) && Subbed(c, s') == Subbed(c, s)
  {
  }

  lemma SendingKeepsShared(c: Config, s: State)
    requires c.Valid() && SharedOk(c, s) && s.boot.Send?
    ensures SharedOk(c, BootNext(c, s))
  {
    SameCounts(c, s, BootNext(c, s));
    if s.boot.remaining == {} && s.boot.pending != [] { MaskPassedOn(c, s); }
  }

  lemma BootKeepsSending(c: Config, s: State)
    requires c.Valid() && Inv(c, s) && s.boot.Send?
    ensures Inv(c, BootNext(c, s))
  {
    SendingKeepsShared(c, s);
    forall k: nat | c.Secondary(k) ensures HartOk(c, BootNext(c, s), k) {
      assert HartOk(c, s, k);
      SendingKeepsHart(c, s, k);
    }
  }

  lemma AscendingSplit(a: seq<nat>, b: seq<nat>)
    requires Ascending(a + b)
    ensures Ascending(b) && Elems(a) !! Elems(b) && Elems(a + b) == Elems(a) + Elems(b)
  {
    forall j, k | 0 <= j < k < |b| ensures b[j] < b[k] {
      assert (a + b)[|a| + j] < (a + b)[|a| + k];
    }
    forall x | x in Elems(a) ensures x !in Elems(b) {
      var j :| 0 <= j < |a| && a[j] == x;
      forall k | 0 <= k < |b| ensures b[k] != x {
        assert (a + b)[j] < (a + b)[|a| + k];
      }
    }
  }

  /** The boot hart leaves its spin loops only when every secondary has passed the matching step. */
  lemma BootKeepsSpinning(c: Config, s: State)
    requires c.Valid() && Inv(c, s)
    requires s.boot.AwaitReady? || s.boot.AwaitWait?
    ensures Inv(c, BootNext(c, s))
  {
    var s' := BootNext(c, s);
    CountsBounded(c, s);
    forall k: nat | c.Secondary(k) ensures HartOk(c, s', k) {
      assert HartOk(c, s, k);
      if s.boot.AwaitWait? && s' != s { assert k in Secondaries(c) && k in Subbed(c, s); }
    }
    if s' != s { SameCounts(c, s, s'); }
  }

  lemma NextKeeps(c: Config, s: State, e: Event)
    requires c.Valid() && Inv(c, s)
    ensures Inv(c, Next(c, s, e))
  {
    match e {
      case Deliver(h) =>
        DeliverKeeps(c, s, h);
      case HartRuns(h) =>
        if c.Secondary(h) { HartKeeps(c, s, h); }
      case BootRuns =>
        match s.boot {
          case InitFlag(_) => BootKeepsStarting(c, s);
          case Start(_) => BootKeepsStarting(c, s);
          case AwaitStarted(_) => BootKeepsStarting(c, s);
          case ClearFlag(_) => BootKeepsParking(c, s);
          case AwaitParked(_) => BootKeepsParking(c, s);
          case SetWait => BootKeepsResetting(c, s);
          case ResetReady => BootKeepsResetting(c, s);
          case Send(_, _) => BootKeepsSending(c, s);
          case AwaitReady => BootKeepsSpinning(c, s);
          case AwaitWait => BootKeepsSpinning(c, s);
          case Finished =>
        }
    }
  }

  lemma {:induction false} RunKeeps(c: Config, s: State, events: seq<Event>)
    requires c.Valid() && Inv(c, s)
    ensures Inv(c, Run(c, s, events))
    decreases |events|
  {
    if events != [] {
      RunKeeps(c, s, events[..|events| - 1]);
      NextKeeps(c, Run(c, s, events[..|events| - 1]), events[|events| - 1]);
    }
  }

  // ----- safety of every run -----

  /**
   In every interleaving: READY_HART_COUNT is the number of secondaries past their fetch_add of the
   round, WAIT_COUNT is `smp - 1` minus the number past their fetch_sub, and neither ever wraps.
   */
  lemma CountersCountHarts(c: Config, s0: State, events: seq<Event>)
    requires c.Valid() && IsInitial(c, s0)
    ensures var s := Run(c, s0, events);
            && (ReadyEpoch(s) > 0 ==> s.ready == |Added(c, s)|)
            && (WaitEpoch(s) > 0 ==> s.waiting == c.smp - 1 - |Subbed(c, s)|)
            && s.ready <= c.smp - 1 && s.waiting <= c.smp - 1
            && (forall h: nat | c.Secondary(h) ::
                  && (s.harts[h].AddReady? ==> s.ready < c.smp - 1)
                  && (s.harts[h].SubWait? ==> s.waiting > 0))
  {
    InitialInv(c, s0);
    RunKeeps(c, s0, events);
    var s := Run(c, s0, events);
    CountsBounded(c, s);
    forall h: nat | c.Secondary(h)
      ensures (s.harts[h].AddReady? ==> s.ready < c.smp - 1) && (s.harts[h].SubWait? ==> s.waiting > 0)
    {
      CountersDoNotWrap(c, s, h);
    }
  }

  /** A hart gets ahead of another one only while the other is suspended, and by one lap at most. */
  lemma LapsDoNotOverlap(c: Config, s0: State, events: seq<Event>, h: nat, k: nat)
    requires c.Valid() && IsInitial(c, s0) && c.Secondary(h) && c.Secondary(k)
    ensures var s := Run(c, s0, events);
            s.laps[h] > s.laps[k] ==> s.laps[h] == s.laps[k] + 1 && Status(s.harts[k]) == SUSPENDED
  {
    InitialInv(c, s0);
    RunKeeps(c, s0, events);
    var s := Run(c, s0, events);
    assert HartOk(c, s, h) && HartOk(c, s, k);
  }

  lemma FencingHartInRound(c: Config, s: State, h: nat)
    requires c.Valid() && Inv(c, s) && c.Secondary(h) && s.harts[h].Fence?
    ensures s.boot.Send? || s.boot.AwaitReady? || s.boot.AwaitWait?
    ensures s.ready == c.smp - 1 && 0 < s.waiting
  {
    assert HartOk(c, s, h);
    CountsBounded(c, s);
    assert h in Secondaries(c) && h !in Subbed(c, s);
  }

  /** While a hart issues remote fences every secondary is started: none is, or is about to be, suspended. */
  lemma FencesFindHartsAwake(c: Config, s0: State, events: seq<Event>, h: nat, k: nat)
    requires c.Valid() && IsInitial(c, s0) && c.Secondary(h) && c.Secondary(k)
    ensures var s := Run(c, s0, events);
            s.harts[h].Fence? ==> Status(s.harts[k]) == STARTED && !s.harts[k].SuspendCall?
  {
    InitialInv(c, s0);
    RunKeeps(c, s0, events);
    var s := Run(c, s0, events);
    if s.harts[h].Fence? {
      FencingHartInRound(c, s, h);
      CountsBounded(c, s);
      assert k in Secondaries(c) && k in Added(c, s);
      HartInRound(c, s, k);
    }
  }

  /** The branch that reports a second interrupt in one round is never taken. */
  lemma NeverResent(c: Config, s0: State, events: seq<Event>, h: nat)
    requires c.Valid() && IsInitial(c, s0) && c.Secondary(h)
    ensures !Run(c, s0, events).harts[h].Resend?
  {
    InitialInv(c, s0);
    RunKeeps(c, s0, events);
    assert HartOk(c, Run(c, s0, events), h);
  }

  // ----- progress of every run -----

  function MaskCount(c: Config): nat { |c.Masks()| }

  /** Turns a hart still has in its lap. */
  function LapRank(c: Config, pc: HartPc): nat {
    match pc
    case Suspended => 0
    case SuspendPending => 1
    case SuspendCall => 2
    case StartPending => 3
    case Stopped => 4
    case SpinWait => 3
    case SubWait => 4
    case Fence(todo) => 5 + |todo|
    case SpinReady => 6 + MaskCount(c)
    case Resend => 6
    case AddReady => 7 + MaskCount(c)
    case SetFlag => 8 + MaskCount(c)
    case CheckFlag => 9 + MaskCount(c)
    case ResumePending => 10 + MaskCount(c)
  }

  /** `unit` added up `n` times. */
  function Times(n: int, unit: nat): nat {
    if n <= 0 then 0 else unit + Times(n - 1, unit)
  }

  /** The rank of a hart with `left` laps to go. */
  function HartRank(c: Config, left: int, pc: HartPc): nat {
    Times(left, MaskCount(c) + 11) + LapRank(c, pc)
  }

  /** Turns and deliveries it takes to send all of `pending`. */
  function SendRank(c: Config, pending: seq<HartMask>): nat {
    |pending| + |DecodeAll(c.width, pending, c.smp)|
  }

  function RoundLength(c: Config): nat {
    6 + SendRank(c, c.Masks()) + 2 * c.smp
  }

  /** Turns the boot hart still has, interrupts still to be delivered included. */
  function Left(c: Config, i: nat): nat {
    if i <= c.smp then c.smp - i else 0
  }

  function BootPcRank(c: Config, pc: BootPc): nat {
    match pc
    case Finished => 0
    case AwaitWait => 1
    case AwaitReady => 2
    case Send(pending, remaining) => 3 + |remaining| + SendRank(c, pending)
    case ResetReady => 4 + SendRank(c, c.Masks())
    case SetWait => 5 + SendRank(c, c.Masks())
    case ClearFlag(i) => 6 + SendRank(c, c.Masks()) + 2 * Left(c, i)
    case AwaitParked(i) => 5 + SendRank(c, c.Masks()) + 2 * Left(c, i)
    case InitFlag(i) => RoundLength(c) + 1 + 3 * Left(c, i)
    case Start(i) => RoundLength(c) + 3 * Left(c, i)
    case AwaitStarted(i) => RoundLength(c) - 1 + 3 * Left(c, i)
  }

  function BootRank(c: Config, s: State): nat {
    Times(ROUNDS - s.round, RoundLength(c)) + BootPcRank(c, s.boot)
  }

  function HartRanks(c: Config, s: State, n: nat): nat
    requires Shaped(c, s) && n <= c.smp
  {
    if n == 0 then 0 else HartRanks(c, s, n - 1) + if c.Secondary(n - 1) then HartRank(c, ROUNDS - s.laps[n - 1], s.harts[n - 1]) else 0
  }

  function Measure(c: Config, s: State): nat
    requires Shaped(c, s)
  {
    BootRank(c, s) + HartRanks(c, s, c.smp)
  }

  lemma {:induction false} HartRanksDiffer(c: Config, s: State, s': State, h: nat, n: nat)
    requires Shaped(c, s) && Shaped(c, s') && n <= c.smp
    requires forall k :: 0 <= k < c.smp && k != h ==> s'.laps[k] == s.laps[k] && s'.harts[k] == s.harts[k]
    ensures HartRanks(c, s', n) - HartRanks(c, s, n)
         == if h < n && c.Secondary(h) then HartRank(c, ROUNDS - s'.laps[h], s'.harts[h]) - HartRank(c, ROUNDS - s.laps[h], s.harts[h]) else 0
  {
    if n > 0 { HartRanksDiffer(c, s, s', h, n - 1); }
  }

  lemma {:induction false} ElemsSize(s: seq<nat>)
    ensures |Elems(s)| <= |s|
  {
    if s != [] {
      ElemsSize(s[1..]);
      assert Elems(s) == Elems(s[1..]) + {s[0]};
    }
  }

  lemma SameBootRank(c: Config, s: State, s': State)
    requires s'.round == s.round && s'.boot == s.boot
    ensures BootRank(c, s') == BootRank(c, s)
  {
  }

  lemma HartRanksDrop(c: Config, s: State, s': State, h: nat)
    requires DifferAt(c, s, s', h) && c.Secondary(h)
    requires HartRank(c, ROUNDS - s'.laps[h], s'.harts[h]) < HartRank(c, ROUNDS - s.laps[h], s.harts[h])
    ensures HartRanks(c, s', c.smp) < HartRanks(c, s, c.smp)
  {
    HartRanksDiffer(c, s, s', h, c.smp);
  }

  lemma ShrinksAt(c: Config, s: State, s': State, h: nat)
    requires DifferAt(c, s, s', h) && c.Secondary(h)
    requires HartRank(c, ROUNDS - s'.laps[h], s'.harts[h]) < HartRank(c, ROUNDS - s.laps[h], s.harts[h])
    ensures Measure(c, s') < Measure(c, s)
  {
    HartRanksDrop(c, s, s', h);
    SameBootRank(c, s, s');
  }

  lemma HartTurnShrinks(c: Config, s: State, h: nat)
    requires c.Valid() && Inv(c, s) && c.Secondary(h) && HartNext(c, s, h) != s
    ensures Measure(c, HartNext(c, s, h)) < Measure(c, s)
  {
    HartTurnIsLocal(c, s, h);
    assert HartOk(c, s, h);
    HartRankShrinks(c, s, h);
    ShrinksAt(c, s, HartNext(c, s, h), h);
  }

  lemma HartRankShrinks(c: Config, s: State, h: nat)
    requires c.Valid() && Shaped(c, s) && c.Secondary(h) && HartNext(c, s, h) != s
    requires h in s.ipi ==> s.laps[h] < ROUNDS
    ensures var s' := HartNext(c, s, h);
            HartRank(c, ROUNDS - s'.laps[h], s'.harts[h]) < HartRank(c, ROUNDS - s.laps[h], s.harts[h])
  {
    var s' := HartNext(c, s, h);
    if s.harts[h].Suspended? {
      assert LapRank(c, s'.harts[h]) == MaskCount(c) + 10;
      TimesOnce(ROUNDS - s.laps[h], MaskCount(c) + 11);
    } else {
      assert s'.laps[h] == s.laps[h];
      assert LapRank(c, s'.harts[h]) < LapRank(c, s.harts[h]);
    }
  }

  lemma BootTurnShrinks(c: Config, s: State)
    requires c.Valid() && Inv(c, s) && BootNext(c, s) != s
    ensures Measure(c, BootNext(c, s)) < Measure(c, s)
  {
    var s' := BootNext(c, s);
    if s.boot.Start? {
      assert HartOk(c, s, s.boot.i);
      HartRanksDiffer(c, s, s', s.boot.i, c.smp);
    } else {
      HartRanksDiffer(c, s, s', c.smp, c.smp);
    }
    BootRankShrinks(c, s);
  }

  lemma RoundStartRank(c: Config)
    ensures BootPcRank(c, ClearFlag(0)) == RoundLength(c)
  {
    assert Left(c, 0) == c.smp;
  }

  lemma TimesOnce(n: int, unit: nat)
    requires n > 0
    ensures Times(n, unit) == unit + Times(n - 1, unit)
  {
  }

  /** The boot hart ends a round. */
  lemma RoundRankShrinks(c: Config, s: State, s': State)
    requires s.boot.AwaitWait? && s.round < ROUNDS
    requires s'.round == s.round + 1 && (s'.boot == ClearFlag(0) || s'.boot == Finished)
    ensures BootRank(c, s') < BootRank(c, s)
  {
    RoundStartRank(c);
    TimesOnce(ROUNDS - s.round, RoundLength(c));
    assert BootPcRank(c, s'.boot) <= RoundLength(c) && BootPcRank(c, s.boot) == 1;
  }

  lemma SameRoundShrinks(c: Config, s: State, s': State)
    requires s'.round == s.round && BootPcRank(c, s'.boot) < BootPcRank(c, s.boot)
    ensures BootRank(c, s') < BootRank(c, s)
  {
  }

  lemma BootRankShrinks(c: Config, s: State)
    requires c.Valid() && Shaped(c, s) && BootNext(c, s) != s
    requires s.boot.InitFlag? || s.boot.ClearFlag? ==> s.boot.i <= c.smp
    requires s.round < ROUNDS
    ensures BootRank(c, BootNext(c, s)) < BootRank(c, s)
  {
    if s.boot.AwaitWait? {
      RoundRankShrinks(c, s, BootNext(c, s));
    } else {
      BootPcRankShrinks(c, s);
      SameRoundShrinks(c, s, BootNext(c, s));
    }
  }

  lemma PassingRankShrinks(c: Config, pending: seq<HartMask>)
    requires pending != []
    ensures BootPcRank(c, Send(pending[1..], Elems(Decode(c.width, pending[0], c.smp)))) < BootPcRank(c, Send(pending, {}))
  {
    ElemsSize(Decode(c.width, pending[0], c.smp));
  }

  lemma StartingRankShrinks(c: Config, s: State)
    requires c.Valid() && Shaped(c, s) && BootNext(c, s) != s
    requires s.boot.InitFlag? || s.boot.Start? || s.boot.AwaitStarted?
    requires s.boot.InitFlag? ==> s.boot.i <= c.smp
    ensures BootPcRank(c, BootNext(c, s).boot) < BootPcRank(c, s.boot)
  {
    RoundStartRank(c);
  }

  lemma BootPcRankShrinks(c: Config, s: State)
    requires c.Valid() && Shaped(c, s) && BootNext(c, s) != s && !s.boot.AwaitWait?
    requires s.boot.InitFlag? || s.boot.ClearFlag? ==> s.boot.i <= c.smp
    ensures BootPcRank(c, BootNext(c, s).boot) < BootPcRank(c, s.boot)
  {
    match s.boot
    case InitFlag(_) => StartingRankShrinks(c, s);
    case Start(_) => StartingRankShrinks(c, s);
    case AwaitStarted(_) => StartingRankShrinks(c, s);
    case Send(pending, _) => if pending != [] { PassingRankShrinks(c, pending); }
    case _ =>
  }

  lemma DeliveryRankShrinks(c: Config, pending: seq<HartMask>, remaining: set<nat>, h: nat)
    requires h in remaining
    ensures BootPcRank(c, Send(pending, remaining - {h})) < BootPcRank(c, Send(pending, remaining))
  {
    assert remaining == (remaining - {h}) + {h};
  }

  lemma DeliveryShrinks(c: Config, s: State, h: nat)
    requires Shaped(c, s) && DeliverNext(s, h) != s
    ensures Measure(c, DeliverNext(s, h)) < Measure(c, s)
  {
    var s' := DeliverNext(s, h);
    HartRanksDiffer(c, s, s', c.smp, c.smp);
    DeliveryRankShrinks(c, s.boot.pending, s.boot.remaining, h);
    SameRoundShrinks(c, s, s');
  }

  /** Every transition that is not a spin brings the run closer to its end. */
  lemma NextShrinks(c: Config, s: State, e: Event)
    requires c.Valid() && Inv(c, s) && Next(c, s, e) != s
    ensures Measure(c, Next(c, s, e)) < Measure(c, s)
  {
    match e {
      case BootRuns => BootTurnShrinks(c, s);
      case Deliver(h) => DeliveryShrinks(c, s, h);
      case HartRuns(h) => HartTurnShrinks(c, s, h);
    }
  }

  /** A turn of the boot hart or of a secondary, or the delivery of an IPI to one. */
  predicate IsTurn(c: Config, e: Event) {
    match e
    case BootRuns => true
    case Deliver(h) => c.Secondary(h)
    case HartRuns(h) => c.Secondary(h)
  }

  /** A secondary that the boot hart waits for always has a turn that is not a spin. */
  lemma WaitedForHartMoves(c: Config, s: State) returns (e: Event)
    requires c.Valid() && Inv(c, s)
    requires s.boot.AwaitReady? || s.boot.AwaitWait?
    requires BootNext(c, s) == s
    ensures Next(c, s, e) != s && IsTurn(c, e)
  {
    CountsBounded(c, s);
    SecondariesSize(c);
    if s.boot.AwaitReady? {
      assert Added(c, s) != Secondaries(c);
      var h :| h in Secondaries(c) && h !in Added(c, s);
      assert HartOk(c, s, h);
      e := HartRuns(h);
    } else {
      assert Subbed(c, s) != Secondaries(c);
      var h :| h in Secondaries(c) && h !in Subbed(c, s);
      assert Added(c, s) == Secondaries(c);
      assert HartOk(c, s, h);
      e := HartRuns(h);
    }
  }

  lemma SomeoneMoves(c: Config, s: State) returns (e: Event)
    requires c.Valid() && Inv(c, s) && !s.boot.Finished?
    ensures Next(c, s, e) != s && IsTurn(c, e)
  {
    e := BootRuns;
    match s.boot {
      case AwaitStarted(i) =>
        assert HartOk(c, s, i);
        if !s.harts[i].Suspended? { e := HartRuns(i); }
      case AwaitParked(i) =>
        assert HartOk(c, s, i);
        if !s.harts[i].Suspended? {
          e := HartRuns(i);
          CountsBounded(c, s);
          NobodyWaitedFor(c, s);
        }
      case Send(pending, remaining) =>
        if remaining != {} {
          var h :| h in remaining;
          e := Deliver(h);
        }
      case AwaitReady =>
        if BootNext(c, s) == s { e := WaitedForHartMoves(c, s); }
      case AwaitWait =>
        if BootNext(c, s) == s { e := WaitedForHartMoves(c, s); }
      case _ =>
    }
  }

  lemma NobodyWaitedFor(c: Config, s: State)
    requires c.Valid() && Inv(c, s) && s.boot.AwaitParked?
    ensures s.waiting == 0
  {
    SecondariesSize(c);
    if WaitEpoch(s) > 0 {
      assert Subbed(c, s) == Secondaries(c) by {
        forall k: nat | c.Secondary(k) ensures k in Subbed(c, s) { assert HartOk(c, s, k); }
      }
    }
  }

  /** The barrier never deadlocks: with rounds left, some hart has a turn that is not a spin. */
  lemma NeverDeadlocks(c: Config, s0: State, events: seq<Event>)
    requires c.Valid() && IsInitial(c, s0)
    ensures var s := Run(c, s0, events);
            s.boot.Finished? || exists e :: Next(c, s, e) != s
  {
    InitialInv(c, s0);
    RunKeeps(c, s0, events);
    var s := Run(c, s0, events);
    if !s.boot.Finished? {
      var e := SomeoneMoves(c, s);
    }
  }

  /** Turns that changed something, among the turns of a run. */
  function Moves(c: Config, s: State, events: seq<Event>): nat
    requires c.Valid() && Shaped(c, s)
    decreases |events|
  {
    if events == [] then 0
    else
      var front := events[..|events| - 1];
      Moves(c, s, front) + if Run(c, s, events) != Run(c, s, front) then 1 else 0
  }

  /** No schedule makes more moves than the measure of the initial state. */
  lemma {:induction false} MovesBounded(c: Config, s: State, events: seq<Event>)
    requires c.Valid() && Inv(c, s)
    ensures Moves(c, s, events) <= Measure(c, s) - Measure(c, Run(c, s, events))
    ensures Moves(c, s, events) <= Measure(c, s)
    decreases |events|
  {
    RunKeeps(c, s, events);
    if events != [] {
      var front := events[..|events| - 1];
      MovesBounded(c, s, front);
      RunKeeps(c, s, front);
      if Run(c, s, events) != Run(c, s, front) {
        NextShrinks(c, Run(c, s, front), events[|events| - 1]);
      }
    }
  }

  /** From every reachable state the run can be completed, and then every hart has run every round. */
  lemma {:induction false} Completes(c: Config, s: State) returns (events: seq<Event>)
    requires c.Valid() && Inv(c, s)
    ensures Run(c, s, events).boot.Finished?
    ensures forall h: nat | c.Secondary(h) :: Run(c, s, events).laps[h] == ROUNDS
    decreases Measure(c, s)
  {
    if s.boot.Finished? {
      events := [];
      forall h: nat | c.Secondary(h) ensures s.laps[h] == ROUNDS { assert HartOk(c, s, h); }
    } else {
      var e := SomeoneMoves(c, s);
      NextKeeps(c, s, e);
      NextShrinks(c, s, e);
      var rest := Completes(c, Next(c, s, e));
      events := [e] + rest;
      RunAppends(c, s, [e], rest);
      assert Run(c, s, [e]) == Next(c, s, e) by { assert [e][..0] == []; }
    }
  }

  // ----- every fair schedule completes -----

  /** A pass of a schedule gives every hart a turn, and every IPI the chance to be delivered, in any order. */
  ghost predicate IsPass(c: Config, pass: seq<Event>) {
    forall e: Event | IsTurn(c, e) :: e in pass
  }

  function Flat(passes: seq<seq<Event>>): seq<Event> {
    if passes == [] then [] else passes[0] + Flat(passes[1..])
  }

  /** Turns that change nothing leave the state that the run started from. */
  lemma {:induction false} NothingMoved(c: Config, s: State, events: seq<Event>, i: nat)
    requires c.Valid() && Shaped(c, s) && Moves(c, s, events) == 0
    ensures Run(c, s, events) == s
    ensures i < |events| ==> Next(c, s, events[i]) == s
    decreases |events|
  {
    if events != [] {
      var last := |events| - 1;
      NothingMoved(c, s, events[..last], i);
      if i < last { assert events[..last][i] == events[i]; }
    }
  }

  /** A pass from an unfinished state changes something. */
  lemma PassMoves(c: Config, s: State, pass: seq<Event>)
    requires c.Valid() && Inv(c, s) && !s.boot.Finished? && IsPass(c, pass)
    ensures Moves(c, s, pass) > 0
  {
    var e := SomeoneMoves(c, s);
    assert e in pass;
    var i :| 0 <= i < |pass| && pass[i] == e;
    if Moves(c, s, pass) == 0 { NothingMoved(c, s, pass, i); }
  }

  lemma {:induction false} StaysFinished(c: Config, s: State, events: seq<Event>)
    requires c.Valid() && Shaped(c, s) && s.boot.Finished?
    ensures Run(c, s, events).boot.Finished?
    decreases |events|
  {
    if events != [] { StaysFinished(c, s, events[..|events| - 1]); }
  }

  lemma {:induction false} PassesFinish(c: Config, s: State, passes: seq<seq<Event>>)
    requires c.Valid() && Inv(c, s)
    requires |passes| >= Measure(c, s) && forall pass <- passes :: IsPass(c, pass)
    ensures Inv(c, Run(c, s, Flat(passes))) && Run(c, s, Flat(passes)).boot.Finished?
    decreases |passes|
  {
    RunKeeps(c, s, Flat(passes));
    if s.boot.Finished? {
      StaysFinished(c, s, Flat(passes));
    } else {
      var e := SomeoneMoves(c, s);
      NextShrinks(c, s, e);
      var first := passes[0];
      PassMoves(c, s, first);
      MovesBounded(c, s, first);
      RunKeeps(c, s, first);
      forall pass | pass in passes[1..] ensures IsPass(c, pass) { assert pass in passes; }
      PassesFinish(c, Run(c, s, first), passes[1..]);
      RunAppends(c, s, first, Flat(passes[1..]));
    }
  }

  /**
   From every reachable state, every schedule of as many fair passes as the measure of that state, however
   the turns within a pass are ordered or repeated, completes the run: every secondary has run every round.
   */
  lemma FairSchedulesComplete(c: Config, s0: State, events: seq<Event>, passes: seq<seq<Event>>)
    requires c.Valid() && IsInitial(c, s0)
    requires var s := Run(c, s0, events); |passes| >= Measure(c, s) && forall pass <- passes :: IsPass(c, pass)
    ensures var t := Run(c, s0, events + Flat(passes));
            t.boot.Finished? && forall h: nat | c.Secondary(h) :: t.laps[h] == ROUNDS
  {
    InitialInv(c, s0);
    RunKeeps(c, s0, events);
    PassesFinish(c, Run(c, s0, events), passes);
    RunAppends(c, s0, events, Flat(passes));
    var t := Run(c, s0, events + Flat(passes));
    forall h: nat | c.Secondary(h) ensures t.laps[h] == ROUNDS { assert HartOk(c, t, h); }
  }

  lemma {:induction false} RunAppends(c: Config, s: State, a: seq<Event>, b: seq<Event>)
    requires c.Valid() && Shaped(c, s)
    ensures Run(c, s, a + b) == Run(c, Run(c, s, a), b)
    decreases |b|
  {
    if b == [] {
      assert a + b == a;
    } else {
      assert (a + b)[..|a + b| - 1] == a + b[..|b| - 1];
      RunAppends(c, s, a, b[..|b| - 1]);
    }
  }
}
