/**
 The remote fences that the secondaries of the bench kernel issue (firmware/bench-kernel/src/main.rs): each
 secondary, in each round, to every secondary once; and the initialization of IPI_SENT.
 */
module BenchFences {
  import opened Bits
  import opened HartMasks
  import opened BenchBarrier

  /** All secondaries, ascending, `n` times over. */
  function Rounds(c: Config, n: nat): seq<nat> {
    if n == 0 then [] else Rounds(c, n - 1) + SecondariesFrom(c.smp, c.boot, 0)
  }

  /** The harts that a hart in its lap has yet to fence. */
  function Owed(c: Config, pc: HartPc): seq<nat> {
    match pc
    case ResumePending => SecondariesFrom(c.smp, c.boot, 0)
    case CheckFlag => SecondariesFrom(c.smp, c.boot, 0)
    case SetFlag => SecondariesFrom(c.smp, c.boot, 0)
    case AddReady => SecondariesFrom(c.smp, c.boot, 0)
    case SpinReady => SecondariesFrom(c.smp, c.boot, 0)
    case Resend => SecondariesFrom(c.smp, c.boot, 0)
    case Fence(todo) => DecodeAll(c.width, todo, c.smp)
    case _ => []
  }

  /** Between waking and passing the first spin loop; past the fences of the lap, or before any lap. */
  predicate BeforeFences(pc: HartPc) {
    pc.ResumePending? || pc.CheckFlag? || pc.SetFlag? || pc.AddReady? || pc.SpinReady?
  }

  predicate PastFences(pc: HartPc) {
    pc.SubWait? || PastSub(pc) || pc.Stopped? || pc.StartPending?
  }

  /** What a hart has fenced and has yet to fence is every secondary, once for each of its laps. */
  ghost predicate FencesAddUp(c: Config, s: State, h: nat)
    requires Shaped(c, s) && h < c.smp
  {
    && s.fenced[h] + Owed(c, s.harts[h]) == Rounds(c, s.laps[h])
    && (!PastFences(s.harts[h]) ==> s.laps[h] > 0 && Rounds(c, s.laps[h] - 1) <= s.fenced[h])
  }

  lemma HartAddsUp(c: Config, s: State, h: nat)
    requires c.Valid() && Shaped(c, s) && c.Secondary(h) && FencesAddUp(c, s, h)
    ensures FencesAddUp(c, HartNext(c, s, h), h)
  {
    match s.harts[h]
    case Suspended => assert s.fenced[h] + [] == s.fenced[h];
    case SpinReady => BatchesCoverSecondaries(c.width, c.smp, c.boot);
    case Fence(todo) =>
      if todo != [] {
        var first, rest := Decode(c.width, todo[0], c.smp), DecodeAll(c.width, todo[1..], c.smp);
        assert s.fenced[h] + (first + rest) == s.fenced[h] + first + rest;
      }
    case _ =>
  }

  lemma BootAddsUp(c: Config, s: State, h: nat)
    requires c.Valid() && Shaped(c, s) && h < c.smp && FencesAddUp(c, s, h)
    ensures FencesAddUp(c, BootNext(c, s), h)
  {
    var s' := BootNext(c, s);
    assert s'.laps == s.laps && s'.fenced == s.fenced;
    assert s'.harts[h] == s.harts[h] || (s.harts[h].Stopped? && s'.harts[h].StartPending?);
  }

  lemma OtherAddsUp(c: Config, s: State, g: nat, h: nat)
    requires c.Valid() && Shaped(c, s) && g < c.smp && h < c.smp && g != h && FencesAddUp(c, s, h)
    ensures FencesAddUp(c, HartNext(c, s, g), h)
  {
    var s' := HartNext(c, s, g);
    assert s'.harts[h] == s.harts[h] && s'.laps[h] == s.laps[h] && s'.fenced[h] == s.fenced[h];
  }

  lemma NextAddsUp(c: Config, s: State, e: Event, h: nat)
    requires c.Valid() && Shaped(c, s) && c.Secondary(h) && FencesAddUp(c, s, h)
    ensures FencesAddUp(c, Next(c, s, e), h)
  {
    match e
    case BootRuns => BootAddsUp(c, s, h);
    case Deliver(_) =>
    case HartRuns(g) =>
      if g == h {
        HartAddsUp(c, s, h);
      } else if c.Secondary(g) {
        OtherAddsUp(c, s, g, h);
      }
  }

  lemma {:induction false} RunAddsUp(c: Config, s0: State, events: seq<Event>, h: nat)
    requires c.Valid() && IsInitial(c, s0) && c.Secondary(h)
    ensures FencesAddUp(c, Run(c, s0, events), h)
    decreases |events|
  {
    if events != [] {
      var last := |events| - 1;
      RunAddsUp(c, s0, events[..last], h);
      NextAddsUp(c, Run(c, s0, events[..last]), events[last], h);
    }
  }

  /**
   In every run: a secondary past its fences has fenced every secondary once for each of its laps, in
   ascending order; before them, once for each lap but this one; and in between it is on the way.
   */
  lemma FencesReachAll(c: Config, s0: State, events: seq<Event>, h: nat)
    requires c.Valid() && IsInitial(c, s0) && c.Secondary(h)
    ensures var s := Run(c, s0, events);
            && (PastFences(s.harts[h]) ==> s.fenced[h] == Rounds(c, s.laps[h]))
            && (BeforeFences(s.harts[h]) || s.harts[h].Fence? ==> s.laps[h] > 0)
            && (BeforeFences(s.harts[h]) ==> s.fenced[h] == Rounds(c, s.laps[h] - 1))
            && (s.harts[h].Fence? ==> Rounds(c, s.laps[h] - 1) <= s.fenced[h] <= Rounds(c, s.laps[h]))
  {
    RunAddsUp(c, s0, events, h);
    var s := Run(c, s0, events);
    LapAdds(c, s, h);
  }

  lemma LapAdds(c: Config, s: State, h: nat)
    requires c.Valid() && Shaped(c, s) && c.Secondary(h) && FencesAddUp(c, s, h)
    ensures PastFences(s.harts[h]) ==> s.fenced[h] == Rounds(c, s.laps[h])
    ensures BeforeFences(s.harts[h]) ==> s.laps[h] > 0 && s.fenced[h] == Rounds(c, s.laps[h] - 1)
    ensures s.fenced[h] <= Rounds(c, s.laps[h])
  {
    if BeforeFences(s.harts[h]) {
      SameEnd(s.fenced[h], Rounds(c, s.laps[h] - 1), SecondariesFrom(c.smp, c.boot, 0));
    }
  }

  lemma SameEnd(a: seq<nat>, b: seq<nat>, end: seq<nat>)
    requires a + end == b + end
    ensures a == b
  {
    assert |a| == |b|;
    assert (a + end)[..|a|] == a && (b + end)[..|b|] == b;
  }

  /**
   In every run, between a hart at the first spin loop and the same hart in the same lap at its fetch_sub,
   it has fenced every secondary, each once, in ascending order, and no other hart.
   */
  lemma LapFencesEachOnce(c: Config, s0: State, events: seq<Event>, more: seq<Event>, h: nat)
    requires c.Valid() && IsInitial(c, s0) && c.Secondary(h)
    requires var s, t := Run(c, s0, events), Run(c, s0, events + more);
             s.harts[h].SpinReady? && t.harts[h].SubWait? && t.laps[h] == s.laps[h]
    ensures var s, t := Run(c, s0, events), Run(c, s0, events + more);
            t.fenced[h] == s.fenced[h] + SecondariesFrom(c.smp, c.boot, 0)
  {
    FencesReachAll(c, s0, events, h);
    FencesReachAll(c, s0, events + more, h);
  }

  /** When the run is over, every secondary has fenced every secondary in each of the four rounds. */
  lemma AllFenced(c: Config, s0: State, events: seq<Event>, h: nat)
    requires c.Valid() && IsInitial(c, s0) && c.Secondary(h) && Run(c, s0, events).boot.Finished?
    ensures Run(c, s0, events).fenced[h] == Rounds(c, 4)
  {
    InitialInv(c, s0);
    RunKeeps(c, s0, events);
    assert HartOk(c, Run(c, s0, events), h);
    FencesReachAll(c, s0, events, h);
  }

  // ----- IPI_SENT is written before it is read -----

  /** While harts are being started: the boot hart has initialized the flag of that hart. */
  predicate Written(boot: BootPc, h: nat) {
    match boot
    case InitFlag(i) => h < i
    case Start(i) => h <= i
    case AwaitStarted(i) => h <= i
    case _ => false
  }

  ghost predicate FlagsWritten(c: Config, s: State)
    requires Shaped(c, s)
  {
    forall h: nat | c.Secondary(h) && Written(s.boot, h) :: !s.flags[h]
  }

  lemma HartKeepsWritten(c: Config, s: State, h: nat)
    requires c.Valid() && Inv(c, s) && FlagsWritten(c, s) && c.Secondary(h)
    ensures FlagsWritten(c, HartNext(c, s, h))
  {
    assert HartOk(c, s, h);
    if s.boot.InitFlag? || s.boot.Start? || s.boot.AwaitStarted? { assert HartNext(c, s, h).flags == s.flags; }
  }

  lemma BootKeepsWritten(c: Config, s: State)
    requires c.Valid() && Shaped(c, s) && FlagsWritten(c, s)
    ensures FlagsWritten(c, BootNext(c, s))
  {
  }

  lemma NextKeepsWritten(c: Config, s: State, e: Event)
    requires c.Valid() && Inv(c, s) && FlagsWritten(c, s)
    ensures FlagsWritten(c, Next(c, s, e))
  {
    match e
    case BootRuns => BootKeepsWritten(c, s);
    case Deliver(_) =>
    case HartRuns(h) => if c.Secondary(h) { HartKeepsWritten(c, s, h); }
  }

  lemma {:induction false} RunKeepsWritten(c: Config, s0: State, events: seq<Event>)
    requires c.Valid() && IsInitial(c, s0)
    ensures Inv(c, Run(c, s0, events)) && FlagsWritten(c, Run(c, s0, events))
    decreases |events|
  {
    if events == [] {
      InitialInv(c, s0);
    } else {
      var last := |events| - 1;
      RunKeepsWritten(c, s0, events[..last]);
      NextKeeps(c, Run(c, s0, events[..last]), events[last]);
      NextKeepsWritten(c, Run(c, s0, events[..last]), events[last]);
    }
  }

  /** In every run the flag of a hart is initialized, to false, before that hart is started. */
  lemma StartedWithClearFlag(c: Config, s0: State, events: seq<Event>, h: nat)
    requires c.Valid() && IsInitial(c, s0) && c.Secondary(h)
    requires var s := Run(c, s0, events); s.boot.InitFlag? || s.boot.Start? || s.boot.AwaitStarted?
    ensures var s := Run(c, s0, events); s.harts[h].Stopped? || !s.flags[h]
  {
    RunKeepsWritten(c, s0, events);
    assert HartOk(c, Run(c, s0, events), h);
  }
}
