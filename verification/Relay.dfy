/**
 Relaying SBI calls: a dispatcher over `Forward`, whose stubs make the same calls to the supervisor
 environment underneath (library/rustsbi/src/forward.rs). Environments have state; `S` is its type.
 */
module Relay {
  import opened Helpers
  import opened SbiSpec
  import opened RelayCodec
  import B = DeriveBinding
  import D = DeriveDispatch

  /** An implementation of the extension traits: one call changes the state and has a result. */
  type Env<!S> = (S, Call) -> (S, SbiRet)

  /** An environment as its callers see it: extension, FID and registers in, two registers out. */
  type Machine<!S> = (S, Ext, nat, Args) -> (S, SbiRet)

  /**
   What a trait method gives its caller. `set_timer` returns nothing and `num_counters` a number, so
   whatever else an implementation has to say is lost.
   */
  function Returned(c: Call, ret: SbiRet): SbiRet {
    if c.SetTimer? then Success(0)
    else if c.PmuC? && c.pmu.NumCounters? then Success(ret.value)
    else ret
  }

  /** The generated dispatcher on an implementation, for one extension. */
  function Dispatch<S>(w: Width, env: Env<S>, s: S, ext: Ext, fid: nat, args: Args): (S, SbiRet)
    requires Relayed(ext)
  {
    match Decode(w, ext, fid, args)
    case Invalid => (s, INVALID_PARAM)
    case Unsupported => (s, NOT_SUPPORTED)
    case Invoke(call) =>
      var (next, ret) := env(s, call);
      (next, Returned(call, ret))
  }

  /** `Forward` on top of a machine; `junk` is what the registers that a stub does not set hold. */
  function Forward<S>(w: Width, under: Machine<S>, junk: Args, s: S, call: Call): (S, SbiRet) {
    var e := Stub(w, call);
    under(s, e.ext, e.fid, Loaded(e.regs, junk))
  }

  /** The dispatcher over `Forward` over a machine. */
  function Relay<S>(w: Width, under: Machine<S>, junk: Args, s: S, ext: Ext, fid: nat, args: Args): (S, SbiRet)
    requires Relayed(ext)
  {
    Dispatch(w, (t, call) => Forward(w, under, junk, t, call), s, ext, fid, args)
  }

  /** The machine that an implementation and the dispatcher over it make; nothing else answers. */
  function MachineOf<S>(w: Width, env: Env<S>, s: S, ext: Ext, fid: nat, args: Args): (S, SbiRet) {
    if Relayed(ext) then Dispatch(w, env, s, ext, fid, args) else (s, NOT_SUPPORTED)
  }

  /**
   Relaying is transparent: for every implementation, state, extension, FID and argument array, on both
   register widths and whatever the unset registers hold, the dispatcher over `Forward` gives the same
   result and leaves the same state as the dispatcher over the implementation itself.
   */
  lemma RelayTransparent<S>(w: Width, env: Env<S>, junk: Args, s: S, ext: Ext, fid: nat, args: Args)
    requires Relayed(ext) && Registers(w, args)
    ensures Relay(w, (t, x, f, a) => MachineOf(w, env, t, x, f, a), junk, s, ext, fid, args)
         == Dispatch(w, env, s, ext, fid, args)
  {
    var decoded := Decode(w, ext, fid, args);
    if decoded.Invoke? {
      DecodedWellTyped(w, ext, fid, args);
      StubDecodes(w, decoded.call, junk);
      var e := Stub(w, decoded.call);
      var again := Dispatch(w, env, s, e.ext, e.fid, Loaded(e.regs, junk));
      assert Decode(w, e.ext, e.fid, Loaded(e.regs, junk)) == Invoke(decoded.call);
      assert again == (env(s, decoded.call).0, Returned(decoded.call, env(s, decoded.call).1));
      assert Forward(w, (t, x, f, a) => MachineOf(w, env, t, x, f, a), junk, s, decoded.call) == again;
    }
  }

  // ----- what a dispatcher refuses by itself -----

  /** The last FID of each extension. */
  function LastFid(ext: Ext): nat
    requires Relayed(ext)
  {
    match ext
    case Fence => 6
    case Timer => 0
    case Ipi => 0
    case Hsm => 3
    case Reset => 0
    case Pmu => 7
    case Console => 2
    case Susp => 0
    case Cppc => 3
    case Nacl => 4
    case Sta => 0
    case Sse => 9
  }

  /** The registers of a call that must hold numbers of 32 bits: the first so many. */
  function NarrowRegisters(ext: Ext, fid: nat): (n: nat)
    ensures n <= 3
  {
    match ext
    case Hsm => if fid == 3 then 1 else 0
    case Reset => if fid == 0 then 2 else 0
    case Susp => if fid == 0 then 1 else 0
    case Cppc => if fid <= 3 then 1 else 0
    case Nacl => if fid == 0 then 1 else 0
    case Sse => if fid <= 1 then 3 else if fid in {2, 3, 4, 5, 7} then 1 else 0
    case _ => 0
  }

  predicate OutOfRange(ext: Ext, fid: nat, args: Args) {
    exists i | 0 <= i < NarrowRegisters(ext, fid) :: args[i] >= 0x1_0000_0000
  }

  /** The call is within the extension and within its ranges. */
  predicate Served(ext: Ext, fid: nat, args: Args)
    requires Relayed(ext)
  {
    fid <= LastFid(ext) && !OutOfRange(ext, fid, args)
  }

  lemma DecodedIffServed(w: Width, ext: Ext, fid: nat, args: Args)
    requires Relayed(ext) && Registers(w, args)
    ensures Decode(w, ext, fid, args) == Unsupported <==> fid > LastFid(ext)
    ensures Decode(w, ext, fid, args) == Invalid <==> OutOfRange(ext, fid, args)
    ensures Decode(w, ext, fid, args).Invoke? <==> Served(ext, fid, args)
  {
    var n := NarrowRegisters(ext, fid);
    assert OutOfRange(ext, fid, args) <==>
      (n > 0 && !IsU32(args[0])) || (n > 1 && !IsU32(args[1])) || (n > 2 && !IsU32(args[2]));
  }

  /**
   Over every environment and state: a FID beyond the last of its extension is not supported, a number
   too large for 32 bits is an invalid parameter, and neither reaches the environment. Every other call
   reaches it once, and its answer and its state are what the dispatcher returns.
   */
  lemma DispatchRefusesExactly<S>(w: Width, env: Env<S>, s: S, ext: Ext, fid: nat, args: Args)
    requires Relayed(ext) && Registers(w, args)
    ensures fid > LastFid(ext) ==> Dispatch(w, env, s, ext, fid, args) == (s, SbiRet(-2, 0))
    ensures OutOfRange(ext, fid, args) ==> Dispatch(w, env, s, ext, fid, args) == (s, SbiRet(-3, 0))
    ensures Served(ext, fid, args) ==>
              exists call | WellTyped(call) && Stub(w, call).ext == ext && Stub(w, call).fid == fid ::
                Dispatch(w, env, s, ext, fid, args) == (env(s, call).0, Returned(call, env(s, call).1))
  {
    DecodedIffServed(w, ext, fid, args);
    if Served(ext, fid, args) {
      DecodedWellTyped(w, ext, fid, args);
      StubKeepsIds(w, ext, fid, args);
    }
  }

  /** An environment that counts the calls it gets sees one exactly for the calls that are served. */
  lemma CountedIffServed(w: Width, count: int, ret: SbiRet, ext: Ext, fid: nat, args: Args)
    requires Relayed(ext) && Registers(w, args)
    ensures Dispatch(w, (n: int, call: Call) => (n + 1, ret), count, ext, fid, args).0
         == if Served(ext, fid, args) then count + 1 else count
  {
    DecodedIffServed(w, ext, fid, args);
  }

  // ----- whole conversations -----

  datatype Request = Request(ext: Ext, fid: nat, args: Args, junk: Args)

  predicate Proper(w: Width, requests: seq<Request>) {
    forall r <- requests :: Relayed(r.ext) && Registers(w, r.args)
  }

  /** The answers to a sequence of calls made directly, and the state they leave. */
  function Converse<S>(w: Width, env: Env<S>, s: S, requests: seq<Request>): (S, seq<SbiRet>)
    requires Proper(w, requests)
    decreases |requests|
  {
    if requests == [] then (s, [])
    else
      var r := requests[0];
      var (next, ret) := Dispatch(w, env, s, r.ext, r.fid, r.args);
      var (last, rets) := Converse(w, env, next, requests[1..]);
      (last, [ret] + rets)
  }

  /** The same through `Forward`, with other leftovers in the registers each time. */
  function ConverseRelayed<S>(w: Width, env: Env<S>, s: S, requests: seq<Request>): (S, seq<SbiRet>)
    requires Proper(w, requests)
    decreases |requests|
  {
    if requests == [] then (s, [])
    else
      var r := requests[0];
      var (next, ret) := Relay(w, (t, x, f, a) => MachineOf(w, env, t, x, f, a), r.junk, s, r.ext, r.fid, r.args);
      var (last, rets) := ConverseRelayed(w, env, next, requests[1..]);
      (last, [ret] + rets)
  }

  /** No conversation tells a relayed environment from the environment underneath. */
  lemma {:induction false} RelayIndistinguishable<S>(w: Width, env: Env<S>, s: S, requests: seq<Request>)
    requires Proper(w, requests)
    ensures ConverseRelayed(w, env, s, requests) == Converse(w, env, s, requests)
    decreases |requests|
  {
    if requests != [] {
      var r := requests[0];
      RelayTransparent(w, env, r.junk, s, r.ext, r.fid, r.args);
      RelayIndistinguishable(w, env, Dispatch(w, env, s, r.ext, r.fid, r.args).0, requests[1..]);
    }
  }

  // ----- any machine underneath -----

  /**
   Over a machine of any make, a relayed call that is served reaches the machine once, as the registers
   that the stub sets, and comes back unchanged but for `set_timer`, which always succeeds, and
   `num_counters`, which keeps the value and drops the error.
   */
  lemma RelayKeepsAnswer<S>(w: Width, under: Machine<S>, junk: Args, s: S, ext: Ext, fid: nat, args: Args)
    requires Relayed(ext) && Registers(w, args) && Served(ext, fid, args)
    ensures Decode(w, ext, fid, args).Invoke?
    ensures var e := Stub(w, Decode(w, ext, fid, args).call);
            var (next, ret) := under(s, e.ext, e.fid, Loaded(e.regs, junk));
            var (relayed, answer) := Relay(w, under, junk, s, ext, fid, args);
            && relayed == next && e.ext == ext && e.fid == fid
            && answer == if ext == Timer then SbiRet(0, 0)
                         else if ext == Pmu && fid == 0 then SbiRet(0, ret.value)
                         else ret
  {
    DecodedIffServed(w, ext, fid, args);
    StubKeepsIds(w, ext, fid, args);
  }

  /** A relayed call goes to the extension and the function that it was addressed to. */
  lemma StubKeepsIds(w: Width, ext: Ext, fid: nat, args: Args)
    requires Relayed(ext) && Decode(w, ext, fid, args).Invoke?
    ensures var e := Stub(w, Decode(w, ext, fid, args).call); e.ext == ext && e.fid == fid
  {
  }

  // ----- nothing underneath -----

  /** `None` as an implementation: no state, nothing to say. */
  function Absent<S>(s: S, call: Call): (S, SbiRet) {
    (s, NOT_SUPPORTED)
  }

  /**
   A dispatcher over `None` answers `not_supported`, except that an argument out of range is still an
   invalid parameter, and that setting the timer and counting the counters still succeed, with zero.
   */
  lemma AbsentStillAnswers<S>(w: Width, s: S, ext: Ext, fid: nat, args: Args)
    requires Relayed(ext) && Registers(w, args)
    ensures var (next, ret) := Dispatch(w, (t, c) => Absent(t, c), s, ext, fid, args);
            && next == s
            && ret == if OutOfRange(ext, fid, args) then SbiRet(-3, 0)
                      else if (ext == Timer || ext == Pmu) && fid == 0 then SbiRet(0, 0)
                      else SbiRet(-2, 0)
  {
    DecodedIffServed(w, ext, fid, args);
  }

  // ----- the identity registers of BASE -----

  /** `EnvInfo` for `Forward`: the values of the BASE calls that the stubs make. */
  function ForwardedInfo(under: nat -> SbiRet): D.EnvInfo {
    D.EnvInfo(under(4).value, under(5).value, under(6).value)
  }

  /** A dispatcher with `Forward` as its `EnvInfo` gives the identity registers of the one underneath. */
  lemma IdentityRelayed(w: D.World, imp: B.Impl, outer: D.World, outerImp: B.Impl, fid: nat, probed: nat)
    requires 4 <= fid <= 6 && outerImp.envInfo.Some?
    requires outer.infos(outerImp.envInfo.value) == ForwardedInfo((f: nat) => D.Base(w, imp, f, probed))
    ensures D.Base(outer, outerImp, fid, probed) == D.Base(w, imp, fid, probed)
  {
  }
}
