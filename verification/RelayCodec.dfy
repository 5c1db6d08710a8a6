/**
 Both ends of an SBI call: the decoders of the dispatcher (library/rustsbi/src/traits.rs), which read the
 argument registers, and `Forward` over the `sbi-rt` stubs (library/rustsbi/src/forward.rs,
 library/sbi-rt/src), which write them. DBTR, MPXY and FWFT calls, which `Forward` does not implement,
 are not part of this model.
 */
module RelayCodec {
  import opened SbiSpec

  datatype Width = W32 | W64

  const U32_LIMIT: nat := 0x1_0000_0000
  const U64_LIMIT: nat := 0x1_0000_0000_0000_0000

  /** What a register of that width can hold. */
  function Limit(w: Width): nat {
    match w case W32 => U32_LIMIT case W64 => U64_LIMIT
  }

  predicate Registers(w: Width, args: Args) {
    forall i | 0 <= i < 6 :: args[i] < Limit(w)
  }

  // ----- calls of the extension traits -----

  datatype MaskBase = MaskBase(mask: nat, base: nat)

  datatype Range = Range(start: nat, size: nat)

  datatype SharedPtr = SharedPtr(lo: nat, hi: nat)

  datatype FenceCall =
    | FenceI(harts: MaskBase)
    | SfenceVma(harts: MaskBase, range: Range)
    | SfenceVmaAsid(harts: MaskBase, range: Range, asid: nat)
    | HfenceGvmaVmid(harts: MaskBase, range: Range, vmid: nat)
    | HfenceGvma(harts: MaskBase, range: Range)
    | HfenceVvmaAsid(harts: MaskBase, range: Range, asid: nat)
    | HfenceVvma(harts: MaskBase, range: Range)

  datatype HsmCall =
    | HartStart(hartid: nat, start: nat, opaq: nat)
    | HartStop
    | HartGetStatus(hartid: nat)
    | HartSuspend(kind: nat, resume: nat, opaq: nat)

  datatype PmuCall =
    | NumCounters
    | GetInfo(index: nat)
    | ConfigMatching(base: nat, mask: nat, flags: nat, event: nat, data: nat)
    | CounterStart(base: nat, mask: nat, flags: nat, value: nat)
    | CounterStop(base: nat, mask: nat, flags: nat)
    | FwRead(index: nat)
    | FwReadHi(index: nat)
    | SnapshotSetShmem(shmem: SharedPtr, flags: nat)

  datatype ConsoleCall =
    | Write(bytes: nat, address: SharedPtr)
    | Read(bytes: nat, address: SharedPtr)
    | WriteByte(byte: nat)

  datatype CppcCall =
    | CppcProbe(reg: nat)
    | CppcRead(reg: nat)
    | CppcReadHi(reg: nat)
    | CppcWrite(reg: nat, value: nat)

  datatype NaclCall =
    | ProbeFeature(feature: nat)
    | NaclSetShmem(shmem: SharedPtr, flags: nat)
    | SyncCsr(csr: nat)
    | SyncHfence(entry: nat)
    | SyncSret

  datatype SseCall =
    | ReadAttrs(event: nat, base: nat, count: nat, output: SharedPtr)
    | WriteAttrs(event: nat, base: nat, count: nat, input: SharedPtr)
    | Register(event: nat, pc: nat, arg: nat)
    | Unregister(event: nat)
    | Enable(event: nat)
    | Disable(event: nat)
    | Complete
    | Inject(event: nat, hart: nat)
    | HartUnmask
    | HartMask

  datatype Call =
    | FenceC(fence: FenceCall)
    | SetTimer(value: nat)
    | SendIpi(harts: MaskBase)
    | HsmC(hsm: HsmCall)
    | SystemReset(kind: nat, reason: nat)
    | PmuC(pmu: PmuCall)
    | ConsoleC(console: ConsoleCall)
    | SystemSuspend(sleep: nat, resume: nat, opaq: nat)
    | CppcC(cppc: CppcCall)
    | NaclC(nacl: NaclCall)
    | StaSetShmem(shmem: SharedPtr, flags: nat)
    | SseC(sse: SseCall)

  // ----- the decoders -----

  datatype Decoded<T> = Invoke(call: T) | Invalid | Unsupported

  function Map<T, U>(d: Decoded<T>, f: T -> U): Decoded<U> {
    match d
    case Invoke(call) => Invoke(f(call))
    case Invalid => Invalid
    case Unsupported => Unsupported
  }

  /** `u32::try_from` succeeds. */
  predicate IsU32(x: nat) { x < U32_LIMIT }

  function When<T>(ok: bool, call: T): Decoded<T> {
    if ok then Invoke(call) else Invalid
  }

  /** `concat_u32` */
  function Concat(h: nat, l: nat): nat { h * U32_LIMIT + l }

  /** A `u64` argument starts at register `i`; it takes one register or two. */
  function Wide(w: Width, args: Args, i: nat): nat
    requires i < 5
  {
    match w
    case W64 => args[i]
    case W32 => Concat(args[i + 1], args[i])
  }

  /** `_rustsbi_fence` */
  function DecodeFence(fid: nat, args: Args): Decoded<FenceCall> {
    var harts, range := MaskBase(args[0], args[1]), Range(args[2], args[3]);
    if fid == 0 then Invoke(FenceI(harts))
    else if fid == 1 then Invoke(SfenceVma(harts, range))
    else if fid == 2 then Invoke(SfenceVmaAsid(harts, range, args[4]))
    else if fid == 3 then Invoke(HfenceGvmaVmid(harts, range, args[4]))
    else if fid == 4 then Invoke(HfenceGvma(harts, range))
    else if fid == 5 then Invoke(HfenceVvmaAsid(harts, range, args[4]))
    else if fid == 6 then Invoke(HfenceVvma(harts, range))
    else Unsupported
  }

  /** `_rustsbi_hsm` */
  function DecodeHsm(fid: nat, args: Args): Decoded<HsmCall> {
    if fid == 0 then Invoke(HartStart(args[0], args[1], args[2]))
    else if fid == 1 then Invoke(HartStop)
    else if fid == 2 then Invoke(HartGetStatus(args[0]))
    else if fid == 3 then When(IsU32(args[0]), HartSuspend(args[0], args[1], args[2]))
    else Unsupported
  }

  /** `_rustsbi_pmu` */
  function DecodePmu(w: Width, fid: nat, args: Args): Decoded<PmuCall> {
    if fid == 0 then Invoke(NumCounters)
    else if fid == 1 then Invoke(GetInfo(args[0]))
    else if fid == 2 then Invoke(ConfigMatching(args[0], args[1], args[2], args[3], Wide(w, args, 4)))
    else if fid == 3 then Invoke(CounterStart(args[0], args[1], args[2], Wide(w, args, 3)))
    else if fid == 4 then Invoke(CounterStop(args[0], args[1], args[2]))
    else if fid == 5 then Invoke(FwRead(args[0]))
    else if fid == 6 then Invoke(FwReadHi(args[0]))
    else if fid == 7 then Invoke(SnapshotSetShmem(SharedPtr(args[0], args[1]), args[2]))
    else Unsupported
  }

  /** `_rustsbi_console` */
  function DecodeConsole(fid: nat, args: Args): Decoded<ConsoleCall> {
    if fid == 0 then Invoke(Write(args[0], SharedPtr(args[1], args[2])))
    else if fid == 1 then Invoke(Read(args[0], SharedPtr(args[1], args[2])))
    else if fid == 2 then Invoke(WriteByte(args[0] % 0x100))
    else Unsupported
  }

  /** `_rustsbi_cppc`: only the 64-bit build checks the register number, the other casts it. */
  function DecodeCppc(w: Width, fid: nat, args: Args): Decoded<CppcCall> {
    var ok, reg := w.W32? || IsU32(args[0]), args[0] % U32_LIMIT;
    if fid == 0 then When(ok, CppcProbe(reg))
    else if fid == 1 then When(ok, CppcRead(reg))
    else if fid == 2 then When(ok, CppcReadHi(reg))
    else if fid == 3 then When(ok, CppcWrite(reg, Wide(w, args, 1)))
    else Unsupported
  }

  /** `_rustsbi_nacl` */
  function DecodeNacl(fid: nat, args: Args): Decoded<NaclCall> {
    if fid == 0 then When(IsU32(args[0]), ProbeFeature(args[0]))
    else if fid == 1 then Invoke(NaclSetShmem(SharedPtr(args[0], args[1]), args[2]))
    else if fid == 2 then Invoke(SyncCsr(args[0]))
    else if fid == 3 then Invoke(SyncHfence(args[0]))
    else if fid == 4 then Invoke(SyncSret)
    else Unsupported
  }

  /** `_rustsbi_sse` */
  function DecodeSse(fid: nat, args: Args): Decoded<SseCall> {
    var all := IsU32(args[0]) && IsU32(args[1]) && IsU32(args[2]);
    var ptr := SharedPtr(args[3], args[4]);
    var one := IsU32(args[0]);
    if fid == 0 then When(all, ReadAttrs(args[0], args[1], args[2], ptr))
    else if fid == 1 then When(all, WriteAttrs(args[0], args[1], args[2], ptr))
    else if fid == 2 then When(one, Register(args[0], args[1], args[2]))
    else if fid == 3 then When(one, Unregister(args[0]))
    else if fid == 4 then When(one, Enable(args[0]))
    else if fid == 5 then When(one, Disable(args[0]))
    else if fid == 6 then Invoke(Complete)
    else if fid == 7 then When(one, Inject(args[0], args[1]))
    else if fid == 8 then Invoke(HartUnmask)
    else if fid == 9 then Invoke(HartMask)
    else Unsupported
  }

  /** An extension that `Forward` implements. */
  predicate Relayed(ext: Ext) {
    !ext.Dbtr? && !ext.Mpxy? && !ext.Fwft?
  }

  function Decode(w: Width, ext: Ext, fid: nat, args: Args): Decoded<Call>
    requires Relayed(ext)
  {
    match ext
    case Fence => Map(DecodeFence(fid, args), c => FenceC(c))
    case Timer => if fid == 0 then Invoke(SetTimer(Wide(w, args, 0))) else Unsupported
    case Ipi => if fid == 0 then Invoke(SendIpi(MaskBase(args[0], args[1]))) else Unsupported
    case Hsm => Map(DecodeHsm(fid, args), c => HsmC(c))
    case Reset =>
      if fid == 0 then When(IsU32(args[0]) && IsU32(args[1]), SystemReset(args[0], args[1])) else Unsupported
    case Pmu => Map(DecodePmu(w, fid, args), c => PmuC(c))
    case Console => Map(DecodeConsole(fid, args), c => ConsoleC(c))
    case Susp =>
      if fid == 0 then When(IsU32(args[0]), SystemSuspend(args[0], args[1], args[2])) else Unsupported
    case Cppc => Map(DecodeCppc(w, fid, args), c => CppcC(c))
    case Nacl => Map(DecodeNacl(fid, args), c => NaclC(c))
    case Sta => if fid == 0 then Invoke(StaSetShmem(SharedPtr(args[0], args[1]), args[2])) else Unsupported
    case Sse => Map(DecodeSse(fid, args), c => SseC(c))
  }

  // ----- the stubs -----

  /** A stub loads the EID, the FID and the first registers, and leaves the other registers as they are. */
  datatype Ecall = Ecall(ext: Ext, fid: nat, regs: seq<nat>)

  /** The registers that carry a `u64`. */
  function Split(w: Width, value: nat): seq<nat> {
    match w
    case W64 => [value]
    case W32 => [value % U32_LIMIT, value / U32_LIMIT]
  }

  function StubFence(c: FenceCall): Ecall {
    match c
    case FenceI(m) => Ecall(Fence, 0, [m.mask, m.base])
    case SfenceVma(m, r) => Ecall(Fence, 1, [m.mask, m.base, r.start, r.size])
    case SfenceVmaAsid(m, r, asid) => Ecall(Fence, 2, [m.mask, m.base, r.start, r.size, asid])
    case HfenceGvmaVmid(m, r, vmid) => Ecall(Fence, 3, [m.mask, m.base, r.start, r.size, vmid])
    case HfenceGvma(m, r) => Ecall(Fence, 4, [m.mask, m.base, r.start, r.size])
    case HfenceVvmaAsid(m, r, asid) => Ecall(Fence, 5, [m.mask, m.base, r.start, r.size, asid])
    case HfenceVvma(m, r) => Ecall(Fence, 6, [m.mask, m.base, r.start, r.size])
  }

  function StubHsm(c: HsmCall): Ecall {
    match c
    case HartStart(hartid, start, opaq) => Ecall(Hsm, 0, [hartid, start, opaq])
    case HartStop => Ecall(Hsm, 1, [])
    case HartGetStatus(hartid) => Ecall(Hsm, 2, [hartid])
    case HartSuspend(kind, resume, opaq) => Ecall(Hsm, 3, [kind, resume, opaq])
  }

  /** `Forward` packs base and mask into a counter mask, and the stub unpacks it. */
  function StubPmu(w: Width, c: PmuCall): Ecall {
    match c
    case NumCounters => Ecall(Pmu, 0, [])
    case GetInfo(index) => Ecall(Pmu, 1, [index])
    case ConfigMatching(base, mask, flags, event, data) =>
      var counters := MaskBase(mask, base);
      Ecall(Pmu, 2, [counters.base, counters.mask, flags, event] + Split(w, data))
    case CounterStart(base, mask, flags, value) =>
      var counters := MaskBase(mask, base);
      Ecall(Pmu, 3, [counters.base, counters.mask, flags] + Split(w, value))
    case CounterStop(base, mask, flags) =>
      var counters := MaskBase(mask, base);
      Ecall(Pmu, 4, [counters.base, counters.mask, flags])
    case FwRead(index) => Ecall(Pmu, 5, [index])
    case FwReadHi(index) => Ecall(Pmu, 6, [index])
    case SnapshotSetShmem(shmem, flags) => Ecall(Pmu, 7, [shmem.lo, shmem.hi, flags])
  }

  function StubConsole(c: ConsoleCall): Ecall {
    match c
    case Write(bytes, p) => Ecall(Console, 0, [bytes, p.lo, p.hi])
    case Read(bytes, p) => Ecall(Console, 1, [bytes, p.lo, p.hi])
    case WriteByte(byte) => Ecall(Console, 2, [byte])
  }

  function StubCppc(w: Width, c: CppcCall): Ecall {
    match c
    case CppcProbe(reg) => Ecall(Cppc, 0, [reg])
    case CppcRead(reg) => Ecall(Cppc, 1, [reg])
    case CppcReadHi(reg) => Ecall(Cppc, 2, [reg])
    case CppcWrite(reg, value) => Ecall(Cppc, 3, [reg] + Split(w, value))
  }

  function StubNacl(c: NaclCall): Ecall {
    match c
    case ProbeFeature(feature) => Ecall(Nacl, 0, [feature])
    case NaclSetShmem(shmem, flags) => Ecall(Nacl, 1, [shmem.lo, shmem.hi, flags])
    case SyncCsr(csr) => Ecall(Nacl, 2, [csr])
    case SyncHfence(entry) => Ecall(Nacl, 3, [entry])
    case SyncSret => Ecall(Nacl, 4, [])
  }

  function StubSse(c: SseCall): Ecall {
    match c
    case ReadAttrs(event, base, count, p) => Ecall(Sse, 0, [event, base, count, p.lo, p.hi])
    case WriteAttrs(event, base, count, p) => Ecall(Sse, 1, [event, base, count, p.lo, p.hi])
    case Register(event, pc, arg) => Ecall(Sse, 2, [event, pc, arg])
    case Unregister(event) => Ecall(Sse, 3, [event])
    case Enable(event) => Ecall(Sse, 4, [event])
    case Disable(event) => Ecall(Sse, 5, [event])
    case Complete => Ecall(Sse, 6, [])
    case Inject(event, hart) => Ecall(Sse, 7, [event, hart])
    case HartUnmask => Ecall(Sse, 8, [])
    case HartMask => Ecall(Sse, 9, [])
  }

  function Stub(w: Width, c: Call): Ecall {
    match c
    case FenceC(f) => StubFence(f)
    case SetTimer(value) => Ecall(Timer, 0, Split(w, value))
    case SendIpi(m) => Ecall(Ipi, 0, [m.mask, m.base])
    case HsmC(h) => StubHsm(h)
    case SystemReset(kind, reason) => Ecall(Reset, 0, [kind, reason])
    case PmuC(p) => StubPmu(w, p)
    case ConsoleC(d) => StubConsole(d)
    case SystemSuspend(sleep, resume, opaq) => Ecall(Susp, 0, [sleep, resume, opaq])
    case CppcC(p) => StubCppc(w, p)
    case NaclC(n) => StubNacl(n)
    case StaSetShmem(shmem, flags) => Ecall(Sta, 0, [shmem.lo, shmem.hi, flags])
    case SseC(s) => StubSse(s)
  }

  /** The registers at the ecall: what the stub set, then whatever was there. */
  function Loaded(regs: seq<nat>, junk: Args): (args: Args)
    ensures |regs| <= 6 ==> forall i | 0 <= i < 6 :: args[i] == if i < |regs| then regs[i] else junk[i]
  {
    if |regs| <= 6 then regs + junk[|regs|..] else junk
  }

  // ----- a decoder undoes a stub -----

  /** Arguments within their Rust types: `u32`, `u64` or `u8`. */
  predicate WellTyped(c: Call) {
    match c
    case SetTimer(value) => value < U64_LIMIT
    case HsmC(HartSuspend(kind, _, _)) => IsU32(kind)
    case SystemReset(kind, reason) => IsU32(kind) && IsU32(reason)
    case PmuC(ConfigMatching(_, _, _, _, data)) => data < U64_LIMIT
    case PmuC(CounterStart(_, _, _, value)) => value < U64_LIMIT
    case ConsoleC(WriteByte(byte)) => byte < 0x100
    case SystemSuspend(sleep, _, _) => IsU32(sleep)
    case CppcC(CppcWrite(reg, value)) => IsU32(reg) && value < U64_LIMIT
    case CppcC(p) => IsU32(p.reg)
    case NaclC(ProbeFeature(feature)) => IsU32(feature)
    case SseC(s) => WellTypedSse(s)
    case _ => true
  }

  predicate WellTypedSse(s: SseCall) {
    match s
    case ReadAttrs(event, base, count, _) => IsU32(event) && IsU32(base) && IsU32(count)
    case WriteAttrs(event, base, count, _) => IsU32(event) && IsU32(base) && IsU32(count)
    case Complete => true
    case HartUnmask => true
    case HartMask => true
    case _ => IsU32(s.event)
  }

  lemma SplitConcat(value: nat)
    ensures Concat(value / U32_LIMIT, value % U32_LIMIT) == value
  {
  }

  lemma FenceRoundTrip(c: FenceCall, junk: Args)
    ensures var e := StubFence(c); e.ext == Fence && DecodeFence(e.fid, Loaded(e.regs, junk)) == Invoke(c)
  {
  }

  lemma HsmRoundTrip(c: HsmCall, junk: Args)
    requires WellTyped(HsmC(c))
    ensures var e := StubHsm(c); e.ext == Hsm && DecodeHsm(e.fid, Loaded(e.regs, junk)) == Invoke(c)
  {
  }

  lemma PmuRoundTrip(w: Width, c: PmuCall, junk: Args)
    requires WellTyped(PmuC(c))
    ensures var e := StubPmu(w, c); e.ext == Pmu && DecodePmu(w, e.fid, Loaded(e.regs, junk)) == Invoke(c)
  {
    match c
    case ConfigMatching(_, _, _, _, data) => SplitConcat(data);
    case CounterStart(_, _, _, value) => SplitConcat(value);
    case _ =>
  }

  lemma CppcRoundTrip(w: Width, c: CppcCall, junk: Args)
    requires WellTyped(CppcC(c))
    ensures var e := StubCppc(w, c); e.ext == Cppc && DecodeCppc(w, e.fid, Loaded(e.regs, junk)) == Invoke(c)
  {
    if c.CppcWrite? { SplitConcat(c.value); }
  }

  lemma SseRoundTrip(c: SseCall, junk: Args)
    requires WellTypedSse(c)
    ensures var e := StubSse(c); e.ext == Sse && DecodeSse(e.fid, Loaded(e.regs, junk)) == Invoke(c)
  {
  }

  lemma SmallRoundTrip(w: Width, c: Call, junk: Args)
    requires WellTyped(c) && (c.SetTimer? || c.SendIpi? || c.SystemReset? || c.SystemSuspend? || c.StaSetShmem?)
    ensures var e := Stub(w, c); Relayed(e.ext) && Decode(w, e.ext, e.fid, Loaded(e.regs, junk)) == Invoke(c)
  {
    if c.SetTimer? { SplitConcat(c.value); }
  }

  lemma ConsoleNaclRoundTrip(w: Width, c: Call, junk: Args)
    requires WellTyped(c) && (c.ConsoleC? || c.NaclC?)
    ensures var e := Stub(w, c); Relayed(e.ext) && Decode(w, e.ext, e.fid, Loaded(e.regs, junk)) == Invoke(c)
  {
  }

  /** Whatever the registers that a stub does not set hold, the decoder reads back the call it was made for. */
  lemma StubDecodes(w: Width, c: Call, junk: Args)
    requires WellTyped(c)
    ensures var e := Stub(w, c); Relayed(e.ext) && Decode(w, e.ext, e.fid, Loaded(e.regs, junk)) == Invoke(c)
  {
    match c
    case FenceC(f) => FenceRoundTrip(f, junk);
    case HsmC(h) => HsmRoundTrip(h, junk);
    case PmuC(p) => PmuRoundTrip(w, p, junk);
    case CppcC(p) => CppcRoundTrip(w, p, junk);
    case SseC(s) => SseRoundTrip(s, junk);
    case ConsoleC(_) => ConsoleNaclRoundTrip(w, c, junk);
    case NaclC(_) => ConsoleNaclRoundTrip(w, c, junk);
    case _ => SmallRoundTrip(w, c, junk);
  }

  lemma WideIsU64(w: Width, args: Args, i: nat)
    requires Registers(w, args) && i < 5
    ensures Wide(w, args, i) < U64_LIMIT
  {
  }

  /** What a decoder passes on is within the Rust types. */
  lemma DecodedWellTyped(w: Width, ext: Ext, fid: nat, args: Args)
    requires Relayed(ext) && Registers(w, args) && Decode(w, ext, fid, args).Invoke?
    ensures WellTyped(Decode(w, ext, fid, args).call)
  {
    forall i: nat | i < 5 ensures Wide(w, args, i) < U64_LIMIT { WideIsU64(w, args, i); }
  }
}
