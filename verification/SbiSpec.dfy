/** The SBI constants and the return type that the dispatchers share (library/sbi-spec). */
module SbiSpec {
  import opened Helpers

  /** `SbiRet`; the error register is read as a signed number. */
  datatype SbiRet = SbiRet(error: int, value: nat)

  const NOT_SUPPORTED := SbiRet(-2, 0)
  const INVALID_PARAM := SbiRet(-3, 0)

  function Success(value: nat): SbiRet { SbiRet(0, value) }

  /** The argument registers `a0` to `a5`. */
  type Args = a: seq<nat> | |a| == 6 witness [0, 0, 0, 0, 0, 0]

  /** The standard extensions that a dispatcher binds to fields; BASE is not among them. */
  datatype Ext =
    | Fence | Hsm | Ipi | Reset | Timer | Pmu | Console | Susp
    | Cppc | Nacl | Sta | Mpxy | Dbtr | Fwft | Sse

  const EID_BASE: nat := 0x10

  function EidOf(ext: Ext): nat {
    match ext
    case Fence => 0x52464E43
    case Hsm => 0x48534D
    case Ipi => 0x735049
    case Reset => 0x53525354
    case Timer => 0x54494D45
    case Pmu => 0x504D55
    case Console => 0x4442434E
    case Susp => 0x53555350
    case Cppc => 0x43505043
    case Nacl => 0x4E41434C
    case Sta => 0x535441
    case Mpxy => 0x4D505859
    case Dbtr => 0x44425452
    case Fwft => 0x46574654
    case Sse => 0x535345
  }

  function ExtOf(eid: nat): Option<Ext> {
    if eid == 0x52464E43 then Some(Fence)
    else if eid == 0x48534D then Some(Hsm)
    else if eid == 0x735049 then Some(Ipi)
    else if eid == 0x53525354 then Some(Reset)
    else if eid == 0x54494D45 then Some(Timer)
    else if eid == 0x504D55 then Some(Pmu)
    else if eid == 0x4442434E then Some(Console)
    else if eid == 0x53555350 then Some(Susp)
    else if eid == 0x43505043 then Some(Cppc)
    else if eid == 0x4E41434C then Some(Nacl)
    else if eid == 0x535441 then Some(Sta)
    else if eid == 0x4D505859 then Some(Mpxy)
    else if eid == 0x44425452 then Some(Dbtr)
    else if eid == 0x46574654 then Some(Fwft)
    else if eid == 0x535345 then Some(Sse)
    else None
  }

  /** The name of an extension in the SBI specification. */
  function NameOf(ext: Ext): string {
    match ext
    case Fence => "RFNC"
    case Hsm => "HSM"
    case Ipi => "sPI"
    case Reset => "SRST"
    case Timer => "TIME"
    case Pmu => "PMU"
    case Console => "DBCN"
    case Susp => "SUSP"
    case Cppc => "CPPC"
    case Nacl => "NACL"
    case Sta => "STA"
    case Mpxy => "MPXY"
    case Dbtr => "DBTR"
    case Fwft => "FWFT"
    case Sse => "SSE"
  }

  /** `eid_from_str`: the bytes of the name as a big-endian number. */
  function EidFromStr(name: string): nat {
    if name == "" then 0
    else EidFromStr(name[..|name| - 1]) * 0x100 + name[|name| - 1] as nat
  }

  /** Each EID spells the name of its extension. */
  lemma EidsSpellNames(ext: Ext)
    ensures EidOf(ext) == EidFromStr(NameOf(ext))
  {
    var name := NameOf(ext);
    assert name[..3][..2][..1] == [name[0]] && name[..3][..2] == [name[0], name[1]];
    assert name[..3] == [name[0], name[1], name[2]];
    Spelled(name);
  }

  lemma Spelled(name: string)
    requires 3 <= |name| <= 4
    ensures var low := (name[0] as nat * 0x100 + name[1] as nat) * 0x100 + name[2] as nat;
            EidFromStr(name) == if |name| == 3 then low else low * 0x100 + name[3] as nat
  {
    var three := name[..3];
    assert name == if |name| == 3 then three else three + [name[3]];
    assert three[..2] == name[..2] && name[..2][..1] == name[..1] && name[..1][..0] == "";
    assert EidFromStr(name[..1]) == name[0] as nat;
    assert EidFromStr(name[..2]) == name[0] as nat * 0x100 + name[1] as nat;
    if |name| == 4 { assert name[..|name| - 1] == three; }
  }

  /** No two standard extensions share an EID, and none has that of BASE. */
  lemma EidsDistinct(ext: Ext, eid: nat)
    ensures eid == EidOf(ext) <==> ExtOf(eid) == Some(ext)
    ensures EidOf(ext) != EID_BASE && EidOf(ext) < 0x1_0000_0000
  {
  }
}
