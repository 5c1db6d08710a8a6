/**
 The dispatchers that `#[derive(RustSBI)]` generates in static and in dynamic mode
 (library/macros/src/lib.rs) and the BASE extension that they share (library/rustsbi/src/traits.rs).
 */
module DeriveDispatch {
  import opened Helpers
  import opened SbiSpec
  import opened DeriveBinding
  import V = VendorSbi

  // ----- what the members are -----

  /** The value of a member: an implementation, `Option<T>`, or `&T`. */
  datatype Value = Plain(id: nat) | OptionOf(inner: Option<Value>) | RefTo(target: Value)

  /** `_rustsbi_probe`: a reference does not forward it. */
  function Availability(v: Value): nat {
    match v
    case Plain(_) => 1
    case OptionOf(None) => 0
    case OptionOf(Some(_)) => 1
    case RefTo(_) => 1
  }

  /** Any implementation of `VendorSBI`. */
  datatype Vendor = Vendor(probe: nat -> nat, handle: (nat, nat, Args) -> SbiRet)

  datatype EnvInfo = EnvInfo(mvendorid: nat, marchid: nat, mimpid: nat)

  /**
   A value of the struct: its members, how an implementation serves its extension, what is served where
   there is none, and the identity registers or the `EnvInfo` members.
   */
  datatype World = World(values: nat -> Value, serve: (nat, Ext, nat, Args) -> SbiRet,
                         absent: (Ext, nat, Args) -> SbiRet, vendors: nat -> Vendor,
                         infos: nat -> EnvInfo, registers: EnvInfo, version: nat)

  /** `_rustsbi_fence` and its siblings on a member. */
  function Serve(w: World, v: Value, ext: Ext, fid: nat, args: Args): SbiRet {
    match v
    case Plain(id) => w.serve(id, ext, fid, args)
    case OptionOf(None) => w.absent(ext, fid, args)
    case OptionOf(Some(inner)) => Serve(w, inner, ext, fid, args)
    case RefTo(target) => Serve(w, target, ext, fid, args)
  }

  // ----- BASE -----

  const PROBE_EXTENSION: nat := 3

  /** `_rustsbi_base_bare` and `_rustsbi_base_env_info`, given the value that a probe of `args[0]` has. */
  function Base(w: World, imp: Impl, fid: nat, probed: nat): SbiRet {
    var info := if imp.envInfo.Some? then w.infos(imp.envInfo.value) else w.registers;
    if fid == 0 then Success(2 * 0x100_0000)
    else if fid == 1 then Success(4)
    else if fid == 2 then Success(w.version)
    else if fid == PROBE_EXTENSION then Success(probed)
    else if fid == 4 then Success(info.mvendorid)
    else if fid == 5 then Success(info.marchid)
    else if fid == 6 then Success(info.mimpid)
    else NOT_SUPPORTED
  }

  function VendorProbe(w: World, imp: Impl, eid: nat): nat {
    if imp.vendor.None? then 0 else w.vendors(imp.vendor.value).probe(eid)
  }

  function VendorHandle(w: World, imp: Impl, eid: nat, fid: nat, args: Args): SbiRet {
    if imp.vendor.None? then NOT_SUPPORTED else w.vendors(imp.vendor.value).handle(eid, fid, args)
  }

  // ----- static mode -----

  /** `_StandardExtensionProbe`, whose values are fixed when the code is generated. */
  function StandardProbe(imp: Impl, eid: nat): nat {
    if eid == EID_BASE then 1
    else match ExtOf(eid)
      case None => 0
      case Some(ext) => if imp.Members(ext) == [] then 0 else 1
  }

  function ProbeStatic(w: World, imp: Impl, eid: nat): nat {
    var value := StandardProbe(imp, eid);
    if value != 0 then value else VendorProbe(w, imp, eid)
  }

  /** There is an arm only for an extension with a member; everything else falls to the vendor. */
  function EcallStatic(w: World, imp: Impl, eid: nat, fid: nat, args: Args): SbiRet {
    if eid == EID_BASE then Base(w, imp, fid, ProbeStatic(w, imp, args[0]))
    else match ExtOf(eid)
      case None => VendorHandle(w, imp, eid, fid, args)
      case Some(ext) =>
        var members := imp.Members(ext);
        if members == [] then VendorHandle(w, imp, eid, fid, args)
        else Serve(w, w.values(members[0]), ext, fid, args)
  }

  // ----- dynamic mode -----

  /** The early returns, member by member: the first that is available, if there is one. */
  function FirstAvailable(w: World, members: seq<nat>): Option<nat> {
    if members == [] then None
    else if Availability(w.values(members[0])) != 0 then Some(members[0])
    else FirstAvailable(w, members[1..])
  }

  function ProbeDynamic(w: World, imp: Impl, eid: nat): nat {
    if eid == EID_BASE then 1
    else match ExtOf(eid)
      case None => VendorProbe(w, imp, eid)
      case Some(ext) =>
        var first := FirstAvailable(w, imp.Members(ext));
        if first.Some? then Availability(w.values(first.value)) else 0
  }

  /** There is an arm for every standard extension, with or without members. */
  function EcallDynamic(w: World, imp: Impl, eid: nat, fid: nat, args: Args): SbiRet {
    if eid == EID_BASE then Base(w, imp, fid, ProbeDynamic(w, imp, args[0]))
    else match ExtOf(eid)
      case None => VendorHandle(w, imp, eid, fid, args)
      case Some(ext) =>
        var first := FirstAvailable(w, imp.Members(ext));
        if first.Some? then Serve(w, w.values(first.value), ext, fid, args) else NOT_SUPPORTED
  }

  // ----- when the two dispatchers are the same -----

  ghost predicate SameCalls(w: World, imp: Impl) {
    forall eid: nat, fid: nat, args: Args :: EcallStatic(w, imp, eid, fid, args) == EcallDynamic(w, imp, eid, fid, args)
  }

  /** The member bound to the extension reports that it is available. */
  predicate MemberAvailable(w: World, imp: Impl, ext: Ext) {
    imp.Members(ext) != [] ==> Availability(w.values(imp.Members(ext)[0])) != 0
  }

  /** The vendor member neither claims nor answers an extension that no member is bound to. */
  ghost predicate VendorQuiet(w: World, imp: Impl, ext: Ext) {
    imp.Members(ext) == [] ==>
      && VendorProbe(w, imp, EidOf(ext)) == 0
      && forall fid: nat, args: Args :: VendorHandle(w, imp, EidOf(ext), fid, args) == NOT_SUPPORTED
  }

  lemma SameProbe(w: World, imp: Impl, eid: nat)
    requires forall ext <- imp.bound :: |imp.bound[ext]| <= 1
    requires forall ext: Ext :: MemberAvailable(w, imp, ext) && VendorQuiet(w, imp, ext)
    ensures ProbeStatic(w, imp, eid) == ProbeDynamic(w, imp, eid)
  {
    var ext := ExtOf(eid);
    if ext.Some? {
      EidsDistinct(ext.value, eid);
      assert MemberAvailable(w, imp, ext.value) && VendorQuiet(w, imp, ext.value);
    }
  }

  lemma SameEcall(w: World, imp: Impl, eid: nat, fid: nat, args: Args)
    requires forall ext <- imp.bound :: |imp.bound[ext]| <= 1
    requires forall ext: Ext :: MemberAvailable(w, imp, ext) && VendorQuiet(w, imp, ext)
    ensures EcallStatic(w, imp, eid, fid, args) == EcallDynamic(w, imp, eid, fid, args)
  {
    SameProbe(w, imp, args[0]);
    var ext := ExtOf(eid);
    if ext.Some? {
      EidsDistinct(ext.value, eid);
      assert MemberAvailable(w, imp, ext.value) && VendorQuiet(w, imp, ext.value);
    }
  }

  /** Probing through BASE tells the two dispatchers apart as soon as their probes differ. */
  lemma ProbesShow(w: World, imp: Impl, eid: nat)
    requires SameCalls(w, imp)
    ensures ProbeStatic(w, imp, eid) == ProbeDynamic(w, imp, eid)
  {
    var args: Args := [eid, 0, 0, 0, 0, 0];
    assert EcallStatic(w, imp, EID_BASE, PROBE_EXTENSION, args) == EcallDynamic(w, imp, EID_BASE, PROBE_EXTENSION, args);
  }

  lemma SameNeedsBoth(w: World, imp: Impl, ext: Ext)
    requires forall e <- imp.bound :: |imp.bound[e]| <= 1
    requires SameCalls(w, imp)
    ensures MemberAvailable(w, imp, ext) && VendorQuiet(w, imp, ext)
  {
    var eid := EidOf(ext);
    EidsDistinct(ext, eid);
    ProbesShow(w, imp, eid);
    if imp.Members(ext) == [] {
      forall fid: nat, args: Args ensures VendorHandle(w, imp, eid, fid, args) == NOT_SUPPORTED {
        assert EcallStatic(w, imp, eid, fid, args) == EcallDynamic(w, imp, eid, fid, args);
      }
    } else {
      assert |imp.Members(ext)| == 1 by { assert ext in imp.bound; }
      assert FirstAvailable(w, imp.Members(ext)[1..]) == None;
    }
  }

  /**
   For every struct that static mode accepts: the dispatchers generated in the two modes return the same
   for every EID, FID and argument array, BASE included, exactly when every bound member is available and
   the vendor member keeps away from the standard extensions that have no member.
   */
  lemma ModesAgreeIff(w: World, fields: seq<Field>)
    requires BindFields(Static, fields).errors == 0
    ensures var imp := BindFields(Static, fields);
            && BindFields(Dynamic, fields) == imp
            && (SameCalls(w, imp) <==> forall ext: Ext :: MemberAvailable(w, imp, ext) && VendorQuiet(w, imp, ext))
  {
    var imp := BindFields(Static, fields);
    ModesBindAlike(fields);
    StaticAtMostOne(fields);
    if forall ext: Ext :: MemberAvailable(w, imp, ext) && VendorQuiet(w, imp, ext) {
      forall eid: nat, fid: nat, args: Args
        ensures EcallStatic(w, imp, eid, fid, args) == EcallDynamic(w, imp, eid, fid, args)
      {
        SameEcall(w, imp, eid, fid, args);
      }
    }
    if SameCalls(w, imp) {
      forall ext: Ext ensures MemberAvailable(w, imp, ext) && VendorQuiet(w, imp, ext) { SameNeedsBoth(w, imp, ext); }
    }
  }

  // ----- a derived vendor member -----

  /** The vendor member is a value whose type derives `VendorSBI`. */
  ghost predicate DerivedVendor(w: World, imp: Impl, vw: V.World, v: V.Vendor) {
    && V.Compiles(v)
    && (forall eid: nat :: VendorProbe(w, imp, eid) == V.ProbeExtension(vw, v, eid))
    && (forall eid: nat, fid: nat, args: Args ::
          VendorHandle(w, imp, eid, fid, args) == V.HandleEcall(vw, v, eid, fid, args))
  }

  lemma DerivedIsQuiet(w: World, imp: Impl, vw: V.World, v: V.Vendor, ext: Ext)
    requires DerivedVendor(w, imp, vw, v)
    ensures VendorQuiet(w, imp, ext)
  {
    EidsSpellNames(ext);
    V.ReservedNeverAnswered(vw, v, EidOf(ext), 0, [0, 0, 0, 0, 0, 0]);
    forall fid: nat, args: Args ensures VendorHandle(w, imp, EidOf(ext), fid, args) == NOT_SUPPORTED {
      V.ReservedNeverAnswered(vw, v, EidOf(ext), fid, args);
    }
  }

  /** With a derived vendor member, the modes agree exactly when every bound member is available. */
  lemma DerivedModesAgreeIff(w: World, fields: seq<Field>, vw: V.World, v: V.Vendor)
    requires BindFields(Static, fields).errors == 0
    requires DerivedVendor(w, BindFields(Static, fields), vw, v)
    ensures var imp := BindFields(Static, fields);
            SameCalls(w, imp) <==> forall ext: Ext :: MemberAvailable(w, imp, ext)
  {
    var imp := BindFields(Static, fields);
    ModesAgreeIff(w, fields);
    forall ext: Ext ensures VendorQuiet(w, imp, ext) { DerivedIsQuiet(w, imp, vw, v, ext); }
  }

  // ----- probing and dispatching agree -----

  /** In dynamic mode the member whose availability is probed is the one that serves the call. */
  lemma {:induction false} FirstAvailableServes(w: World, members: seq<nat>)
    ensures var first := FirstAvailable(w, members);
            if first.None? then forall m <- members :: Availability(w.values(m)) == 0
            else exists i | 0 <= i < |members| ::
                   && members[i] == first.value && Availability(w.values(members[i])) != 0
                   && forall j | 0 <= j < i :: Availability(w.values(members[j])) == 0
  {
    if members != [] {
      FirstAvailableServes(w, members[1..]);
      if Availability(w.values(members[0])) == 0 {
        if FirstAvailable(w, members).Some? {
          var i :| 0 <= i < |members[1..]| && members[1..][i] == FirstAvailable(w, members).value
                   && Availability(w.values(members[1..][i])) != 0
                   && forall j | 0 <= j < i :: Availability(w.values(members[1..][j])) == 0;
          assert members[i + 1] == members[1..][i];
          forall j | 0 <= j < i + 1 ensures Availability(w.values(members[j])) == 0 {
            if j > 0 { assert members[j] == members[1..][j - 1]; }
          }
        } else {
          forall m | m in members ensures Availability(w.values(m)) == 0 {
            if m != members[0] { assert m in members[1..]; }
          }
        }
      } else {
        assert members[0] == FirstAvailable(w, members).value;
      }
    }
  }

  /** With a derived vendor member, a probe of zero means in both modes that no call is answered. */
  lemma ZeroProbeNeverAnswers(w: World, imp: Impl, vw: V.World, v: V.Vendor, eid: nat, fid: nat, args: Args)
    requires DerivedVendor(w, imp, vw, v)
    ensures ProbeStatic(w, imp, eid) == 0 ==> EcallStatic(w, imp, eid, fid, args) == NOT_SUPPORTED
    ensures ProbeDynamic(w, imp, eid) == 0 ==> EcallDynamic(w, imp, eid, fid, args) == NOT_SUPPORTED
  {
    var ext := ExtOf(eid);
    if ext.Some? {
      EidsDistinct(ext.value, eid);
      FirstAvailableServes(w, imp.Members(ext.value));
    }
    if VendorProbe(w, imp, eid) == 0 { V.ZeroProbeNeverAnswers(vw, v, eid, fid, args); }
  }

  // ----- what an available member promises -----

  /** The implementation inside a value, through references and `Some`. */
  function Implementation(v: Value): Option<nat> {
    match v
    case Plain(id) => Some(id)
    case OptionOf(None) => None
    case OptionOf(Some(inner)) => Implementation(inner)
    case RefTo(target) => Implementation(target)
  }

  lemma {:induction false} ImplementationServes(w: World, v: Value, ext: Ext, fid: nat, args: Args)
    ensures Serve(w, v, ext, fid, args) ==
              match Implementation(v) case Some(id) => w.serve(id, ext, fid, args) case None => w.absent(ext, fid, args)
  {
    match v
    case OptionOf(Some(inner)) => ImplementationServes(w, inner, ext, fid, args);
    case RefTo(target) => ImplementationServes(w, target, ext, fid, args);
    case _ =>
  }

  /** The type of a member, as far as it is built from `Option` and references. */
  datatype Shape = Own | Opt(inner: Shape) | Ref(target: Shape)

  predicate HasShape(v: Value, shape: Shape) {
    match shape
    case Own => v.Plain?
    case Opt(inner) => v.OptionOf? && (v.inner.Some? ==> HasShape(v.inner.value, inner))
    case Ref(target) => v.RefTo? && HasShape(v.target, target)
  }

  predicate NoOption(shape: Shape) {
    match shape
    case Own => true
    case Opt(_) => false
    case Ref(target) => NoOption(target)
  }

  /** `Option` occurs at most as the outermost part of the type. */
  predicate OptionOutermost(shape: Shape) {
    match shape
    case Own => true
    case Opt(inner) => NoOption(inner)
    case Ref(target) => NoOption(target)
  }

  lemma {:induction false} NoOptionImplements(v: Value, shape: Shape)
    requires HasShape(v, shape) && NoOption(shape)
    ensures Implementation(v).Some?
  {
    if shape.Ref? { NoOptionImplements(v.target, shape.target); }
  }

  /** A type with an `Option` in it has a value with nothing inside. */
  lemma {:induction false} HollowValue(shape: Shape) returns (v: Value)
    requires !NoOption(shape)
    ensures HasShape(v, shape) && Implementation(v).None?
  {
    match shape
    case Opt(_) => v := OptionOf(None);
    case Ref(target) =>
      var inner := HollowValue(target);
      v := RefTo(inner);
  }

  /** The values of the type are available exactly when there is an implementation inside. */
  ghost predicate ProbeHonest(shape: Shape) {
    forall v: Value | HasShape(v, shape) :: Availability(v) != 0 <==> Implementation(v).Some?
  }

  /**
   Availability means that an implementation answers exactly for the types in which `Option` is outermost
   or absent: `_rustsbi_probe` looks no deeper, and a reference to an `Option` does not look at all.
   */
  lemma ProbeHonestIff(shape: Shape)
    ensures ProbeHonest(shape) <==> OptionOutermost(shape)
  {
    if OptionOutermost(shape) {
      forall v: Value | HasShape(v, shape) ensures Availability(v) != 0 <==> Implementation(v).Some? {
        match shape
        case Opt(inner) => if v.inner.Some? { NoOptionImplements(v.inner.value, inner); }
        case _ => NoOptionImplements(v, shape);
      }
    } else {
      match shape
      case Opt(inner) =>
        var hollow := HollowValue(inner);
        assert HasShape(OptionOf(Some(hollow)), shape) && Availability(OptionOf(Some(hollow))) != 0;
      case Ref(target) =>
        var hollow := HollowValue(target);
        assert HasShape(RefTo(hollow), shape) && Availability(RefTo(hollow)) != 0;
    }
  }

  /** A reference to `None` probes as available, and every call to it is served as if there were nothing. */
  lemma RefToNoneIsAvailable(w: World, ext: Ext, fid: nat, args: Args)
    ensures Availability(RefTo(OptionOf(None))) == 1
    ensures Serve(w, RefTo(OptionOf(None)), ext, fid, args) == w.absent(ext, fid, args)
  {
    ImplementationServes(w, RefTo(OptionOf(None)), ext, fid, args);
  }

  /**
   In dynamic mode, where the members have such types, a nonzero probe of a standard extension means
   that one implementation answers every call to it.
   */
  lemma ProbedIsImplemented(w: World, imp: Impl, ext: Ext, shapes: nat -> Shape) returns (id: nat)
    requires ProbeDynamic(w, imp, EidOf(ext)) != 0
    requires forall m <- imp.Members(ext) :: HasShape(w.values(m), shapes(m)) && OptionOutermost(shapes(m))
    ensures forall fid: nat, args: Args :: EcallDynamic(w, imp, EidOf(ext), fid, args) == w.serve(id, ext, fid, args)
  {
    EidsDistinct(ext, EidOf(ext));
    FirstAvailableServes(w, imp.Members(ext));
    var m := FirstAvailable(w, imp.Members(ext)).value;
    ProbeHonestIff(shapes(m));
    id := Implementation(w.values(m)).value;
    forall fid: nat, args: Args
      ensures EcallDynamic(w, imp, EidOf(ext), fid, args) == w.serve(id, ext, fid, args)
    {
      ImplementationServes(w, w.values(m), ext, fid, args);
    }
  }

  // ----- what each dispatcher answers -----

  /** The answer of the implementation inside a member, or what is answered where there is none. */
  function AnswerOf(w: World, v: Value, ext: Ext, fid: nat, args: Args): SbiRet {
    match Implementation(v)
    case Some(id) => w.serve(id, ext, fid, args)
    case None => w.absent(ext, fid, args)
  }

  /** A value is unavailable exactly when it is `None` itself; everything else probes 1. */
  lemma AvailableIff(v: Value)
    ensures Availability(v) == if v == OptionOf(None) then 0 else 1
  {
  }

  /** The seven functions of BASE; `info` is that of the `EnvInfo` member or of the machine. */
  function BaseTable(w: World, info: EnvInfo, probed: nat): seq<nat> {
    [0x200_0000, 4, w.version, probed, info.mvendorid, info.marchid, info.mimpid]
  }

  /**
   In both modes BASE answers by its table, with the probe of the mode in place of the fourth entry and the
   identity numbers of the `EnvInfo` member, if there is one; it has no other function.
   */
  lemma BaseAnswers(w: World, imp: Impl, fid: nat, args: Args)
    ensures var info := match imp.envInfo case Some(m) => w.infos(m) case None => w.registers;
            var fixed, late := BaseTable(w, info, ProbeStatic(w, imp, args[0])), BaseTable(w, info, ProbeDynamic(w, imp, args[0]));
            && EcallStatic(w, imp, 0x10, fid, args) == (if fid < 7 then SbiRet(0, fixed[fid]) else SbiRet(-2, 0))
            && EcallDynamic(w, imp, 0x10, fid, args) == (if fid < 7 then SbiRet(0, late[fid]) else SbiRet(-2, 0))
            && ProbeStatic(w, imp, 0x10) == ProbeDynamic(w, imp, 0x10) == 1
  {
  }

  /**
   In static mode a standard extension with a member probes 1 and is answered by the implementation in its
   first member; one without a member is the vendor's, and without a vendor it probes 0 and is not supported.
   */
  lemma StaticAnswers(w: World, imp: Impl, ext: Ext, fid: nat, args: Args)
    ensures var eid, members := EidOf(ext), imp.Members(ext);
            var probe, answer := ProbeStatic(w, imp, eid), EcallStatic(w, imp, eid, fid, args);
            if members != [] then probe == 1 && answer == AnswerOf(w, w.values(members[0]), ext, fid, args)
            else match imp.vendor
              case Some(m) => probe == w.vendors(m).probe(eid) && answer == w.vendors(m).handle(eid, fid, args)
              case None => probe == 0 && answer == SbiRet(-2, 0)
  {
    EidsDistinct(ext, EidOf(ext));
    if imp.Members(ext) != [] { ImplementationServes(w, w.values(imp.Members(ext)[0]), ext, fid, args); }
  }

  /** The first member of the extension that is not `None`. */
  predicate FirstPresent(w: World, members: seq<nat>, i: nat)
    requires i < |members|
  {
    w.values(members[i]) != OptionOf(None) && forall j | 0 <= j < i :: w.values(members[j]) == OptionOf(None)
  }

  /**
   In dynamic mode a standard extension probes 1 and is answered by the implementation in its first member
   that is not `None`; without such a member it probes 0 and is not supported, whatever the vendor.
   */
  lemma DynamicAnswers(w: World, imp: Impl, ext: Ext, fid: nat, args: Args)
    ensures var eid, members := EidOf(ext), imp.Members(ext);
            var probe, answer := ProbeDynamic(w, imp, eid), EcallDynamic(w, imp, eid, fid, args);
            && (forall i: nat | i < |members| && FirstPresent(w, members, i) ::
                  probe == 1 && answer == AnswerOf(w, w.values(members[i]), ext, fid, args))
            && ((forall m <- members :: w.values(m) == OptionOf(None)) ==> probe == 0 && answer == SbiRet(-2, 0))
  {
    var members := imp.Members(ext);
    EidsDistinct(ext, EidOf(ext));
    FirstAvailableServes(w, members);
    forall v: Value ensures Availability(v) == if v == OptionOf(None) then 0 else 1 { AvailableIff(v); }
    forall i: nat | i < |members| && FirstPresent(w, members, i)
      ensures FirstAvailable(w, members) == Some(members[i])
    {
      assert members[i] in members;
      var k :| 0 <= k < |members| && members[k] == FirstAvailable(w, members).value
               && Availability(w.values(members[k])) != 0
               && forall j | 0 <= j < k :: Availability(w.values(members[j])) == 0;
      assert k == i;
    }
    if FirstAvailable(w, members).Some? {
      ImplementationServes(w, w.values(FirstAvailable(w, members).value), ext, fid, args);
    }
  }

  /** In both modes every EID that is neither BASE nor a standard extension is the vendor's. */
  lemma OtherEidsAreTheVendors(w: World, imp: Impl, eid: nat, fid: nat, args: Args)
    requires eid != 0x10 && forall ext: Ext :: eid != EidOf(ext)
    ensures EcallStatic(w, imp, eid, fid, args) == EcallDynamic(w, imp, eid, fid, args) ==
              match imp.vendor case Some(m) => w.vendors(m).handle(eid, fid, args) case None => SbiRet(-2, 0)
    ensures ProbeStatic(w, imp, eid) == ProbeDynamic(w, imp, eid) ==
              match imp.vendor case Some(m) => w.vendors(m).probe(eid) case None => 0
  {
    if ExtOf(eid).Some? { EidsDistinct(ExtOf(eid).value, eid); }
  }
}
