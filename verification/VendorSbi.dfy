/**
 Vendor extensions: the code that `#[derive(VendorSBI)]` generates (library/macros/src/vendor.rs,
 library/macros/src/extension.rs) and the implementations for references and `Option`
 (library/rustsbi/src/extension.rs).
 */
module VendorSbi {
  import opened Helpers
  import opened SbiSpec

  // ----- handlers -----

  /** A handler value: an implementation of `Extension` named by a number, `Option<T>`, or `&T`. */
  datatype Handler = Leaf(id: nat) | OptionOf(inner: Option<Handler>) | RefTo(target: Handler)

  /** What the implementations answer. They have no side effects, so each is a pair of functions. */
  datatype World = World(probe: nat -> nat, handle: (nat, nat, Args) -> SbiRet)

  function Probe(w: World, h: Handler): nat {
    match h
    case Leaf(id) => w.probe(id)
    case OptionOf(None) => 0
    case OptionOf(Some(inner)) => Probe(w, inner)
    case RefTo(target) => Probe(w, target)
  }

  function Handle(w: World, h: Handler, fid: nat, args: Args): SbiRet {
    match h
    case Leaf(id) => w.handle(id, fid, args)
    case OptionOf(None) => NOT_SUPPORTED
    case OptionOf(Some(inner)) => Handle(w, inner, fid, args)
    case RefTo(target) => Handle(w, target, fid, args)
  }

  // ----- vendor values -----

  datatype Binding = Binding(eid: nat, handler: Handler)

  /** A derived struct, a derived enum holding one of its variants, `Option<T>`, or `&T`. */
  datatype Vendor =
    | Struct(bindings: seq<Binding>)
    | Variant(inner: Vendor)
    | OptionVendor(vendor: Option<Vendor>)
    | RefVendor(target: Vendor)

  /** The first arm of the generated `match` that fits. */
  function ProbeArms(w: World, bindings: seq<Binding>, eid: nat): nat {
    if bindings == [] then 0
    else if eid == bindings[0].eid then Probe(w, bindings[0].handler)
    else ProbeArms(w, bindings[1..], eid)
  }

  function DispatchArms(w: World, bindings: seq<Binding>, eid: nat, fid: nat, args: Args): SbiRet {
    if bindings == [] then NOT_SUPPORTED
    else if eid == bindings[0].eid then
      if Probe(w, bindings[0].handler) == 0 then NOT_SUPPORTED
      else Handle(w, bindings[0].handler, fid, args)
    else DispatchArms(w, bindings[1..], eid, fid, args)
  }

  function ProbeExtension(w: World, v: Vendor, eid: nat): nat {
    match v
    case Struct(bindings) => ProbeArms(w, bindings, eid)
    case Variant(inner) => ProbeExtension(w, inner, eid)
    case OptionVendor(None) => 0
    case OptionVendor(Some(inner)) => ProbeExtension(w, inner, eid)
    case RefVendor(target) => ProbeExtension(w, target, eid)
  }

  function HandleEcall(w: World, v: Vendor, eid: nat, fid: nat, args: Args): SbiRet {
    match v
    case Struct(bindings) => DispatchArms(w, bindings, eid, fid, args)
    case Variant(inner) => HandleEcall(w, inner, eid, fid, args)
    case OptionVendor(None) => NOT_SUPPORTED
    case OptionVendor(Some(inner)) => HandleEcall(w, inner, eid, fid, args)
    case RefVendor(target) => HandleEcall(w, target, eid, fid, args)
  }

  // ----- attributes and validation -----

  /** One item inside `extension(..)`. */
  datatype Meta = EidIs(eid: nat) | EidUnreadable | OtherKey

  /** `Extension::parse`: exactly one `eid`, an integer or a constant. */
  method ParseExtension(metas: seq<Meta>) returns (eid: Option<nat>)
    ensures eid == if |metas| == 1 && metas[0].EidIs? then Some(metas[0].eid) else None
  {
    eid := None;
    for n := 0 to |metas|
      invariant n == 0 ==> eid.None?
      invariant n > 0 ==> n == 1 && metas[0].EidIs? && eid == Some(metas[0].eid)
    {
      match metas[n] {
        case OtherKey => return None;
        case EidUnreadable => return None;
        case EidIs(value) =>
          if eid.Some? { return None; }
          eid := Some(value);
      }
    }
  }

  predicate Reserved(eid: nat) {
    eid <= 8 || eid == EID_BASE || ExtOf(eid).Some?
  }

  /** What the EIDs of one struct must be. */
  predicate Accepted(ids: seq<nat>) {
    && (forall i | 0 <= i < |ids| :: ids[i] <= 0xFFFF_FFFF && !Reserved(ids[i]))
    && (forall i, j | 0 <= j < i < |ids| :: ids[i] != ids[j])
  }

  /** The generated loops: they run to their end if and only if the EIDs are what they must be. */
  method Validate(ids: seq<nat>) returns (ok: bool)
    ensures ok <==> Accepted(ids)
  {
    var i := 0;
    while i < |ids|
      invariant 0 <= i <= |ids| && Accepted(ids[..i])
    {
      if ids[i] > 0xFFFF_FFFF { return false; }
      if ids[i] <= 8 || ids[i] == EID_BASE || ExtOf(ids[i]).Some? { return false; }
      var j := 0;
      while j < i
        invariant 0 <= j <= i
        invariant forall k | 0 <= k < j :: ids[i] != ids[k]
      {
        if ids[i] == ids[j] { return false; }
        j := j + 1;
      }
      i := i + 1;
    }
    assert ids[..i] == ids;
    ok := true;
  }

  function Ids(bindings: seq<Binding>): (ids: seq<nat>)
    ensures |ids| == |bindings|
    ensures forall i | 0 <= i < |ids| :: ids[i] == bindings[i].eid
  {
    seq(|bindings|, i requires 0 <= i < |bindings| => bindings[i].eid)
  }

  /** Every struct in the tree passed its validation. */
  predicate Compiles(v: Vendor) {
    match v
    case Struct(bindings) => Accepted(Ids(bindings))
    case Variant(inner) => Compiles(inner)
    case OptionVendor(None) => true
    case OptionVendor(Some(inner)) => Compiles(inner)
    case RefVendor(target) => Compiles(target)
  }

  // ----- probing and dispatching agree -----

  /** Through its wrappers, the vendor value holds a struct that binds `h` to `eid`. */
  predicate Binds(v: Vendor, eid: nat, h: Handler) {
    match v
    case Struct(bindings) => Binding(eid, h) in bindings
    case Variant(inner) => Binds(inner, eid, h)
    case OptionVendor(None) => false
    case OptionVendor(Some(inner)) => Binds(inner, eid, h)
    case RefVendor(target) => Binds(target, eid, h)
  }

  /** What the arms do for a bound EID, wherever in the struct it stands. */
  lemma {:induction false} ArmsFindBinding(w: World, bindings: seq<Binding>, i: nat, fid: nat, args: Args)
    requires i < |bindings|
    requires forall j | 0 <= j < i :: bindings[j].eid != bindings[i].eid
    ensures ProbeArms(w, bindings, bindings[i].eid) == Probe(w, bindings[i].handler)
    ensures DispatchArms(w, bindings, bindings[i].eid, fid, args) ==
              if Probe(w, bindings[i].handler) == 0 then NOT_SUPPORTED else Handle(w, bindings[i].handler, fid, args)
  {
    if i > 0 {
      assert bindings[0].eid != bindings[i].eid;
      forall j | 0 <= j < i - 1 ensures bindings[1..][j].eid != bindings[i].eid { assert bindings[1..][j] == bindings[j + 1]; }
      ArmsFindBinding(w, bindings[1..], i - 1, fid, args);
    }
  }

  lemma {:induction false} ArmsMissOthers(w: World, bindings: seq<Binding>, eid: nat, fid: nat, args: Args)
    requires forall b <- bindings :: b.eid != eid
    ensures ProbeArms(w, bindings, eid) == 0 && DispatchArms(w, bindings, eid, fid, args) == NOT_SUPPORTED
  {
    if bindings != [] {
      assert bindings[0] in bindings;
      forall b | b in bindings[1..] ensures b.eid != eid { assert b in bindings; }
      ArmsMissOthers(w, bindings[1..], eid, fid, args);
    }
  }

  /** Probing and dispatching go to the same handler: the one bound to the EID. */
  lemma {:induction false} BoundHandlerAnswers(w: World, v: Vendor, eid: nat, h: Handler, fid: nat, args: Args)
    requires Compiles(v) && Binds(v, eid, h)
    ensures ProbeExtension(w, v, eid) == Probe(w, h)
    ensures HandleEcall(w, v, eid, fid, args) == if Probe(w, h) == 0 then NOT_SUPPORTED else Handle(w, h, fid, args)
  {
    match v
    case Struct(bindings) =>
      var i :| 0 <= i < |bindings| && bindings[i] == Binding(eid, h);
      assert forall j | 0 <= j < i :: Ids(bindings)[i] != Ids(bindings)[j];
      ArmsFindBinding(w, bindings, i, fid, args);
    case Variant(inner) => BoundHandlerAnswers(w, inner, eid, h, fid, args);
    case OptionVendor(Some(inner)) => BoundHandlerAnswers(w, inner, eid, h, fid, args);
    case RefVendor(target) => BoundHandlerAnswers(w, target, eid, h, fid, args);
  }

  lemma {:induction false} UnboundIsSilent(w: World, v: Vendor, eid: nat, fid: nat, args: Args)
    requires forall h :: !Binds(v, eid, h)
    ensures ProbeExtension(w, v, eid) == 0 && HandleEcall(w, v, eid, fid, args) == NOT_SUPPORTED
  {
    match v
    case Struct(bindings) =>
      forall b | b in bindings ensures b.eid != eid {
        assert b == Binding(b.eid, b.handler);
        assert !Binds(v, eid, b.handler);
      }
      ArmsMissOthers(w, bindings, eid, fid, args);
    case Variant(inner) =>
      forall h ensures !Binds(inner, eid, h) { assert !Binds(v, eid, h); }
      UnboundIsSilent(w, inner, eid, fid, args);
    case OptionVendor(None) =>
    case OptionVendor(Some(inner)) =>
      forall h ensures !Binds(inner, eid, h) { assert !Binds(v, eid, h); }
      UnboundIsSilent(w, inner, eid, fid, args);
    case RefVendor(target) =>
      forall h ensures !Binds(target, eid, h) { assert !Binds(v, eid, h); }
      UnboundIsSilent(w, target, eid, fid, args);
  }

  /** A probe of zero means that every call returns `not_supported`. */
  lemma ZeroProbeNeverAnswers(w: World, v: Vendor, eid: nat, fid: nat, args: Args)
    requires Compiles(v) && ProbeExtension(w, v, eid) == 0
    ensures HandleEcall(w, v, eid, fid, args) == NOT_SUPPORTED
  {
    if h :| Binds(v, eid, h) {
      BoundHandlerAnswers(w, v, eid, h, fid, args);
    } else {
      UnboundIsSilent(w, v, eid, fid, args);
    }
  }

  /** A nonzero probe is the answer of the very handler that every call to that EID goes to. */
  lemma NonzeroProbeNamesHandler(w: World, v: Vendor, eid: nat) returns (h: Handler)
    requires Compiles(v) && ProbeExtension(w, v, eid) != 0
    ensures Binds(v, eid, h) && Probe(w, h) == ProbeExtension(w, v, eid)
    ensures forall fid, args :: HandleEcall(w, v, eid, fid, args) == Handle(w, h, fid, args)
  {
    if forall g :: !Binds(v, eid, g) { UnboundIsSilent(w, v, eid, 0, [0, 0, 0, 0, 0, 0]); }
    h :| Binds(v, eid, h);
    BoundHandlerAnswers(w, v, eid, h, 0, [0, 0, 0, 0, 0, 0]);
    forall fid, args ensures HandleEcall(w, v, eid, fid, args) == Handle(w, h, fid, args) {
      BoundHandlerAnswers(w, v, eid, h, fid, args);
    }
  }

  /** The implementation inside a handler value, through references and `Some`. */
  function Implementation(h: Handler): Option<nat> {
    match h
    case Leaf(id) => Some(id)
    case OptionOf(None) => None
    case OptionOf(Some(inner)) => Implementation(inner)
    case RefTo(target) => Implementation(target)
  }

  lemma {:induction false} ImplementationAnswers(w: World, h: Handler, fid: nat, args: Args)
    ensures Implementation(h).Some? ==>
              Probe(w, h) == w.probe(Implementation(h).value) && Handle(w, h, fid, args) == w.handle(Implementation(h).value, fid, args)
    ensures Implementation(h).None? ==> Probe(w, h) == 0 && Handle(w, h, fid, args) == NOT_SUPPORTED
  {
    match h
    case OptionOf(Some(inner)) => ImplementationAnswers(w, inner, fid, args);
    case RefTo(target) => ImplementationAnswers(w, target, fid, args);
    case _ =>
  }

  /**
   Whatever a nonzero probe promises is kept by one implementation: it gave that answer itself, and every
   call to the EID is answered by it and by nothing else.
   */
  lemma ImplementationIsCalled(w: World, v: Vendor, eid: nat) returns (id: nat)
    requires Compiles(v) && ProbeExtension(w, v, eid) != 0
    ensures exists h :: Binds(v, eid, h) && Implementation(h) == Some(id)
    ensures ProbeExtension(w, v, eid) == w.probe(id)
    ensures forall fid, args :: HandleEcall(w, v, eid, fid, args) == w.handle(id, fid, args)
  {
    var h := NonzeroProbeNamesHandler(w, v, eid);
    ImplementationAnswers(w, h, 0, [0, 0, 0, 0, 0, 0]);
    id := Implementation(h).value;
    forall fid, args ensures HandleEcall(w, v, eid, fid, args) == w.handle(id, fid, args) {
      ImplementationAnswers(w, h, fid, args);
    }
  }

  lemma {:induction false} BoundIdsAccepted(v: Vendor, eid: nat, h: Handler)
    requires Compiles(v) && Binds(v, eid, h)
    ensures eid <= 0xFFFF_FFFF && !Reserved(eid)
  {
    match v
    case Struct(bindings) =>
      var i :| 0 <= i < |bindings| && bindings[i] == Binding(eid, h);
      assert Ids(bindings)[i] == eid;
    case Variant(inner) => BoundIdsAccepted(inner, eid, h);
    case OptionVendor(Some(inner)) => BoundIdsAccepted(inner, eid, h);
    case RefVendor(target) => BoundIdsAccepted(target, eid, h);
  }

  /** The legacy EIDs 0 to 8, that of BASE, those that spell a standard extension, and those beyond 32 bits. */
  ghost predicate OutOfBounds(eid: nat) {
    eid in {0, 1, 2, 3, 4, 5, 6, 7, 8, 0x10} || eid >= 0x1_0000_0000 || exists ext: Ext :: eid == EidFromStr(NameOf(ext))
  }

  lemma OutOfBoundsIff(eid: nat)
    ensures OutOfBounds(eid) <==> Reserved(eid) || eid > 0xFFFF_FFFF
  {
    forall ext: Ext ensures EidOf(ext) == EidFromStr(NameOf(ext)) { EidsSpellNames(ext); }
    if ExtOf(eid).Some? { EidsDistinct(ExtOf(eid).value, eid); }
    if ext: Ext :| eid == EidFromStr(NameOf(ext)) { EidsDistinct(ext, eid); }
  }

  /** Exactly which EIDs a struct of one field can have. */
  lemma AcceptedAloneIff(eid: nat)
    ensures Accepted([eid]) <==> !OutOfBounds(eid)
  {
    OutOfBoundsIff(eid);
    assert [eid][0] == eid;
  }

  /** Standard and legacy EIDs, and those beyond 32 bits, are never answered. */
  lemma ReservedNeverAnswered(w: World, v: Vendor, eid: nat, fid: nat, args: Args)
    requires Compiles(v) && OutOfBounds(eid)
    ensures ProbeExtension(w, v, eid) == 0 && HandleEcall(w, v, eid, fid, args) == NOT_SUPPORTED
  {
    OutOfBoundsIff(eid);
    forall h ensures !Binds(v, eid, h) {
      if Binds(v, eid, h) { BoundIdsAccepted(v, eid, h); }
    }
    UnboundIsSilent(w, v, eid, fid, args);
  }

  // ----- the order of fields does not matter -----

  lemma DistinctIds(ids: seq<nat>, i: int, j: int)
    requires Accepted(ids) && 0 <= i < |ids| && 0 <= j < |ids| && i != j
    ensures ids[i] != ids[j]
  {
    if i < j { assert ids[j] != ids[i]; }
  }

  /** A permutation of an accepted list is accepted. */
  lemma PermutationAccepted(f: seq<Binding>, g: seq<Binding>)
    requires Accepted(Ids(f)) && multiset(f) == multiset(g)
    ensures Accepted(Ids(g))
  {
    var ids := Ids(g);
    forall i | 0 <= i < |ids| ensures ids[i] <= 0xFFFF_FFFF && !Reserved(ids[i]) {
      var k := SameMember(f, g, i);
      assert Ids(f)[k] == ids[i];
    }
    forall i, j | 0 <= j < i < |ids| ensures ids[i] != ids[j] {
      var k := SameMember(f, g, i);
      var l := SameMember(f, g, j);
      assert Ids(f)[k] == ids[i] && Ids(f)[l] == ids[j];
      OncePresent(f, k);
      if g[i] == g[j] { TwicePresent(g, j, i); }
      DistinctIds(Ids(f), k, l);
    }
  }

  lemma SameMember(f: seq<Binding>, g: seq<Binding>, i: int) returns (k: int)
    requires multiset(f) == multiset(g) && 0 <= i < |g|
    ensures 0 <= k < |f| && f[k] == g[i]
  {
    assert g[i] in multiset(g);
    assert g[i] in f;
    k :| 0 <= k < |f| && f[k] == g[i];
  }

  lemma TwicePresent(g: seq<Binding>, j: int, i: int)
    requires 0 <= j < i < |g| && g[i] == g[j]
    ensures multiset(g)[g[i]] >= 2
  {
    assert g == g[..i] + [g[i]] + g[i + 1..];
    assert g[..i][j] == g[i];
    assert g[i] in multiset(g[..i]);
  }

  lemma OncePresent(f: seq<Binding>, k: int)
    requires Accepted(Ids(f)) && 0 <= k < |f|
    ensures multiset(f)[f[k]] == 1
  {
    assert f == f[..k] + [f[k]] + f[k + 1..];
    forall j | 0 <= j < |f| && j != k ensures f[j] != f[k] {
      DistinctIds(Ids(f), j, k);
      assert Ids(f)[j] == f[j].eid && Ids(f)[k] == f[k].eid;
    }
    assert f[k] !in f[..k];
    assert f[k] !in f[k + 1..];
  }

  /** Reordering the fields of an accepted struct changes neither probing nor dispatching. */
  lemma FieldOrderIrrelevant(w: World, f: seq<Binding>, g: seq<Binding>, eid: nat, fid: nat, args: Args)
    requires Accepted(Ids(f)) && multiset(f) == multiset(g)
    ensures Accepted(Ids(g))
    ensures ProbeExtension(w, Struct(f), eid) == ProbeExtension(w, Struct(g), eid)
    ensures HandleEcall(w, Struct(f), eid, fid, args) == HandleEcall(w, Struct(g), eid, fid, args)
  {
    PermutationAccepted(f, g);
    forall h ensures Binds(Struct(f), eid, h) <==> Binds(Struct(g), eid, h) {
      assert Binding(eid, h) in f <==> Binding(eid, h) in multiset(f);
      assert Binding(eid, h) in g <==> Binding(eid, h) in multiset(g);
    }
    if h :| Binds(Struct(f), eid, h) {
      BoundHandlerAnswers(w, Struct(f), eid, h, fid, args);
      BoundHandlerAnswers(w, Struct(g), eid, h, fid, args);
    } else {
      UnboundIsSilent(w, Struct(f), eid, fid, args);
      UnboundIsSilent(w, Struct(g), eid, fid, args);
    }
  }
}
