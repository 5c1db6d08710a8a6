/**
 How `#[derive(RustSBI)]` binds the fields of a struct to extensions (library/macros/src/lib.rs). A field
 is known by its index; an attribute `#[rustsbi(..)]` is the list of the names inside it, where a path
 that is not a single identifier is a name that nothing answers to.
 */
module DeriveBinding {
  import opened Helpers
  import opened SbiSpec

  datatype Mode = Static | Dynamic

  datatype Field = Field(name: Option<string>, attrs: seq<seq<string>>)

  datatype Target = Standard(ext: Ext) | EnvInfo

  /** The names and aliases that both modes know. */
  function TargetOf(name: string): Option<Target> {
    if name in {"rfnc", "fence"} then Some(Standard(Fence))
    else if name == "hsm" then Some(Standard(Hsm))
    else if name in {"spi", "ipi"} then Some(Standard(Ipi))
    else if name in {"srst", "reset"} then Some(Standard(Reset))
    else if name in {"time", "timer"} then Some(Standard(Timer))
    else if name == "pmu" then Some(Standard(Pmu))
    else if name in {"dbcn", "console"} then Some(Standard(Console))
    else if name == "susp" then Some(Standard(Susp))
    else if name == "cppc" then Some(Standard(Cppc))
    else if name == "nacl" then Some(Standard(Nacl))
    else if name == "sta" then Some(Standard(Sta))
    else if name == "mpxy" then Some(Standard(Mpxy))
    else if name == "dbtr" then Some(Standard(Dbtr))
    else if name == "fwft" then Some(Standard(Fwft))
    else if name == "sse" then Some(Standard(Sse))
    else if name in {"info", "env_info"} then Some(EnvInfo)
    else None
  }

  /**
   The members found so far. In static mode an extension has at most one; `errors` counts the
   compile errors emitted.
   */
  datatype Impl = Impl(bound: map<Ext, seq<nat>>, envInfo: Option<nat>, vendor: Option<nat>, errors: nat) {
    function Members(ext: Ext): seq<nat> {
      if ext in bound then bound[ext] else []
    }
  }

  const EMPTY := Impl(map[], None, None, 0)

  function ErrorIf(b: bool): nat { if b then 1 else 0 }

  /**
   `replace_sbi_extension_ident` followed by `check_already_exists`, or `push_sbi_extension_ident`. The
   second result says whether the name was taken; in dynamic mode a second `env_info` is not.
   */
  function Bind(mode: Mode, imp: Impl, name: string, member: nat): (Impl, bool) {
    match TargetOf(name)
    case None => (imp, false)
    case Some(EnvInfo) =>
      (match mode
       case Static => (imp.(envInfo := Some(member), errors := imp.errors + ErrorIf(imp.envInfo.Some?)), true)
       case Dynamic => (imp.(envInfo := Some(member)), imp.envInfo.None?))
    case Some(Standard(ext)) =>
      var members := imp.Members(ext);
      (match mode
       case Static => (imp.(bound := imp.bound[ext := [member]], errors := imp.errors + ErrorIf(members != [])), true)
       case Dynamic => (imp.(bound := imp.bound[ext := members + [member]]), true))
  }

  /** One name of an attribute. */
  function BindMeta(mode: Mode, imp: Impl, name: string, member: nat): (Impl, bool) {
    if name == "skip" then (imp, true)
    else if name == "vendor" then
      (imp.(vendor := Some(member), errors := imp.errors + ErrorIf(imp.vendor.Some?)), true)
    else Bind(mode, imp, name, member)
  }

  /** The names of one attribute, up to the first that is not taken; was any taken? */
  function BindAttr(mode: Mode, imp: Impl, names: seq<string>, member: nat): (Impl, bool)
    decreases |names|
  {
    if names == [] then (imp, false)
    else
      var (next, taken) := BindMeta(mode, imp, names[0], member);
      if !taken then (next.(errors := next.errors + 1), false)
      else (BindAttr(mode, next, names[1..], member).0, true)
  }

  function BindAttrs(mode: Mode, imp: Impl, attrs: seq<seq<string>>, member: nat): (Impl, bool)
    decreases |attrs|
  {
    if attrs == [] then (imp, false)
    else
      var (next, taken) := BindAttr(mode, imp, attrs[0], member);
      var (last, more) := BindAttrs(mode, next, attrs[1..], member);
      (last, taken || more)
  }

  /** A field is bound by its attributes or, when none of their names was taken, by its own name. */
  function BindField(mode: Mode, imp: Impl, field: Field, member: nat): Impl {
    var (next, taken) := BindAttrs(mode, imp, field.attrs, member);
    if taken || field.name.None? then next else Bind(mode, next, field.name.value, member).0
  }

  function BindFields(mode: Mode, fields: seq<Field>): Impl {
    if fields == [] then EMPTY
    else
      var last := |fields| - 1;
      BindField(mode, BindFields(mode, fields[..last]), fields[last], last)
  }

  // ----- the loops of `derive_rustsbi` -----

  class Deriver {
    const mode: Mode
    var bound: map<Ext, seq<nat>>
    var envInfo: Option<nat>
    var vendor: Option<nat>
    var errors: nat

    function Found(): Impl
      reads this
    {
      Impl(bound, envInfo, vendor, errors)
    }

    constructor (parseMode: Mode)
      ensures mode == parseMode && Found() == EMPTY
    {
      mode := parseMode;
      bound, envInfo, vendor, errors := map[], None, None, 0;
    }

    method BindName(name: string, member: nat) returns (taken: bool)
      modifies this
      ensures (Found(), taken) == Bind(mode, old(Found()), name, member)
    {
      var target := TargetOf(name);
      match target {
        case None => taken := false;
        case Some(EnvInfo) =>
          var origin := envInfo;
          envInfo := Some(member);
          if mode.Static? {
            if origin.Some? { errors := errors + 1; }
            taken := true;
          } else {
            taken := origin.None?;
          }
        case Some(Standard(ext)) =>
          var members := if ext in bound then bound[ext] else [];
          if mode.Static? {
            bound := bound[ext := [member]];
            if members != [] { errors := errors + 1; }
          } else {
            bound := bound[ext := members + [member]];
          }
          taken := true;
      }
    }

    method ParseMeta(name: string, member: nat) returns (accepted: bool)
      modifies this
      ensures (Found(), accepted) == BindMeta(mode, old(Found()), name, member)
    {
      accepted := true;
      if name == "skip" {
      } else if name == "vendor" {
        if vendor.Some? { errors := errors + 1; }
        vendor := Some(member);
      } else {
        accepted := BindName(name, member);
      }
    }

    method ParseAttr(names: seq<string>, member: nat) returns (taken: bool)
      modifies this
      ensures (Found(), taken) == BindAttr(mode, old(Found()), names, member)
    {
      taken := false;
      var n := 0;
      while n < |names|
        invariant 0 <= n <= |names|
        invariant taken == (n > 0)
        invariant n == 0 ==> Found() == old(Found())
        invariant n > 0 ==>
          BindAttr(mode, old(Found()), names, member) == (BindAttr(mode, Found(), names[n..], member).0, true)
      {
        var accepted := ParseMeta(names[n], member);
        if !accepted {
          errors := errors + 1;
          return;
        }
        assert names[n..][1..] == names[n + 1..] && names[0..] == names;
        taken := true;
        n := n + 1;
      }
    }

    method ParseField(field: Field, member: nat)
      modifies this
      ensures Found() == BindField(mode, old(Found()), field, member)
    {
      var parsed := false;
      var n := 0;
      while n < |field.attrs|
        invariant 0 <= n <= |field.attrs|
        invariant var (last, more) := BindAttrs(mode, Found(), field.attrs[n..], member);
                  BindAttrs(mode, old(Found()), field.attrs, member) == (last, parsed || more)
      {
        var taken := ParseAttr(field.attrs[n], member);
        assert field.attrs[n..][1..] == field.attrs[n + 1..];
        parsed := parsed || taken;
        n := n + 1;
      }
      if !parsed && field.name.Some? { var _ := BindName(field.name.value, member); }
    }

    method ParseFields(fields: seq<Field>)
      requires Found() == EMPTY
      modifies this
      ensures Found() == BindFields(mode, fields)
    {
      var n := 0;
      while n < |fields|
        invariant 0 <= n <= |fields|
        invariant Found() == BindFields(mode, fields[..n])
      {
        ParseField(fields[n], n);
        assert fields[..n + 1][..n] == fields[..n];
        n := n + 1;
      }
      assert fields[..n] == fields;
    }
  }

  // ----- the two modes bind alike -----

  lemma BindAlike(imp: Impl, name: string, member: nat)
    requires Bind(Static, imp, name, member).0.errors == imp.errors
    ensures Bind(Dynamic, imp, name, member) == Bind(Static, imp, name, member)
  {
    assert [] + [member] == [member];
  }

  lemma {:induction false} AttrAlike(imp: Impl, names: seq<string>, member: nat)
    ensures BindAttr(Static, imp, names, member).0.errors >= imp.errors
    ensures BindAttr(Static, imp, names, member).0.errors == imp.errors ==>
              BindAttr(Dynamic, imp, names, member) == BindAttr(Static, imp, names, member)
    decreases |names|
  {
    if names != [] {
      var (next, taken) := BindMeta(Static, imp, names[0], member);
      if taken { AttrAlike(next, names[1..], member); }
      if next.errors == imp.errors && names[0] != "skip" && names[0] != "vendor" { BindAlike(imp, names[0], member); }
    }
  }

  lemma {:induction false} AttrsAlike(imp: Impl, attrs: seq<seq<string>>, member: nat)
    ensures BindAttrs(Static, imp, attrs, member).0.errors >= imp.errors
    ensures BindAttrs(Static, imp, attrs, member).0.errors == imp.errors ==>
              BindAttrs(Dynamic, imp, attrs, member) == BindAttrs(Static, imp, attrs, member)
    decreases |attrs|
  {
    if attrs != [] {
      AttrAlike(imp, attrs[0], member);
      AttrsAlike(BindAttr(Static, imp, attrs[0], member).0, attrs[1..], member);
    }
  }

  lemma FieldAlike(imp: Impl, field: Field, member: nat)
    ensures BindField(Static, imp, field, member).errors >= imp.errors
    ensures BindField(Static, imp, field, member).errors == imp.errors ==>
              BindField(Dynamic, imp, field, member) == BindField(Static, imp, field, member)
  {
    AttrsAlike(imp, field.attrs, member);
    var (next, taken) := BindAttrs(Static, imp, field.attrs, member);
    if !taken && field.name.Some? && BindField(Static, imp, field, member).errors == imp.errors {
      BindAlike(next, field.name.value, member);
    }
  }

  /** A struct that static mode accepts is accepted by dynamic mode, with the same members bound. */
  lemma {:induction false} ModesBindAlike(fields: seq<Field>)
    requires BindFields(Static, fields).errors == 0
    ensures BindFields(Dynamic, fields) == BindFields(Static, fields)
  {
    if fields != [] {
      var last := |fields| - 1;
      FieldAlike(BindFields(Static, fields[..last]), fields[last], last);
      ModesBindAlike(fields[..last]);
    }
  }

  predicate AtMostOne(imp: Impl) {
    forall ext <- imp.bound :: |imp.bound[ext]| <= 1
  }

  lemma {:induction false} AttrAtMostOne(imp: Impl, names: seq<string>, member: nat)
    requires AtMostOne(imp)
    ensures AtMostOne(BindAttr(Static, imp, names, member).0)
    decreases |names|
  {
    if names != [] {
      var (next, taken) := BindMeta(Static, imp, names[0], member);
      if taken { AttrAtMostOne(next, names[1..], member); }
    }
  }

  lemma {:induction false} AttrsAtMostOne(imp: Impl, attrs: seq<seq<string>>, member: nat)
    requires AtMostOne(imp)
    ensures AtMostOne(BindAttrs(Static, imp, attrs, member).0)
    decreases |attrs|
  {
    if attrs != [] {
      AttrAtMostOne(imp, attrs[0], member);
      AttrsAtMostOne(BindAttr(Static, imp, attrs[0], member).0, attrs[1..], member);
    }
  }

  /** Static mode binds at most one member to each extension. */
  lemma {:induction false} StaticAtMostOne(fields: seq<Field>)
    ensures AtMostOne(BindFields(Static, fields))
  {
    if fields != [] {
      var last := |fields| - 1;
      StaticAtMostOne(fields[..last]);
      AttrsAtMostOne(BindFields(Static, fields[..last]), fields[last].attrs, last);
    }
  }

  /**
   A second `env_info` in dynamic mode: it takes effect either way. Named in an attribute, it is reported
   as an unknown attribute and stops that attribute; as the field's own name, it goes unnoticed.
   */
  lemma SecondEnvInfo(imp: Impl, name: string, rest: seq<string>, member: nat)
    requires TargetOf(name) == Some(EnvInfo) && imp.envInfo.Some?
    ensures BindAttr(Dynamic, imp, [name] + rest, member)
         == (imp.(envInfo := Some(member), errors := imp.errors + 1), false)
    ensures BindField(Dynamic, imp, Field(Some(name), []), member) == imp.(envInfo := Some(member))
    ensures BindField(Static, imp, Field(Some(name), []), member)
         == imp.(envInfo := Some(member), errors := imp.errors + 1)
  {
    assert ([name] + rest)[0] == name;
  }

  /**
   The two modes bind a field of its own name alike exactly when that name is no second binding: there,
   only static mode reports it.
   */
  lemma OwnNameAlikeIff(imp: Impl, name: string, member: nat)
    ensures BindField(Static, imp, Field(Some(name), []), member) == BindField(Dynamic, imp, Field(Some(name), []), member)
       <==> match TargetOf(name)
            case None => true
            case Some(EnvInfo) => imp.envInfo.None?
            case Some(Standard(ext)) => imp.Members(ext) == []
  {
    var field := Field(Some(name), []);
    match TargetOf(name)
    case Some(Standard(ext)) =>
      if imp.Members(ext) == [] {
        assert [] + [member] == [member];
      } else {
        assert BindField(Static, imp, field, member).errors != BindField(Dynamic, imp, field, member).errors;
      }
    case _ =>
  }
}
