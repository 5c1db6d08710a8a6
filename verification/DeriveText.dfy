/**
 What `#[derive(RustSBI)]` binds, said of the text of the struct (library/macros/src/lib.rs): the names
 that its attributes and its fields have, and not the steps of the parser.
 */
module DeriveText {
  import opened Helpers
  import opened SbiSpec
  import opened DeriveBinding

  // ----- names -----

  /** The names and aliases of an extension. */
  function NamesOf(ext: Ext): set<string> {
    match ext
    case Fence => {"rfnc", "fence"}
    case Hsm => {"hsm"}
    case Ipi => {"spi", "ipi"}
    case Reset => {"srst", "reset"}
    case Timer => {"time", "timer"}
    case Pmu => {"pmu"}
    case Console => {"dbcn", "console"}
    case Susp => {"susp"}
    case Cppc => {"cppc"}
    case Nacl => {"nacl"}
    case Sta => {"sta"}
    case Mpxy => {"mpxy"}
    case Dbtr => {"dbtr"}
    case Fwft => {"fwft"}
    case Sse => {"sse"}
  }

  const ENV := {"info", "env_info"}

  predicate Names(name: string, ext: Ext) { name in NamesOf(ext) }

  /** The name of an extension, or of the `EnvInfo` member. */
  ghost predicate Bindable(name: string) {
    name in ENV || exists ext: Ext :: Names(name, ext)
  }

  ghost predicate Known(name: string) {
    name == "skip" || name == "vendor" || Bindable(name)
  }

  lemma TargetIs(name: string, ext: Ext)
    ensures TargetOf(name) == Some(Standard(ext)) <==> Names(name, ext)
  {
  }

  lemma TargetIsNamed(name: string)
    ensures TargetOf(name) == Some(EnvInfo) <==> name in ENV
    ensures TargetOf(name).Some? <==> Bindable(name)
  {
    forall ext: Ext ensures TargetOf(name) == Some(Standard(ext)) <==> Names(name, ext) { TargetIs(name, ext); }
    if TargetOf(name).Some? && TargetOf(name).value.Standard? { assert Names(name, TargetOf(name).value.ext); }
  }

  // ----- what is heard of a struct -----

  /** A name that is taken for a member: one of an attribute, or its own. */
  datatype Word = Word(name: string, member: nat, own: bool)

  /**
   A name of an attribute is taken when it is known; in dynamic mode `env_info` is not taken a second
   time, which `deaf` says of what came before.
   */
  ghost predicate Takes(deaf: bool, name: string) {
    Known(name) && !(deaf && name in ENV)
  }

  predicate HasEnv(heard: seq<Word>) {
    exists w <- heard :: w.name in ENV
  }

  predicate Deaf(mode: Mode, heard: seq<Word>) {
    mode.Dynamic? && HasEnv(heard)
  }

  /** The names of an attribute before the first that is not taken, after `before` was heard. */
  ghost function HeardAttr(mode: Mode, before: seq<Word>, names: seq<string>, member: nat): seq<Word>
    decreases |names|
  {
    if names == [] || !Takes(Deaf(mode, before), names[0]) then []
    else
      var w := Word(names[0], member, false);
      [w] + HeardAttr(mode, before + [w], names[1..], member)
  }

  ghost function HeardAttrs(mode: Mode, before: seq<Word>, attrs: seq<seq<string>>, member: nat): seq<Word>
    decreases |attrs|
  {
    if attrs == [] then []
    else
      var first := HeardAttr(mode, before, attrs[0], member);
      first + HeardAttrs(mode, before + first, attrs[1..], member)
  }

  /** The names that its attributes give a field or, where they give none, its own. */
  ghost function HeardField(mode: Mode, before: seq<Word>, field: Field, member: nat): seq<Word> {
    var heard := HeardAttrs(mode, before, field.attrs, member);
    if heard != [] then heard
    else if field.name.Some? && Bindable(field.name.value) then [Word(field.name.value, member, true)]
    else []
  }

  ghost function Heard(mode: Mode, fields: seq<Field>): seq<Word> {
    if fields == [] then []
    else
      var last := |fields| - 1;
      var before := Heard(mode, fields[..last]);
      before + HeardField(mode, before, fields[last], last)
  }

  // ----- what follows from it -----

  /** The members that are given a name of the extension, in the order of the text. */
  function Named(heard: seq<Word>, ext: Ext): seq<nat> {
    if heard == [] then []
    else
      var last := heard[|heard| - 1];
      Named(heard[..|heard| - 1], ext) + if Names(last.name, ext) then [last.member] else []
  }

  function LastOf(members: seq<nat>): seq<nat> {
    if members == [] then [] else [members[|members| - 1]]
  }

  /** The last member that an attribute calls the vendor. */
  function LastVendor(heard: seq<Word>): Option<nat> {
    if heard == [] then None
    else
      var last := heard[|heard| - 1];
      if last.name == "vendor" && !last.own then Some(last.member) else LastVendor(heard[..|heard| - 1])
  }

  function LastEnv(heard: seq<Word>): Option<nat> {
    if heard == [] then None
    else
      var last := heard[|heard| - 1];
      if last.name in ENV then Some(last.member) else LastEnv(heard[..|heard| - 1])
  }

  /** The binding is what the words say. */
  ghost predicate Says(mode: Mode, heard: seq<Word>, imp: Impl) {
    && (forall ext: Ext ::
          imp.Members(ext) == if mode.Dynamic? then Named(heard, ext) else LastOf(Named(heard, ext)))
    && imp.vendor == LastVendor(heard)
    && (imp.envInfo.Some? <==> HasEnv(heard))
    && (mode.Static? ==> imp.envInfo == LastEnv(heard))
  }

  lemma EnvHeard(heard: seq<Word>, w: Word)
    ensures HasEnv(heard + [w]) <==> HasEnv(heard) || w.name in ENV
    ensures (heard + [w])[..|heard|] == heard
  {
    assert w in heard + [w];
  }

  lemma NamedGrows(heard: seq<Word>, w: Word, ext: Ext)
    ensures Named(heard + [w], ext) == Named(heard, ext) + if Names(w.name, ext) then [w.member] else []
  {
    EnvHeard(heard, w);
  }

  lemma BindTarget(mode: Mode, imp: Impl, name: string, member: nat, ext: Ext)
    ensures Bind(mode, imp, name, member).0.Members(ext) ==
              if TargetOf(name) != Some(Standard(ext)) then imp.Members(ext)
              else if mode.Static? then [member]
              else imp.Members(ext) + [member]
  {
  }

  lemma BindMembers(mode: Mode, heard: seq<Word>, imp: Impl, w: Word, ext: Ext)
    requires imp.Members(ext) == if mode.Dynamic? then Named(heard, ext) else LastOf(Named(heard, ext))
    ensures Bind(mode, imp, w.name, w.member).0.Members(ext) ==
              if mode.Dynamic? then Named(heard + [w], ext) else LastOf(Named(heard + [w], ext))
  {
    TargetIs(w.name, ext);
    BindTarget(mode, imp, w.name, w.member, ext);
    NamedGrows(heard, w, ext);
  }

  lemma BindSays(mode: Mode, heard: seq<Word>, imp: Impl, name: string, member: nat, own: bool)
    requires Says(mode, heard, imp) && Bindable(name)
    ensures Says(mode, heard + [Word(name, member, own)], Bind(mode, imp, name, member).0)
    ensures Bind(mode, imp, name, member).1 <==> !(Deaf(mode, heard) && name in ENV)
  {
    var w := Word(name, member, own);
    TargetIsNamed(name);
    EnvHeard(heard, w);
    forall ext: Ext
      ensures Bind(mode, imp, name, member).0.Members(ext) ==
                if mode.Dynamic? then Named(heard + [w], ext) else LastOf(Named(heard + [w], ext))
    {
      BindMembers(mode, heard, imp, w, ext);
    }
  }

  lemma NoExtension(name: string, ext: Ext)
    requires name == "skip" || name == "vendor"
    ensures !Names(name, ext) && name !in ENV
  {
  }

  lemma SkipOrVendorSays(mode: Mode, heard: seq<Word>, imp: Impl, name: string, member: nat)
    requires Says(mode, heard, imp) && (name == "skip" || name == "vendor")
    ensures BindMeta(mode, imp, name, member).1
    ensures Says(mode, heard + [Word(name, member, false)], BindMeta(mode, imp, name, member).0)
  {
    var w := Word(name, member, false);
    EnvHeard(heard, w);
    var next := BindMeta(mode, imp, name, member).0;
    forall ext: Ext
      ensures next.Members(ext) == if mode.Dynamic? then Named(heard + [w], ext) else LastOf(Named(heard + [w], ext))
    {
      NoExtension(name, ext);
      NamedGrows(heard, w, ext);
    }
  }

  lemma UnknownSays(mode: Mode, heard: seq<Word>, imp: Impl, name: string, member: nat)
    requires Says(mode, heard, imp) && !Known(name)
    ensures BindMeta(mode, imp, name, member) == (imp, false)
  {
    TargetIsNamed(name);
  }

  lemma MetaSays(mode: Mode, heard: seq<Word>, imp: Impl, name: string, member: nat)
    requires Says(mode, heard, imp)
    ensures var (next, taken) := BindMeta(mode, imp, name, member);
            && (taken <==> Takes(Deaf(mode, heard), name))
            && Says(mode, if taken then heard + [Word(name, member, false)] else heard, next)
  {
    if name == "skip" || name == "vendor" {
      SkipOrVendorSays(mode, heard, imp, name, member);
    } else if Bindable(name) {
      BindSays(mode, heard, imp, name, member, false);
      if Deaf(mode, heard) && name in ENV { DeafSays(heard, imp, name, member); }
    } else {
      UnknownSays(mode, heard, imp, name, member);
    }
  }

  /** `env_info` again, in dynamic mode */
  lemma DeafSays(heard: seq<Word>, imp: Impl, name: string, member: nat)
    requires Says(Dynamic, heard, imp) && HasEnv(heard) && name in ENV
    ensures Says(Dynamic, heard, Bind(Dynamic, imp, name, member).0)
  {
    TargetIsNamed(name);
    forall ext: Ext ensures Bind(Dynamic, imp, name, member).0.Members(ext) == Named(heard, ext) {
      BindTarget(Dynamic, imp, name, member, ext);
    }
  }

  lemma {:induction false} AttrSays(mode: Mode, heard: seq<Word>, imp: Impl, names: seq<string>, member: nat)
    requires Says(mode, heard, imp)
    ensures var (next, taken) := BindAttr(mode, imp, names, member);
            && (taken <==> HeardAttr(mode, heard, names, member) != [])
            && Says(mode, heard + HeardAttr(mode, heard, names, member), next)
    decreases |names|
  {
    if names == [] {
      assert heard + [] == heard;
    } else {
      MetaSays(mode, heard, imp, names[0], member);
      var (next, taken) := BindMeta(mode, imp, names[0], member);
      if taken {
        var w := Word(names[0], member, false);
        AttrSays(mode, heard + [w], next, names[1..], member);
        HeardOn(mode, heard, names, member);
      } else {
        assert heard + [] == heard;
        SaysWhateverErrors(mode, heard, next, next.errors + 1);
      }
    }
  }

  lemma HeardOn(mode: Mode, heard: seq<Word>, names: seq<string>, member: nat)
    requires names != [] && Takes(Deaf(mode, heard), names[0])
    ensures var w := Word(names[0], member, false);
            && HeardAttr(mode, heard, names, member) != []
            && heard + HeardAttr(mode, heard, names, member)
               == heard + [w] + HeardAttr(mode, heard + [w], names[1..], member)
  {
    var w := Word(names[0], member, false);
    Regroup(heard, w, HeardAttr(mode, heard + [w], names[1..], member));
  }

  lemma Regroup(a: seq<Word>, w: Word, b: seq<Word>)
    ensures a + ([w] + b) == a + [w] + b
  {
  }

  lemma SaysWhateverErrors(mode: Mode, heard: seq<Word>, imp: Impl, errors: nat)
    requires Says(mode, heard, imp)
    ensures Says(mode, heard, imp.(errors := errors))
  {
    forall ext: Ext ensures imp.(errors := errors).Members(ext) == imp.Members(ext) {}
  }

  lemma {:induction false} AttrsSay(mode: Mode, heard: seq<Word>, imp: Impl, attrs: seq<seq<string>>, member: nat)
    requires Says(mode, heard, imp)
    ensures var (next, taken) := BindAttrs(mode, imp, attrs, member);
            && (taken <==> HeardAttrs(mode, heard, attrs, member) != [])
            && Says(mode, heard + HeardAttrs(mode, heard, attrs, member), next)
    decreases |attrs|
  {
    if attrs == [] {
      assert heard + [] == heard;
    } else {
      var first := HeardAttr(mode, heard, attrs[0], member);
      AttrSays(mode, heard, imp, attrs[0], member);
      AttrsSay(mode, heard + first, BindAttr(mode, imp, attrs[0], member).0, attrs[1..], member);
      RegroupAll(heard, first, HeardAttrs(mode, heard + first, attrs[1..], member));
    }
  }

  lemma RegroupAll(a: seq<Word>, b: seq<Word>, c: seq<Word>)
    ensures a + (b + c) == a + b + c
  {
  }

  lemma FieldSays(mode: Mode, heard: seq<Word>, imp: Impl, field: Field, member: nat)
    requires Says(mode, heard, imp)
    ensures Says(mode, heard + HeardField(mode, heard, field, member), BindField(mode, imp, field, member))
  {
    AttrsSay(mode, heard, imp, field.attrs, member);
    var (next, taken) := BindAttrs(mode, imp, field.attrs, member);
    if !taken {
      assert heard + [] == heard;
      if field.name.Some? {
        TargetIsNamed(field.name.value);
        if Bindable(field.name.value) { BindSays(mode, heard, next, field.name.value, member, true); }
      }
    }
  }

  /**
   The binding of every struct, with or without compile errors, is what its text says: in dynamic mode an
   extension has the members that are given its names, in the order of the text, in static mode the last
   of them; the vendor is the last member that an attribute calls so.
   */
  lemma {:induction false} BindingIsText(mode: Mode, fields: seq<Field>)
    ensures Says(mode, Heard(mode, fields), BindFields(mode, fields))
  {
    if fields != [] {
      var last := |fields| - 1;
      BindingIsText(mode, fields[..last]);
      FieldSays(mode, Heard(mode, fields[..last]), BindFields(mode, fields[..last]), fields[last], last);
    }
  }

  // ----- which members an extension has -----

  lemma {:induction false} NamedIff(heard: seq<Word>, ext: Ext, m: nat)
    ensures m in Named(heard, ext) <==> exists w <- heard :: w.member == m && Names(w.name, ext)
  {
    if heard != [] {
      var last := |heard| - 1;
      NamedIff(heard[..last], ext, m);
      assert heard == heard[..last] + [heard[last]];
    }
  }

  /** The names of the attribute up to and including position `n` are all taken. */
  ghost predicate Reached(mode: Mode, before: seq<Word>, names: seq<string>, n: nat)
    requires n < |names|
  {
    forall k | 0 <= k <= n ::
      && Known(names[k])
      && !(mode.Dynamic? && names[k] in ENV && (HasEnv(before) || exists l | 0 <= l < k :: names[l] in ENV))
  }

  lemma ReachedStep(mode: Mode, before: seq<Word>, names: seq<string>, n: nat, w: Word)
    requires n + 1 < |names| && w.name == names[0]
    ensures Reached(mode, before, names, n + 1)
       <==> Takes(Deaf(mode, before), names[0]) && Reached(mode, before + [w], names[1..], n)
  {
    EnvHeard(before, w);
    var rest := names[1..];
    forall k | 0 <= k <= n ensures rest[k] == names[k + 1] {}
    if Takes(Deaf(mode, before), names[0]) && Reached(mode, before + [w], rest, n) {
      forall k | 0 <= k <= n + 1
        ensures Known(names[k])
        ensures !(mode.Dynamic? && names[k] in ENV && (HasEnv(before) || exists l | 0 <= l < k :: names[l] in ENV))
      {
        if k > 0 {
          assert rest[k - 1] == names[k];
          if l :| 0 <= l < k && names[l] in ENV {
            if l > 0 { assert rest[l - 1] in ENV; }
          }
        }
      }
    }
    if Reached(mode, before, names, n + 1) {
      forall k | 0 <= k <= n
        ensures Known(rest[k])
        ensures !(mode.Dynamic? && rest[k] in ENV && (HasEnv(before + [w]) || exists l | 0 <= l < k :: rest[l] in ENV))
      {
        assert Known(names[k + 1]);
        if l :| 0 <= l < k && rest[l] in ENV { assert names[l + 1] in ENV; }
        if w.name in ENV { assert names[0] in ENV; }
      }
    }
  }

  lemma {:induction false} HeardHasPlace(mode: Mode, before: seq<Word>, names: seq<string>, member: nat, w: Word)
    returns (n: nat)
    requires w in HeardAttr(mode, before, names, member)
    ensures n < |names| && w == Word(names[n], member, false) && Reached(mode, before, names, n)
    decreases |names|
  {
    var first := Word(names[0], member, false);
    if w == first {
      n := 0;
    } else {
      var k := HeardHasPlace(mode, before + [first], names[1..], member, w);
      n := k + 1;
      ReachedStep(mode, before, names, k, first);
    }
  }

  lemma {:induction false} PlaceIsHeard(mode: Mode, before: seq<Word>, names: seq<string>, member: nat, n: nat)
    requires n < |names| && Reached(mode, before, names, n)
    ensures Word(names[n], member, false) in HeardAttr(mode, before, names, member)
    decreases |names|
  {
    var first := Word(names[0], member, false);
    assert Takes(Deaf(mode, before), names[0]);
    if n > 0 {
      ReachedStep(mode, before, names, n - 1, first);
      PlaceIsHeard(mode, before + [first], names[1..], member, n - 1);
    }
  }

  /** What was heard before attribute `i` of a field. */
  ghost function Before(mode: Mode, before: seq<Word>, attrs: seq<seq<string>>, member: nat, i: nat): seq<Word>
    requires i <= |attrs|
  {
    before + HeardAttrs(mode, before, attrs[..i], member)
  }

  lemma {:induction false} HeardAttrsLast(mode: Mode, before: seq<Word>, attrs: seq<seq<string>>, member: nat)
    requires attrs != []
    ensures var last := |attrs| - 1;
            HeardAttrs(mode, before, attrs, member)
            == HeardAttrs(mode, before, attrs[..last], member)
               + HeardAttr(mode, Before(mode, before, attrs, member, last), attrs[last], member)
    decreases |attrs|
  {
    var last := |attrs| - 1;
    var first := HeardAttr(mode, before, attrs[0], member);
    if last == 0 {
      assert attrs[..0] == [] && attrs[1..] == [] && before + [] == before;
    } else {
      HeardAttrsLast(mode, before + first, attrs[1..], member);
      assert attrs[1..][..last - 1] == attrs[..last][1..];
      var middle := HeardAttrs(mode, before + first, attrs[..last][1..], member);
      assert HeardAttrs(mode, before, attrs[..last], member) == first + middle;
      RegroupAll(before, first, middle);
      RegroupAll(first, middle, HeardAttr(mode, before + first + middle, attrs[last], member));
    }
  }

  /** Attribute `i` of the field has the word taken. */
  ghost predicate InAttr(mode: Mode, before: seq<Word>, attrs: seq<seq<string>>, member: nat, w: Word, i: nat)
    requires i < |attrs|
  {
    w in HeardAttr(mode, Before(mode, before, attrs, member, i), attrs[i], member)
  }

  lemma InPrefix(mode: Mode, before: seq<Word>, attrs: seq<seq<string>>, member: nat, w: Word, n: nat, i: nat)
    requires i < n <= |attrs|
    ensures InAttr(mode, before, attrs[..n], member, w, i) <==> InAttr(mode, before, attrs, member, w, i)
  {
    assert attrs[..n][..i] == attrs[..i];
  }

  lemma {:induction false} HeardInSome(mode: Mode, before: seq<Word>, attrs: seq<seq<string>>, member: nat, w: Word)
    ensures w in HeardAttrs(mode, before, attrs, member)
       <==> exists i | 0 <= i < |attrs| :: InAttr(mode, before, attrs, member, w, i)
    decreases |attrs|
  {
    if attrs != [] {
      var last := |attrs| - 1;
      HeardAttrsLast(mode, before, attrs, member);
      HeardInSome(mode, before, attrs[..last], member, w);
      forall i: nat | i < last
        ensures InAttr(mode, before, attrs[..last], member, w, i) <==> InAttr(mode, before, attrs, member, w, i)
      {
        InPrefix(mode, before, attrs, member, w, last, i);
      }
      assert w in HeardAttrs(mode, before, attrs, member) <==>
        w in HeardAttrs(mode, before, attrs[..last], member) || InAttr(mode, before, attrs, member, w, last);
    }
  }

  /** Name `n` of attribute `i` of the field is taken. */
  ghost predicate Taken(mode: Mode, before: seq<Word>, field: Field, member: nat, i: nat, n: nat)
    requires i < |field.attrs| && n < |field.attrs[i]|
  {
    Reached(mode, Before(mode, before, field.attrs, member, i), field.attrs[i], n)
  }

  /**
   The field stands for the extension: one of the extension's names is taken in an attribute, or none is
   taken in any and the field's own name is one of them.
   */
  ghost predicate StandsFor(mode: Mode, before: seq<Word>, field: Field, member: nat, ext: Ext) {
    || (exists i, n | 0 <= i < |field.attrs| && 0 <= n < |field.attrs[i]| ::
          Names(field.attrs[i][n], ext) && Taken(mode, before, field, member, i, n))
    || (&& field.name.Some? && Names(field.name.value, ext)
        && forall i | 0 <= i < |field.attrs| && field.attrs[i] != [] :: !Taken(mode, before, field, member, i, 0))
  }

  lemma AttrsSilent(mode: Mode, before: seq<Word>, field: Field, member: nat)
    ensures HeardAttrs(mode, before, field.attrs, member) == []
       <==> forall i | 0 <= i < |field.attrs| && field.attrs[i] != [] :: !Taken(mode, before, field, member, i, 0)
  {
    var heard := HeardAttrs(mode, before, field.attrs, member);
    if heard != [] {
      HeardInSome(mode, before, field.attrs, member, heard[0]);
      var i :| 0 <= i < |field.attrs| && InAttr(mode, before, field.attrs, member, heard[0], i);
      var n := HeardHasPlace(mode, Before(mode, before, field.attrs, member, i), field.attrs[i], member, heard[0]);
      assert Taken(mode, before, field, member, i, n);
      assert Taken(mode, before, field, member, i, 0);
    }
    if i :| 0 <= i < |field.attrs| && field.attrs[i] != [] && Taken(mode, before, field, member, i, 0) {
      PlaceIsHeard(mode, Before(mode, before, field.attrs, member, i), field.attrs[i], member, 0);
      assert InAttr(mode, before, field.attrs, member, Word(field.attrs[i][0], member, false), i);
      HeardInSome(mode, before, field.attrs, member, Word(field.attrs[i][0], member, false));
    }
  }

  lemma FieldHeardIff(mode: Mode, before: seq<Word>, field: Field, member: nat, ext: Ext)
    ensures (exists w <- HeardField(mode, before, field, member) :: Names(w.name, ext))
       <==> StandsFor(mode, before, field, member, ext)
  {
    AttrsSilent(mode, before, field, member);
    var attrs := field.attrs;
    var heard := HeardAttrs(mode, before, attrs, member);
    if w :| w in heard && Names(w.name, ext) {
      HeardInSome(mode, before, attrs, member, w);
      var i :| 0 <= i < |attrs| && InAttr(mode, before, attrs, member, w, i);
      var n := HeardHasPlace(mode, Before(mode, before, attrs, member, i), attrs[i], member, w);
      assert Names(attrs[i][n], ext) && Taken(mode, before, field, member, i, n);
    }
    if i, n :| 0 <= i < |attrs| && 0 <= n < |attrs[i]| && Names(attrs[i][n], ext) && Taken(mode, before, field, member, i, n) {
      PlaceIsHeard(mode, Before(mode, before, attrs, member, i), attrs[i], member, n);
      assert InAttr(mode, before, attrs, member, Word(attrs[i][n], member, false), i);
      HeardInSome(mode, before, attrs, member, Word(attrs[i][n], member, false));
      assert Word(attrs[i][n], member, false) in heard;
    }
    if heard == [] && field.name.Some? && Names(field.name.value, ext) {
      assert Word(field.name.value, member, true) in HeardField(mode, before, field, member);
    }
  }

  lemma {:induction false} AttrMembers(mode: Mode, before: seq<Word>, names: seq<string>, member: nat, w: Word)
    requires w in HeardAttr(mode, before, names, member)
    ensures w.member == member
  {
    var n := HeardHasPlace(mode, before, names, member, w);
  }

  lemma FieldMembers(mode: Mode, before: seq<Word>, field: Field, member: nat, w: Word)
    requires w in HeardField(mode, before, field, member)
    ensures w.member == member
  {
    if w in HeardAttrs(mode, before, field.attrs, member) {
      HeardInSome(mode, before, field.attrs, member, w);
      var i :| 0 <= i < |field.attrs| && InAttr(mode, before, field.attrs, member, w, i);
      AttrMembers(mode, Before(mode, before, field.attrs, member, i), field.attrs[i], member, w);
    }
  }

  /** What is heard of field `m`, when those before it have been heard. */
  ghost function HeardOf(mode: Mode, fields: seq<Field>, m: nat): seq<Word>
    requires m < |fields|
  {
    HeardField(mode, Heard(mode, fields[..m]), fields[m], m)
  }

  lemma {:induction false} HeardByField(mode: Mode, fields: seq<Field>, w: Word)
    ensures w in Heard(mode, fields) <==> w.member < |fields| && w in HeardOf(mode, fields, w.member)
  {
    if fields != [] {
      var last := |fields| - 1;
      HeardByField(mode, fields[..last], w);
      if w.member < last {
        assert fields[..last][..w.member] == fields[..w.member];
      }
      if w in HeardOf(mode, fields, last) { FieldMembers(mode, Heard(mode, fields[..last]), fields[last], last, w); }
      assert Heard(mode, fields) == Heard(mode, fields[..last]) + HeardOf(mode, fields, last);
    }
  }

  /** Field `m` of the struct stands for the extension. */
  ghost predicate Stands(mode: Mode, fields: seq<Field>, m: nat, ext: Ext)
    requires m < |fields|
  {
    StandsFor(mode, Heard(mode, fields[..m]), fields[m], m, ext)
  }

  lemma NamedIffStands(mode: Mode, fields: seq<Field>, ext: Ext, m: nat)
    ensures m in Named(Heard(mode, fields), ext) <==> m < |fields| && Stands(mode, fields, m, ext)
  {
    NamedIff(Heard(mode, fields), ext, m);
    if m < |fields| { FieldHeardIff(mode, Heard(mode, fields[..m]), fields[m], m, ext); }
    if w :| w in Heard(mode, fields) && w.member == m && Names(w.name, ext) {
      HeardByField(mode, fields, w);
    }
    if m < |fields| {
      if w :| w in HeardOf(mode, fields, m) && Names(w.name, ext) {
        FieldMembers(mode, Heard(mode, fields[..m]), fields[m], m, w);
        HeardByField(mode, fields, w);
      }
    }
  }

  ghost predicate Ascending(members: seq<nat>) {
    forall i, j | 0 <= i < j < |members| :: members[i] <= members[j]
  }

  lemma {:induction false} NamedAscends(heard: seq<Word>, ext: Ext, bound: nat)
    requires forall i, j | 0 <= i < j < |heard| :: heard[i].member <= heard[j].member
    requires forall w <- heard :: w.member <= bound
    ensures Ascending(Named(heard, ext)) && forall m <- Named(heard, ext) :: m <= bound
  {
    if heard != [] {
      var last := heard[|heard| - 1];
      assert last in heard;
      forall w | w in heard[..|heard| - 1] ensures w.member <= last.member {
        var i :| 0 <= i < |heard| - 1 && heard[i] == w;
      }
      NamedAscends(heard[..|heard| - 1], ext, last.member);
      var earlier := Named(heard[..|heard| - 1], ext);
      forall i, j | 0 <= i < j < |Named(heard, ext)| ensures Named(heard, ext)[i] <= Named(heard, ext)[j] {
        if j == |earlier| { assert earlier[i] in earlier; }
      }
    }
  }

  lemma {:induction false} HeardAscends(mode: Mode, fields: seq<Field>)
    ensures forall i, j | 0 <= i < j < |Heard(mode, fields)| :: Heard(mode, fields)[i].member <= Heard(mode, fields)[j].member
    ensures forall w <- Heard(mode, fields) :: w.member < |fields|
  {
    if fields != [] {
      var last := |fields| - 1;
      var before, here := Heard(mode, fields[..last]), HeardOf(mode, fields, last);
      HeardAscends(mode, fields[..last]);
      forall w | w in here ensures w.member == last {
        FieldMembers(mode, Heard(mode, fields[..last]), fields[last], last, w);
      }
      forall i, j | 0 <= i < j < |before + here| ensures (before + here)[i].member <= (before + here)[j].member {
        if j >= |before| {
          assert (before + here)[j] in here;
          if i < |before| { assert before[i] in before; } else { assert (before + here)[i] in here; }
        }
      }
      assert Heard(mode, fields) == before + here;
    }
  }

  /**
   Exactly which members an extension has, in every struct: in dynamic mode the fields that stand for it,
   in field order; in static mode the last of them alone.
   */
  lemma MembersStand(mode: Mode, fields: seq<Field>, ext: Ext, m: nat)
    ensures var members := BindFields(mode, fields).Members(ext);
            && Ascending(members)
            && (m in members <==>
                  && m < |fields| && Stands(mode, fields, m, ext)
                  && (mode.Static? ==> forall k | m < k < |fields| :: !Stands(mode, fields, k, ext)))
  {
    BindingIsText(mode, fields);
    var heard := Heard(mode, fields);
    HeardAscends(mode, fields);
    NamedAscends(heard, ext, |fields|);
    var named := Named(heard, ext);
    forall k: nat ensures k in named <==> k < |fields| && Stands(mode, fields, k, ext) {
      NamedIffStands(mode, fields, ext, k);
    }
    if mode.Static? { LastIsGreatest(named, m); }
  }

  lemma LastIsGreatest(members: seq<nat>, m: nat)
    requires Ascending(members)
    ensures m in LastOf(members) <==> m in members && forall k <- members :: k <= m
  {
    if members != [] {
      var last := members[|members| - 1];
      assert last in members;
      forall k | k in members ensures k <= last {
        var i :| 0 <= i < |members| && members[i] == k;
      }
    }
  }

  // ----- static mode, and structs without compile errors -----

  /**
   The field stands for the extension by its text alone: one of the extension's names comes before the
   first unknown name of an attribute, or the field has that name and every attribute begins with an
   unknown name, or with none.
   */
  ghost predicate Gives(field: Field, ext: Ext) {
    || (exists i, n | 0 <= i < |field.attrs| && 0 <= n < |field.attrs[i]| ::
          Names(field.attrs[i][n], ext) && KnownUpTo(field.attrs[i], n))
    || (&& field.name.Some? && Names(field.name.value, ext)
        && forall i | 0 <= i < |field.attrs| && field.attrs[i] != [] :: !Known(field.attrs[i][0]))
  }

  ghost predicate KnownUpTo(names: seq<string>, n: nat)
    requires n < |names|
  {
    forall k | 0 <= k <= n :: Known(names[k])
  }

  lemma StaticStands(before: seq<Word>, field: Field, member: nat, ext: Ext)
    ensures StandsFor(Static, before, field, member, ext) <==> Gives(field, ext)
  {
    forall i: nat, n: nat | i < |field.attrs| && n < |field.attrs[i]|
      ensures Taken(Static, before, field, member, i, n) <==> KnownUpTo(field.attrs[i], n)
    {
    }
  }

  /**
   In static mode an extension has the last field that gives it, by the text of that field alone. For a
   struct that static mode accepts, dynamic mode binds the same.
   */
  lemma StaticMemberIff(fields: seq<Field>, ext: Ext, m: nat)
    ensures var imp := BindFields(Static, fields);
            && (m in imp.Members(ext) <==>
                  m < |fields| && Gives(fields[m], ext) && forall k | m < k < |fields| :: !Gives(fields[k], ext))
            && (imp.errors == 0 ==> BindFields(Dynamic, fields).Members(ext) == imp.Members(ext))
  {
    MembersStand(Static, fields, ext, m);
    forall k: nat | k < |fields| ensures Stands(Static, fields, k, ext) <==> Gives(fields[k], ext) {
      StaticStands(Heard(Static, fields[..k]), fields[k], k, ext);
    }
    if BindFields(Static, fields).errors == 0 { ModesBindAlike(fields); }
  }

  /** A field with `skip`, and no name of the extension in its attributes, is no member of it in either mode. */
  lemma SkippedIsUnbound(mode: Mode, fields: seq<Field>, ext: Ext, m: nat, i: nat)
    requires m < |fields| && i < |fields[m].attrs| && fields[m].attrs[i] != [] && fields[m].attrs[i][0] == "skip"
    requires forall a, n | 0 <= a < |fields[m].attrs| && 0 <= n < |fields[m].attrs[a]| :: !Names(fields[m].attrs[a][n], ext)
    ensures m !in BindFields(mode, fields).Members(ext)
  {
    MembersStand(mode, fields, ext, m);
    assert Taken(mode, Heard(mode, fields[..m]), fields[m], m, i, 0);
  }

  // ----- which structs static mode accepts -----

  /** Both words name one and the same thing. */
  ghost predicate SameThing(v: Word, w: Word) {
    || (v.name in ENV && w.name in ENV)
    || (v.name == "vendor" == w.name && !v.own && !w.own)
    || exists ext: Ext :: Names(v.name, ext) && Names(w.name, ext)
  }

  ghost predicate AllApart(heard: seq<Word>) {
    forall i, j | 0 <= i < j < |heard| :: !SameThing(heard[i], heard[j])
  }

  /** Every name in the attributes is known. */
  ghost predicate Understood(attrs: seq<seq<string>>) {
    forall i, n | 0 <= i < |attrs| && 0 <= n < |attrs[i]| :: Known(attrs[i][n])
  }

  /** The binding so far is free of errors exactly when all was understood and nothing was named twice. */
  ghost predicate Counts(heard: seq<Word>, imp: Impl, understood: bool) {
    Says(Static, heard, imp) && (imp.errors == 0 <==> understood && AllApart(heard))
  }

  lemma ApartGrows(heard: seq<Word>, w: Word)
    ensures AllApart(heard + [w]) <==> AllApart(heard) && forall v <- heard :: !SameThing(v, w)
  {
    var more := heard + [w];
    if AllApart(more) {
      forall i, j | 0 <= i < j < |heard| ensures !SameThing(heard[i], heard[j]) {
        assert more[i] == heard[i] && more[j] == heard[j];
      }
      forall v | v in heard ensures !SameThing(v, w) {
        var i :| 0 <= i < |heard| && heard[i] == v;
        assert more[i] == v && more[|heard|] == w;
      }
    }
  }

  lemma VendorHeard(heard: seq<Word>)
    ensures LastVendor(heard).Some? <==> exists v <- heard :: v.name == "vendor" && !v.own
  {
    if heard != [] {
      VendorHeard(heard[..|heard| - 1]);
      assert heard == heard[..|heard| - 1] + [heard[|heard| - 1]];
    }
  }

  /** A vendor or an extension or an `env_info` is counted as an error when it was named before. */
  lemma BindCounts(heard: seq<Word>, imp: Impl, name: string, member: nat, own: bool)
    requires Says(Static, heard, imp) && Bindable(name)
    ensures var errors := Bind(Static, imp, name, member).0.errors;
            errors >= imp.errors
            && (errors == imp.errors <==> forall v <- heard :: !SameThing(v, Word(name, member, own)))
  {
    var w := Word(name, member, own);
    TargetIsNamed(name);
    match TargetOf(name).value
    case EnvInfo => EnvApart(heard, w);
    case Standard(ext) =>
      ExtApart(heard, w, ext);
      assert imp.Members(ext) == LastOf(Named(heard, ext));
  }

  lemma EnvApart(heard: seq<Word>, w: Word)
    requires w.name in ENV
    ensures HasEnv(heard) <==> exists v <- heard :: SameThing(v, w)
  {
    forall v: Word ensures SameThing(v, w) <==> v.name in ENV {
      forall ext: Ext ensures !Names(w.name, ext) { TargetIs(w.name, ext); }
    }
  }

  lemma ExtApart(heard: seq<Word>, w: Word, ext: Ext)
    requires Names(w.name, ext)
    ensures Named(heard, ext) != [] <==> exists v <- heard :: SameThing(v, w)
  {
    TargetIs(w.name, ext);
    forall v: Word ensures SameThing(v, w) <==> Names(v.name, ext) {
      forall e: Ext ensures Names(w.name, e) <==> e == ext { TargetIs(w.name, e); }
    }
    if Named(heard, ext) != [] { NamedIff(heard, ext, Named(heard, ext)[0]); }
    if v :| v in heard && Names(v.name, ext) { NamedIff(heard, ext, v.member); }
  }

  lemma SkipOrVendorApart(heard: seq<Word>, w: Word)
    requires (w.name == "skip" || w.name == "vendor") && !w.own
    ensures (exists v <- heard :: SameThing(v, w)) <==> w.name == "vendor" && LastVendor(heard).Some?
  {
    VendorHeard(heard);
    forall v: Word ensures SameThing(v, w) <==> v.name == "vendor" == w.name && !v.own {
      forall ext: Ext ensures !Names(w.name, ext) { NoExtension(w.name, ext); }
    }
  }

  lemma MetaCounts(heard: seq<Word>, imp: Impl, name: string, member: nat, understood: bool)
    requires Counts(heard, imp, understood) && Known(name)
    ensures var (next, taken) := BindMeta(Static, imp, name, member);
            taken && Counts(heard + [Word(name, member, false)], next, understood)
  {
    var w := Word(name, member, false);
    MetaSays(Static, heard, imp, name, member);
    ApartGrows(heard, w);
    if name == "skip" || name == "vendor" {
      SkipOrVendorApart(heard, w);
    } else {
      BindCounts(heard, imp, name, member, false);
    }
  }

  lemma {:induction false} AttrCounts(heard: seq<Word>, imp: Impl, names: seq<string>, member: nat, understood: bool)
    requires Counts(heard, imp, understood)
    ensures Counts(heard + HeardAttr(Static, heard, names, member), BindAttr(Static, imp, names, member).0,
                   understood && forall name <- names :: Known(name))
    decreases |names|
  {
    if names == [] {
      assert heard + [] == heard;
    } else {
      assert names == [names[0]] + names[1..];
      if Known(names[0]) {
        var w := Word(names[0], member, false);
        MetaCounts(heard, imp, names[0], member, understood);
        AttrCounts(heard + [w], BindMeta(Static, imp, names[0], member).0, names[1..], member, understood);
        HeardOn(Static, heard, names, member);
      } else {
        UnknownSays(Static, heard, imp, names[0], member);
        SaysWhateverErrors(Static, heard, imp, imp.errors + 1);
        assert heard + [] == heard;
      }
    }
  }

  lemma {:induction false} AttrsCount(heard: seq<Word>, imp: Impl, attrs: seq<seq<string>>, member: nat, understood: bool)
    requires Counts(heard, imp, understood)
    ensures Counts(heard + HeardAttrs(Static, heard, attrs, member), BindAttrs(Static, imp, attrs, member).0,
                   understood && Understood(attrs))
    decreases |attrs|
  {
    if attrs == [] {
      assert heard + [] == heard;
    } else {
      var first := HeardAttr(Static, heard, attrs[0], member);
      var here := forall name <- attrs[0] :: Known(name);
      AttrCounts(heard, imp, attrs[0], member, understood);
      AttrsCount(heard + first, BindAttr(Static, imp, attrs[0], member).0, attrs[1..], member, understood && here);
      RegroupAll(heard, first, HeardAttrs(Static, heard + first, attrs[1..], member));
      UnderstoodStep(attrs);
    }
  }

  lemma UnderstoodStep(attrs: seq<seq<string>>)
    requires attrs != []
    ensures Understood(attrs) <==> (forall name <- attrs[0] :: Known(name)) && Understood(attrs[1..])
  {
    if Understood(attrs) {
      forall name | name in attrs[0] ensures Known(name) {
        var n :| 0 <= n < |attrs[0]| && attrs[0][n] == name;
        assert Known(attrs[0][n]);
      }
      forall i, n | 0 <= i < |attrs[1..]| && 0 <= n < |attrs[1..][i]| ensures Known(attrs[1..][i][n]) {
        assert Known(attrs[i + 1][n]);
      }
    }
    if (forall name <- attrs[0] :: Known(name)) && Understood(attrs[1..]) {
      forall i, n | 0 <= i < |attrs| && 0 <= n < |attrs[i]| ensures Known(attrs[i][n]) {
        if i > 0 { assert Known(attrs[1..][i - 1][n]); }
      }
    }
  }

  lemma FieldCounts(heard: seq<Word>, imp: Impl, field: Field, member: nat, understood: bool)
    requires Counts(heard, imp, understood)
    ensures Counts(heard + HeardField(Static, heard, field, member), BindField(Static, imp, field, member),
                   understood && Understood(field.attrs))
  {
    FieldSays(Static, heard, imp, field, member);
    AttrsSay(Static, heard, imp, field.attrs, member);
    AttrsCount(heard, imp, field.attrs, member, understood);
    var (next, taken) := BindAttrs(Static, imp, field.attrs, member);
    if !taken {
      assert heard + [] == heard;
      if field.name.Some? {
        TargetIsNamed(field.name.value);
        if Bindable(field.name.value) {
          var w := Word(field.name.value, member, true);
          BindCounts(heard, next, w.name, member, true);
          ApartGrows(heard, w);
        }
      }
    }
  }

  ghost predicate AllUnderstood(fields: seq<Field>) {
    forall field <- fields :: Understood(field.attrs)
  }

  lemma AllUnderstoodStep(fields: seq<Field>, last: Field)
    ensures AllUnderstood(fields + [last]) <==> AllUnderstood(fields) && Understood(last.attrs)
  {
    assert last in fields + [last];
  }

  lemma {:induction false} FieldsCount(fields: seq<Field>)
    ensures Counts(Heard(Static, fields), BindFields(Static, fields), AllUnderstood(fields))
  {
    if fields != [] {
      var last := |fields| - 1;
      var before, field := fields[..last], fields[last];
      FieldsCount(before);
      FieldCounts(Heard(Static, before), BindFields(Static, before), field, last, AllUnderstood(before));
      AllUnderstoodStep(before, field);
      assert fields == before + [field];
    }
  }

  /**
   Static mode accepts a struct exactly when every name in its attributes is known and no extension,
   vendor or `env_info` is named twice, by attributes or by fields that go by their own names.
   */
  lemma StaticAcceptsIff(fields: seq<Field>)
    ensures BindFields(Static, fields).errors == 0 <==> AllUnderstood(fields) && AllApart(Heard(Static, fields))
  {
    FieldsCount(fields);
  }
}
