/**
 Printing the path of a node (`absolute_path` in firmware/prototyper/src/devicetree.rs) and resolving a
 path to an enabled node (`find_enabled_node` in firmware/runtime/src/device_tree.rs).
 */
module DevicePaths {
  import opened Helpers
  import opened DeviceTree

  // ----- printing -----

  predicate Skipped(segment: string) {
    segment == "/" || segment == ""
  }

  function Rendered(segments: seq<string>): string {
    if segments == [] then ""
    else
      var last := segments[|segments| - 1];
      Rendered(segments[..|segments| - 1]) + if Skipped(last) then "" else "/" + last
  }

  function AbsolutePath(segments: seq<string>): string {
    var path := Rendered(segments);
    if path == "" then "/" else path
  }

  /** `absolute_path` */
  method PrintPath(segments: seq<string>) returns (path: string)
    ensures path == AbsolutePath(segments)
  {
    path := "";
    for n := 0 to |segments|
      invariant path == Rendered(segments[..n])
    {
      assert segments[..n + 1][..n] == segments[..n];
      if !(segments[n] == "/" || segments[n] == "") {
        path := path + "/";
        path := path + segments[n];
      }
    }
    assert segments[..|segments|] == segments;
    if path == "" { path := "/"; }
  }

  // ----- resolving -----

  /** `name.split(separator)`: the pieces between separators, at least one. */
  function Split(s: string, separator: char): (pieces: seq<string>)
    ensures |pieces| >= 1
  {
    if s == "" then [""]
    else
      var rest := Split(s[1..], separator);
      if s[0] == separator then [""] + rest else [[s[0]] + rest[0]] + rest[1..]
  }

  /** A path segment names a child by its full name, or by its base name when it has no unit address. */
  predicate Matches(child: string, segment: string) {
    child == segment || ('@' !in segment && Split(child, '@')[0] == segment)
  }

  /** The first piece is what comes before the first separator. */
  lemma {:induction false} FirstPiece(s: string, separator: char)
    ensures var first := Split(s, separator)[0];
            separator !in first && (first == s || first + [separator] <= s)
  {
    if s != "" && s[0] != separator {
      FirstPiece(s[1..], separator);
      assert s == [s[0]] + s[1..];
    }
  }

  lemma PrefixUnique(s: string, separator: char, a: string, b: string)
    requires separator !in a && separator !in b
    requires (a == s || a + [separator] <= s) && (b == s || b + [separator] <= s)
    ensures a == b
  {
    forall j | 0 <= j < |a| ensures s[j] != separator { assert a[j] in a && a[j] == s[j]; }
    forall j | 0 <= j < |b| ensures s[j] != separator { assert b[j] in b && b[j] == s[j]; }
    if a != s { assert (a + [separator])[|a|] == s[|a|]; }
    if b != s { assert (b + [separator])[|b|] == s[|b|]; }
    assert a == s[..|a|] && b == s[..|b|];
  }

  /**
   Exactly which segments a child answers to: its name, and what comes before the first `@` of its name.
   */
  lemma MatchesIff(child: string, segment: string)
    ensures Matches(child, segment) <==> child == segment || ('@' !in segment && segment + "@" <= child)
  {
    var first := Split(child, '@')[0];
    FirstPiece(child, '@');
    if '@' !in segment && (child == segment || segment + "@" <= child) {
      PrefixUnique(child, '@', first, segment);
    }
  }

  /** `children().find(..)` */
  function FirstMatch(children: seq<Node>, segment: string): (r: Option<nat>)
    ensures r.Some? ==> r.value < |children| && Matches(children[r.value].name, segment)
    ensures forall j | 0 <= j < (if r.Some? then r.value else |children|) :: !Matches(children[j].name, segment)
  {
    if children == [] then None
    else
      var last := |children| - 1;
      var earlier := FirstMatch(children[..last], segment);
      if earlier.Some? then earlier
      else if Matches(children[last].name, segment) then Some(last)
      else None
  }

  function Descend(node: Node, at: Address, segments: seq<string>): Option<Address>
    decreases |segments|
  {
    if segments == [] then Some(at)
    else if segments[0] == "" then None
    else
      var child := FirstMatch(node.children, segments[0]);
      if child.None? || !Enabled(node.children[child.value]) then None
      else Descend(node.children[child.value], at + [child.value], segments[1..])
  }

  function TrimNuls(s: string): string {
    if s != "" && s[|s| - 1] == '\0' then TrimNuls(s[..|s| - 1]) else s
  }

  /** What an alias stands for: a property of the enabled `/aliases` node. */
  function AliasTarget(root: Node, name: string): Option<string> {
    var aliases := ChildNamed(root.children, "aliases");
    if aliases.None? || !Enabled(aliases.value) || name !in aliases.value.properties then None
    else Some(TrimNuls(aliases.value.properties[name]))
  }

  function ChildNamed(children: seq<Node>, name: string): Option<Node> {
    if children == [] then None
    else if children[0].name == name then Some(children[0])
    else ChildNamed(children[1..], name)
  }

  predicate Absolute(path: string) {
    path != "" && path[0] == '/'
  }

  /** The node that an absolute path leads to. */
  function Resolve(root: Node, path: string): Option<Address> {
    if !Enabled(root) then None
    else if path == "/" then Some([])
    else if !Absolute(path) then None
    else Descend(root, [], Split(path[1..], '/'))
  }

  function FindEnabled(root: Node, path: string): Option<Address> {
    if Absolute(path) then Resolve(root, path)
    else
      var target := AliasTarget(root, path);
      if target.None? then None else Resolve(root, target.value)
  }

  /** `find_enabled_node`: the node it finds, and that every node on the way is enabled. */
  method FindEnabledNode(root: Node, path: string) returns (found: Option<Address>)
    ensures found == FindEnabled(root, path)
    ensures found.Some? ==> Reachable(root, found.value)
  {
    var resolved := path;
    if !(path != "" && path[0] == '/') {
      var target := AliasTarget(root, path);
      if target.None? { return None; }
      resolved := target.value;
    }
    FoundIsReachable(root, path);
    if !Enabled(root) { return None; }
    if resolved == "/" { return Some([]); }
    if resolved == "" || resolved[0] != '/' { return None; }
    var names := Split(resolved[1..], '/');
    var current, at := root, [];
    for n := 0 to |names|
      invariant Descend(current, at, names[n..]) == Descend(root, [], names)
    {
      if names[n] == "" { return None; }
      var child := FirstMatch(current.children, names[n]);
      if child.None? { return None; }
      current, at := current.children[child.value], at + [child.value];
      if !Enabled(current) { return None; }
    }
    found := Some(at);
  }

  // ----- what is found -----

  /** A descent ends below where it started, at a node reachable from there. */
  lemma {:induction false} DescentIsReachable(node: Node, at: Address, segments: seq<string>)
    requires Enabled(node) && Descend(node, at, segments).Some?
    ensures var found := Descend(node, at, segments).value;
            at <= found && Reachable(node, found[|at|..])
    decreases |segments|
  {
    if segments != [] {
      var i := FirstMatch(node.children, segments[0]).value;
      DescentIsReachable(node.children[i], at + [i], segments[1..]);
      var found := Descend(node, at, segments).value;
      assert found[|at|..][0] == i && found[|at|..][1..] == found[|at + [i]|..];
    }
  }

  lemma FoundIsReachable(root: Node, path: string)
    ensures FindEnabled(root, path).Some? ==> Reachable(root, FindEnabled(root, path).value)
  {
    var target := if Absolute(path) then Some(path) else AliasTarget(root, path);
    if FindEnabled(root, path).Some? && target.value != "/" {
      DescentIsReachable(root, [], Split(target.value[1..], '/'));
      assert FindEnabled(root, path).value[0..] == FindEnabled(root, path).value;
    }
  }

  /** Whatever is found, by path or by alias, is a node that the enabled traversal visits. */
  lemma FoundIsVisited(root: Node, path: string)
    requires FindEnabled(root, path).Some?
    ensures exists v <- AllVisits(root) :: v.at == FindEnabled(root, path).value
  {
    FoundIsReachable(root, path);
    VisitedIffReachable(root, FindEnabled(root, path).value);
  }

  // ----- printing and resolving undo each other -----

  /** At every level down to the node, no earlier sibling answers to the name of the node on the path. */
  ghost predicate Unshadowed(node: Node, a: Address)
    requires Exists(node, a)
  {
    a != [] ==>
      && (forall j | 0 <= j < a[0] :: !Matches(node.children[j].name, node.children[a[0]].name))
      && Unshadowed(node.children[a[0]], a[1..])
  }

  predicate GoodName(name: string) {
    name != "" && '/' !in name
  }

  /** One level of a descent along the names of a node: the first child that answers is taken. */
  lemma DescendOnce(node: Node, at: Address, a: Address)
    requires Reachable(node, a) && Exists(node, a) && a != [] && node.children[a[0]].name != ""
    ensures var i := FirstMatch(node.children, node.children[a[0]].name);
            && i.Some? && i.value <= a[0]
            && Descend(node, at, Names(node, a)[1..]) ==
                 if Enabled(node.children[i.value])
                 then Descend(node.children[i.value], at + [i.value], Names(node.children[a[0]], a[1..])[1..])
                 else None
  {
    var child := node.children[a[0]];
    assert Names(node, a)[1..] == Names(child, a[1..]);
    assert Names(child, a[1..])[0] == child.name;
    assert Matches(child.name, child.name);
  }

  /** A descent that leaves the way to a node does not come back to it. */
  lemma DescentApart(node: Node, at: Address, i: nat, segments: seq<string>, a: Address)
    requires Enabled(node) && a != [] && i != a[0]
    ensures Descend(node, at + [i], segments) != Some(at + a)
  {
    if Descend(node, at + [i], segments).Some? {
      DescentIsReachable(node, at + [i], segments);
      var found := Descend(node, at + [i], segments).value;
      assert found[|at|] == i && (at + a)[|at|] == a[0];
    }
  }

  /** Following the names of a node downwards ends at that node. */
  predicate Leads(node: Node, at: Address, a: Address)
    requires Exists(node, a)
  {
    Descend(node, at, Names(node, a)[1..]) == Some(at + a)
  }

  /** Where an earlier sibling answers first, the descent does not end at the node. */
  lemma DescendShadowed(node: Node, at: Address, a: Address)
    requires Reachable(node, a) && Exists(node, a) && a != [] && node.children[a[0]].name != ""
    requires FirstMatch(node.children, node.children[a[0]].name) != Some(a[0])
    ensures !Leads(node, at, a)
  {
    DescendOnce(node, at, a);
    var i := FirstMatch(node.children, node.children[a[0]].name).value;
    if Enabled(node.children[i]) {
      DescentApart(node.children[i], at, i, Names(node.children[a[0]], a[1..])[1..], a);
    }
  }

  /** Where none does, it goes on below the child. */
  lemma DescendThrough(node: Node, at: Address, a: Address)
    requires Reachable(node, a) && Exists(node, a) && a != [] && node.children[a[0]].name != ""
    requires FirstMatch(node.children, node.children[a[0]].name) == Some(a[0])
    ensures Leads(node, at, a) <==> Leads(node.children[a[0]], at + [a[0]], a[1..])
  {
    ChildEnabled(node, a);
    OneStep(at, a);
    DescendOnce(node, at, a);
  }

  lemma ChildEnabled(node: Node, a: Address)
    requires Reachable(node, a) && a != []
    ensures Enabled(node.children[a[0]])
  {
  }

  lemma OneStep(at: Address, a: Address)
    requires a != []
    ensures at + [a[0]] + a[1..] == at + a
  {
  }

  lemma UnshadowedStep(node: Node, a: Address)
    requires Exists(node, a) && a != []
    ensures Unshadowed(node, a) <==>
            && FirstMatch(node.children, node.children[a[0]].name) == Some(a[0])
            && Unshadowed(node.children[a[0]], a[1..])
  {
    assert Matches(node.children[a[0]].name, node.children[a[0]].name);
  }

  lemma {:induction false} DescendByNames(node: Node, at: Address, a: Address)
    requires Reachable(node, a) && Exists(node, a) && ProperNames(Names(node, a))
    ensures Leads(node, at, a) <==> Unshadowed(node, a)
    decreases |a|
  {
    if a == [] {
      assert at + a == at;
    } else {
      var child := node.children[a[0]];
      ProperBelow(node, a);
      UnshadowedStep(node, a);
      if FirstMatch(node.children, child.name) == Some(a[0]) {
        DescendThrough(node, at, a);
        DescendByNames(child, at + [a[0]], a[1..]);
      } else {
        DescendShadowed(node, at, a);
      }
    }
  }

  /** All names but that of the root are proper. */
  predicate ProperNames(path: seq<string>) {
    forall i | 0 < i < |path| :: GoodName(path[i])
  }

  lemma ProperBelow(node: Node, a: Address)
    requires Exists(node, a) && a != [] && ProperNames(Names(node, a))
    ensures ProperNames(Names(node.children[a[0]], a[1..])) && node.children[a[0]].name != ""
  {
    assert GoodName(Names(node, a)[1]);
    var below := Names(node.children[a[0]], a[1..]);
    forall i | 0 < i < |below| ensures GoodName(below[i]) { assert below[i] == Names(node, a)[i + 1]; }
  }

  function Joined(segments: seq<string>): string {
    if segments == [] then "" else "/" + segments[0] + Joined(segments[1..])
  }

  lemma {:induction false} JoinedLast(segments: seq<string>, last: string)
    ensures Joined(segments + [last]) == Joined(segments) + "/" + last
  {
    if segments == [] {
      assert segments + [last] == [last];
      assert [last][1..] == [];
    } else {
      JoinedLast(segments[1..], last);
      assert (segments + [last])[1..] == segments[1..] + [last];
    }
  }

  lemma {:induction false} RenderedIsJoined(root: string, segments: seq<string>)
    requires Skipped(root) && forall name <- segments :: GoodName(name)
    ensures Rendered([root] + segments) == Joined(segments)
  {
    var all := [root] + segments;
    if segments == [] {
      assert all[..|all| - 1] == [];
    } else {
      var last := |segments| - 1;
      assert all[..|all| - 1] == [root] + segments[..last] && segments == segments[..last] + [segments[last]];
      RenderedIsJoined(root, segments[..last]);
      JoinedLast(segments[..last], segments[last]);
      assert GoodName(segments[last]);
    }
  }

  lemma SplitCons(c: char, first: string, after: seq<string>, tail: string)
    requires c != '/' && Split(tail, '/') == [first] + after
    ensures Split([c] + tail, '/') == [[c] + first] + after
  {
    assert ([c] + tail)[1..] == tail;
  }

  lemma {:induction false} SplitFirst(piece: string, rest: string, after: seq<string>)
    requires '/' !in piece
    requires if rest == "" then after == [] else rest[0] == '/' && after == Split(rest[1..], '/')
    ensures Split(piece + rest, '/') == [piece] + after
  {
    if piece == "" {
      assert piece + rest == rest;
    } else {
      var c, others := piece[0], piece[1..];
      SplitFirst(others, rest, after);
      SplitCons(c, others, after, others + rest);
      assert piece + rest == [c] + (others + rest) && piece == [c] + others;
    }
  }

  lemma JoinedHead(segments: seq<string>)
    requires segments != []
    ensures Joined(segments) != "" && Joined(segments)[0] == '/'
    ensures Joined(segments)[1..] == segments[0] + Joined(segments[1..])
  {
  }

  lemma {:induction false} SplitJoined(segments: seq<string>)
    requires segments != [] && forall name <- segments :: GoodName(name)
    ensures Split(Joined(segments)[1..], '/') == segments
  {
    var first, rest := segments[0], segments[1..];
    assert GoodName(first);
    JoinedHead(segments);
    if rest != [] {
      JoinedHead(rest);
      SplitJoined(rest);
    }
    SplitFirst(first, Joined(rest), rest);
    assert segments == [first] + rest;
  }

  /**
   For every visited node whose path has only proper names: printing the path that the visitor was given
   and resolving it leads back to that node exactly when no earlier sibling shadows a name on the path.
   */
  lemma PathRoundTrip(root: Node, v: Visit)
    requires v in AllVisits(root) && (root.name == "" || root.name == "/")
    requires ProperNames(v.path)
    ensures Exists(root, v.at)
    ensures FindEnabled(root, AbsolutePath(v.path)) == Some(v.at) <==> Unshadowed(root, v.at)
  {
    VisitArguments(root, v);
    var segments := v.path[1..];
    assert v.path == [root.name] + segments;
    forall name | name in segments ensures GoodName(name) {
      var i :| 0 <= i < |segments| && segments[i] == name;
      assert v.path[i + 1] == name;
    }
    RenderedIsJoined(root.name, segments);
    DescendByNames(root, [], v.at);
    assert [] + v.at == v.at;
    if segments != [] {
      SplitJoined(segments);
      SlashThenName(segments);
    }
  }

  lemma SlashThenName(segments: seq<string>)
    requires segments != [] && GoodName(segments[0])
    ensures Absolute(Joined(segments)) && Joined(segments) != "/"
  {
    assert |Joined(segments)| >= 1 + |segments[0]|;
  }

  /** An alias whose target is an absolute path finds what that path finds. */
  lemma AliasFindsTarget(root: Node, name: string, path: string)
    requires !Absolute(name) && AliasTarget(root, name) == Some(path) && Absolute(path)
    ensures FindEnabled(root, name) == FindEnabled(root, path)
  {
  }

  /** The first child called `aliases`. */
  ghost predicate IsAliases(root: Node, i: nat)
    requires i < |root.children|
  {
    root.children[i].name == "aliases" && forall j | 0 <= j < i :: root.children[j].name != "aliases"
  }

  lemma {:induction false} FirstNamed(children: seq<Node>, name: string, i: nat)
    requires i < |children| && children[i].name == name && forall j | 0 <= j < i :: children[j].name != name
    ensures ChildNamed(children, name) == Some(children[i])
  {
    if i > 0 {
      assert children[0].name != name;
      forall j | 0 <= j < i - 1 ensures children[1..][j].name != name { assert children[1..][j] == children[j + 1]; }
      FirstNamed(children[1..], name, i - 1);
    }
  }

  lemma {:induction false} NoneNamed(children: seq<Node>, name: string)
    requires forall j | 0 <= j < |children| :: children[j].name != name
    ensures ChildNamed(children, name) == None
  {
    if children != [] {
      forall j | 0 <= j < |children| - 1 ensures children[1..][j].name != name { assert children[1..][j] == children[j + 1]; }
      NoneNamed(children[1..], name);
    }
  }

  predicate OnlyNuls(s: string) {
    forall c <- s :: c == '\0'
  }

  lemma OneMoreNul(s: string)
    ensures OnlyNuls(s + "\0") <==> OnlyNuls(s)
  {
    if OnlyNuls(s + "\0") {
      forall c | c in s ensures c == '\0' { assert c in s + "\0"; }
    }
  }

  /** `t` is `s` without the NULs at its end. */
  ghost predicate Trimmed(s: string, t: string) {
    t <= s && OnlyNuls(s[|t|..]) && (t != "" ==> t[|t| - 1] != '\0')
  }

  lemma {:induction false} TrimmedIff(s: string, t: string)
    ensures t == TrimNuls(s) <==> Trimmed(s, t)
  {
    if s != "" && s[|s| - 1] == '\0' {
      var shorter := s[..|s| - 1];
      assert s == shorter + "\0";
      TrimmedIff(shorter, t);
      if t <= shorter {
        assert s[|t|..] == shorter[|t|..] + "\0";
        OneMoreNul(shorter[|t|..]);
      }
      if t <= s && !(t <= shorter) { assert t == s; }
    } else if t <= s {
      if t != s { assert s[|t|..][|s| - 1 - |t|] == s[|s| - 1] && s[|s| - 1] in s[|t|..]; }
      assert s[|s|..] == "";
    }
  }

  /**
   An alias stands for a target exactly when the first child of the root called `aliases` is enabled and
   has a property of that name which is the target followed by NULs, where the target does not end in one.
   */
  lemma AliasIff(root: Node, name: string, target: string)
    ensures AliasTarget(root, name) == Some(target) <==>
              exists i | 0 <= i < |root.children| && IsAliases(root, i) ::
                var aliases := root.children[i];
                && Enabled(aliases) && name in aliases.properties
                && Trimmed(aliases.properties[name], target)
  {
    if i :| 0 <= i < |root.children| && IsAliases(root, i) {
      FirstNamed(root.children, "aliases", i);
      if name in root.children[i].properties { TrimmedIff(root.children[i].properties[name], target); }
      forall j | 0 <= j < |root.children| && IsAliases(root, j) ensures j == i {}
    } else {
      forall j: nat | j < |root.children| ensures root.children[j].name != "aliases" { NoEarlier(root, j); }
      NoneNamed(root.children, "aliases");
    }
  }

  lemma {:induction false} NoEarlier(root: Node, j: nat)
    requires j < |root.children| && forall i: nat | i < |root.children| :: !IsAliases(root, i)
    ensures root.children[j].name != "aliases"
    decreases j
  {
    forall i: nat | i < j ensures root.children[i].name != "aliases" { NoEarlier(root, i); }
    assert !IsAliases(root, j);
  }

  // ----- selecting one resource -----

  datatype Selection<T> = Selection(resource: T, sourcePath: string)

  class Slot<T> {
    var selected: Option<Selection<T>>

    constructor ()
      ensures selected.None?
    {
      selected := None;
    }

    /** `select_from_node_once`: the first selection stays, and its path is the node's absolute path. */
    method Select(resource: T, segments: seq<string>) returns (ok: bool)
      modifies this
      ensures ok <==> old(selected).None?
      ensures selected == if ok then Some(Selection(resource, AbsolutePath(segments))) else old(selected)
    {
      if selected.Some? { return false; }
      var path := PrintPath(segments);
      selected := Some(Selection(resource, path));
      ok := true;
    }
  }
}
