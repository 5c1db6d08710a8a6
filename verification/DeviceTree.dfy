/**
 Enabled device-tree nodes and the depth-first traversal over them
 (firmware/prototyper/src/devicetree.rs, firmware/runtime/src/device_tree.rs). The tree is an ordered
 tree of named nodes with properties; a node is identified by its address, the child indices that lead
 to it from the root.
 */
module DeviceTree {
  import opened Helpers

  datatype Node = Node(name: string, properties: map<string, string>, children: seq<Node>)

  type Address = seq<nat>

  // ----- status -----

  /** `strip_suffix(&[0])`, which takes off at most one NUL */
  function StripNul(bytes: string): string {
    if bytes != [] && bytes[|bytes| - 1] == '\0' then bytes[..|bytes| - 1] else bytes
  }

  predicate Enabled(n: Node) {
    "status" in n.properties ==> StripNul(n.properties["status"]) in {"ok", "okay"}
  }

  /** Exactly which nodes are enabled: those without a status, and those whose status is one of four. */
  lemma EnabledIff(n: Node)
    ensures Enabled(n) <==>
              "status" !in n.properties || n.properties["status"] in {"ok", "ok\0", "okay", "okay\0"}
  {
    if "status" in n.properties {
      Stripped(n.properties["status"], "ok");
      Stripped(n.properties["status"], "okay");
      assert "ok" + "\0" == "ok\0" && "okay" + "\0" == "okay\0";
    }
  }

  lemma Stripped(bytes: string, text: string)
    requires text != "" && text[|text| - 1] != '\0'
    ensures StripNul(bytes) == text <==> bytes == text || bytes == text + "\0"
  {
    if bytes != [] && bytes[|bytes| - 1] == '\0' { assert bytes == StripNul(bytes) + "\0"; }
    assert (text + "\0")[..|text|] == text;
  }

  // ----- addresses -----

  predicate Exists(root: Node, a: Address) {
    a == [] || (a[0] < |root.children| && Exists(root.children[a[0]], a[1..]))
  }

  function At(root: Node, a: Address): Node
    requires Exists(root, a)
  {
    if a == [] then root else At(root.children[a[0]], a[1..])
  }

  /** The node exists, and it and all its ancestors are enabled. */
  predicate Reachable(root: Node, a: Address) {
    && Enabled(root)
    && (a == [] || (a[0] < |root.children| && Reachable(root.children[a[0]], a[1..])))
  }

  lemma {:induction false} ReachableExists(root: Node, a: Address)
    requires Reachable(root, a)
    ensures Exists(root, a) && Enabled(At(root, a))
  {
    if a != [] { ReachableExists(root.children[a[0]], a[1..]); }
  }

  /** The names from the root to the node. */
  function Names(root: Node, a: Address): (names: seq<string>)
    requires Exists(root, a)
    ensures |names| == |a| + 1
  {
    [root.name] + if a == [] then [] else Names(root.children[a[0]], a[1..])
  }

  /** Lexicographic order of addresses: ancestors first, then elder siblings with all they contain. */
  predicate Before(a: Address, b: Address) {
    b != [] && (a == [] || a[0] < b[0] || (a[0] == b[0] && Before(a[1..], b[1..])))
  }

  // ----- the traversal -----

  /** What the visitor is given: the node, its parent, and the path vector. */
  datatype Visit = Visit(at: Address, parent: Option<Address>, path: seq<string>)

  function VisitOf(node: Node, at: Address, parent: Option<Address>, path: seq<string>): Visit {
    Visit(at, parent, path + [node.name])
  }

  /** The calls of the visitor below a node, when none of them fails. */
  function Visits(node: Node, at: Address, parent: Option<Address>, path: seq<string>): seq<Visit>
    decreases node, |node.children| + 1
  {
    if !Enabled(node) then []
    else [VisitOf(node, at, parent, path)] + ChildVisits(node, at, path + [node.name], |node.children|)
  }

  /** The calls for the first `n` children. */
  function ChildVisits(node: Node, at: Address, path: seq<string>, n: nat): seq<Visit>
    requires n <= |node.children|
    decreases node, n
  {
    if n == 0 then []
    else ChildVisits(node, at, path, n - 1) + Visits(node.children[n - 1], at + [n - 1], Some(at), path)
  }

  /**
   A visitor is any `FnMut`: `accept` decides from all calls so far whether the last one succeeded.
   The calls made, and whether the traversal ran to its end.
   */
  function Walked(accept: seq<Visit> -> bool, log: seq<Visit>, todo: seq<Visit>): (seq<Visit>, bool)
    decreases |todo|
  {
    if todo == [] then (log, true)
    else
      var log' := log + [todo[0]];
      if accept(log') then Walked(accept, log', todo[1..]) else (log', false)
  }

  lemma {:induction false} WalkedConcat(accept: seq<Visit> -> bool, log: seq<Visit>, a: seq<Visit>, b: seq<Visit>)
    ensures var (log', ok) := Walked(accept, log, a);
            Walked(accept, log, a + b) == if ok then Walked(accept, log', b) else (log', false)
    decreases |a|
  {
    if a == [] {
      assert a + b == b;
    } else {
      assert (a + b)[1..] == a[1..] + b;
      if accept(log + [a[0]]) { WalkedConcat(accept, log + [a[0]], a[1..], b); }
    }
  }

  /** The state that the recursion shares: the path vector, and the calls that the visitor has seen. */
  class Walk {
    var path: seq<string>
    var log: seq<Visit>

    constructor ()
      ensures path == [] && log == []
    {
      path, log := [], [];
    }

    /** `visit` inside `try_for_each_enabled_node` */
    method VisitNode(node: Node, at: Address, parent: Option<Address>, accept: seq<Visit> -> bool)
      returns (ok: bool)
      modifies this
      ensures (log, ok) == Walked(accept, old(log), Visits(node, at, parent, old(path)))
      ensures ok ==> path == old(path)
      decreases node
    {
      if !Enabled(node) { return true; }
      path := path + [node.name];
      log := log + [Visit(at, parent, path)];
      ghost var first := [VisitOf(node, at, parent, old(path))];
      assert Visits(node, at, parent, old(path)) == first + ChildVisits(node, at, path, |node.children|);
      if !accept(log) { return false; }
      var n := 0;
      while n < |node.children|
        invariant 0 <= n <= |node.children|
        invariant path == old(path) + [node.name]
        invariant (log, true) == Walked(accept, old(log), first + ChildVisits(node, at, path, n))
      {
        OneMoreChild(accept, old(log), first, node, at, path, n);
        var more := VisitNode(node.children[n], at + [n], Some(at), accept);
        if !more {
          StoppedEarly(accept, old(log), first, node, at, old(path) + [node.name], n + 1);
          return false;
        }
        n := n + 1;
      }
      path := path[..|path| - 1];
      ok := true;
    }

    /** `try_for_each_enabled_node`: the whole tree, on a fresh path. */
    method TryForEachEnabledNode(root: Node, accept: seq<Visit> -> bool) returns (ok: bool)
      modifies this
      ensures (log, ok) == Walked(accept, [], Visits(root, [], None, []))
    {
      path, log := [], [];
      ok := VisitNode(root, [], None, accept);
    }
  }

  /** The calls for one more child follow those for the children before it. */
  lemma OneMoreChild(accept: seq<Visit> -> bool, log: seq<Visit>, first: seq<Visit>, node: Node, at: Address,
                     path: seq<string>, n: nat)
    requires n < |node.children| && Walked(accept, log, first + ChildVisits(node, at, path, n)).1
    ensures var log' := Walked(accept, log, first + ChildVisits(node, at, path, n)).0;
            Walked(accept, log, first + ChildVisits(node, at, path, n + 1))
            == Walked(accept, log', Visits(node.children[n], at + [n], Some(at), path))
  {
    var before, here := first + ChildVisits(node, at, path, n), Visits(node.children[n], at + [n], Some(at), path);
    WalkedConcat(accept, log, before, here);
    assert first + ChildVisits(node, at, path, n + 1) == before + here;
  }

  /** A traversal that stops within some children makes no more calls for the children after them. */
  lemma {:induction false} StoppedEarly(accept: seq<Visit> -> bool, log: seq<Visit>, first: seq<Visit>, node: Node,
                                        at: Address, path: seq<string>, n: nat)
    requires n <= |node.children| && !Walked(accept, log, first + ChildVisits(node, at, path, n)).1
    ensures Walked(accept, log, first + ChildVisits(node, at, path, |node.children|))
         == Walked(accept, log, first + ChildVisits(node, at, path, n))
    decreases |node.children| - n
  {
    if n < |node.children| {
      var here := Visits(node.children[n], at + [n], Some(at), path);
      assert first + ChildVisits(node, at, path, n + 1) == first + ChildVisits(node, at, path, n) + here;
      WalkedConcat(accept, log, first + ChildVisits(node, at, path, n), here);
      StoppedEarly(accept, log, first, node, at, path, n + 1);
    }
  }

  // ----- what is visited, and in which order -----

  /** The call of the visitor for the node at `at + a`, below a node at `at`. */
  ghost predicate RightVisit(node: Node, at: Address, parent: Option<Address>, path: seq<string>, v: Visit, a: Address) {
    && Reachable(node, a) && Exists(node, a)
    && v.at == at + a && v.path == path + Names(node, a)
    && v.parent == if a == [] then parent else Some((at + a)[..|at + a| - 1])
  }

  /** Every call is for a reachable node, with its names from the root and its parent. */
  lemma {:induction false} VisitIsRight(node: Node, at: Address, parent: Option<Address>, path: seq<string>, i: nat)
    returns (a: Address)
    requires i < |Visits(node, at, parent, path)|
    ensures RightVisit(node, at, parent, path, Visits(node, at, parent, path)[i], a)
    decreases node, |node.children| + 1
  {
    if i == 0 {
      a := [];
      assert at + a == at;
    } else {
      a := ChildVisitIsRight(node, at, parent, path, |node.children|, i - 1);
    }
  }

  lemma {:induction false} ChildVisitIsRight(node: Node, at: Address, parent: Option<Address>, path: seq<string>,
                                             n: nat, i: nat) returns (a: Address)
    requires Enabled(node) && n <= |node.children|
    requires i < |ChildVisits(node, at, path + [node.name], n)|
    ensures RightVisit(node, at, parent, path, ChildVisits(node, at, path + [node.name], n)[i], a)
    ensures a != [] && a[0] < n
    decreases node, n
  {
    var earlier := ChildVisits(node, at, path + [node.name], n - 1);
    if i < |earlier| {
      a := ChildVisitIsRight(node, at, parent, path, n - 1, i);
    } else {
      var below := VisitIsRight(node.children[n - 1], at + [n - 1], Some(at), path + [node.name], i - |earlier|);
      a := [n - 1] + below;
      LiftVisit(node, at, parent, path, n - 1, ChildVisits(node, at, path + [node.name], n)[i], below);
    }
  }

  /** The right call for a node below a child is the right call for it below the node. */
  lemma LiftVisit(node: Node, at: Address, parent: Option<Address>, path: seq<string>, m: nat, v: Visit, below: Address)
    requires Enabled(node) && m < |node.children|
    requires RightVisit(node.children[m], at + [m], Some(at), path + [node.name], v, below)
    ensures RightVisit(node, at, parent, path, v, [m] + below)
  {
    var a := [m] + below;
    assert a[1..] == below;
    assert at + a == at + [m] + below;
    LiftNames(node, path, m, below);
    if below == [] { assert (at + a)[..|at + a| - 1] == at; }
  }

  lemma LiftNames(node: Node, path: seq<string>, m: nat, below: Address)
    requires m < |node.children| && Exists(node.children[m], below)
    ensures Exists(node, [m] + below)
    ensures path + Names(node, [m] + below) == path + [node.name] + Names(node.children[m], below)
  {
    assert ([m] + below)[1..] == below;
    assert Names(node, [m] + below) == [node.name] + Names(node.children[m], below);
  }

  /** Every reachable node is visited. */
  lemma {:induction false} ReachableIsVisited(node: Node, at: Address, parent: Option<Address>, path: seq<string>,
                                              a: Address) returns (i: nat)
    requires Reachable(node, a)
    ensures i < |Visits(node, at, parent, path)| && Visits(node, at, parent, path)[i].at == at + a
    decreases node, |node.children| + 1
  {
    if a == [] {
      i := 0;
    } else {
      var j := ChildIsVisited(node, at, path + [node.name], a, |node.children|);
      i := j + 1;
    }
  }

  lemma {:induction false} ChildIsVisited(node: Node, at: Address, path: seq<string>, a: Address, n: nat)
    returns (i: nat)
    requires a != [] && a[0] < n <= |node.children| && Reachable(node.children[a[0]], a[1..])
    ensures i < |ChildVisits(node, at, path, n)| && ChildVisits(node, at, path, n)[i].at == at + a
    decreases node, n
  {
    if a[0] == n - 1 {
      var j := ReachableIsVisited(node.children[n - 1], at + [n - 1], Some(at), path, a[1..]);
      assert at + a == at + [n - 1] + a[1..];
      i := |ChildVisits(node, at, path, n - 1)| + j;
    } else {
      i := ChildIsVisited(node, at, path, a, n - 1);
    }
  }

  /** Addresses below one node compare as what follows that node's address. */
  lemma {:induction false} BeforeBelow(at: Address, a: Address, b: Address)
    requires Before(a, b)
    ensures Before(at + a, at + b)
  {
    if at == [] {
      assert at + a == a && at + b == b;
    } else {
      BeforeBelow(at[1..], a, b);
      assert (at + a)[1..] == at[1..] + a && (at + b)[1..] == at[1..] + b;
    }
  }

  lemma {:induction false} VisitsInOrder(node: Node, at: Address, parent: Option<Address>, path: seq<string>, i: nat, j: nat)
    requires i < j < |Visits(node, at, parent, path)|
    ensures Before(Visits(node, at, parent, path)[i].at, Visits(node, at, parent, path)[j].at)
    decreases node, |node.children| + 1
  {
    if i == 0 {
      var b := ChildVisitIsRight(node, at, parent, path, |node.children|, j - 1);
      BeforeBelow(at, [], b);
      assert at + [] == at;
    } else {
      ChildVisitsInOrder(node, at, parent, path, |node.children|, i - 1, j - 1);
    }
  }

  lemma {:induction false} ChildVisitsInOrder(node: Node, at: Address, parent: Option<Address>, path: seq<string>,
                                              n: nat, i: nat, j: nat)
    requires Enabled(node) && n <= |node.children| && i < j < |ChildVisits(node, at, path + [node.name], n)|
    ensures var visits := ChildVisits(node, at, path + [node.name], n); Before(visits[i].at, visits[j].at)
    decreases node, n
  {
    var k := |ChildVisits(node, at, path + [node.name], n - 1)|;
    if j < k {
      ChildVisitsInOrder(node, at, parent, path, n - 1, i, j);
    } else if i < k {
      var a := ChildVisitIsRight(node, at, parent, path, n - 1, i);
      var b := VisitIsRight(node.children[n - 1], at + [n - 1], Some(at), path + [node.name], j - k);
      assert at + [n - 1] + b == at + ([n - 1] + b);
      BeforeBelow(at, a, [n - 1] + b);
    } else {
      VisitsInOrder(node.children[n - 1], at + [n - 1], Some(at), path + [node.name], i - k, j - k);
    }
  }

  /** No address comes before itself, so none is visited twice. */
  lemma {:induction false} BeforeIsStrict(a: Address)
    ensures !Before(a, a)
  {
    if a != [] { BeforeIsStrict(a[1..]); }
  }

  // ----- the traversal of a whole tree -----

  /** The calls of the visitor on a whole tree. */
  function AllVisits(root: Node): seq<Visit> {
    Visits(root, [], None, [])
  }

  /** A node is visited if and only if it and all its ancestors are enabled. */
  lemma VisitedIffReachable(root: Node, a: Address)
    ensures (exists v <- AllVisits(root) :: v.at == a) <==> Reachable(root, a)
  {
    if Reachable(root, a) {
      var i := ReachableIsVisited(root, [], None, [], a);
      assert AllVisits(root)[i].at == a;
    }
    if v :| v in AllVisits(root) && v.at == a {
      var i :| 0 <= i < |AllVisits(root)| && AllVisits(root)[i] == v;
      var b := VisitIsRight(root, [], None, [], i);
      assert [] + b == b;
    }
  }

  /** The visitor is given the names from the root to the node, and the node's parent. */
  lemma VisitArguments(root: Node, v: Visit)
    requires v in AllVisits(root)
    ensures Reachable(root, v.at) && Exists(root, v.at) && v.path == Names(root, v.at)
    ensures v.parent == if v.at == [] then None else Some(v.at[..|v.at| - 1])
  {
    var i :| 0 <= i < |AllVisits(root)| && AllVisits(root)[i] == v;
    var a := VisitIsRight(root, [], None, [], i);
    assert [] + a == a;
    assert [] + Names(root, a) == Names(root, a);
  }

  /** Nodes are visited in preorder, each at most once. */
  lemma PreorderOnce(root: Node, i: nat, j: nat)
    requires i < j < |AllVisits(root)|
    ensures Before(AllVisits(root)[i].at, AllVisits(root)[j].at)
    ensures AllVisits(root)[i].at != AllVisits(root)[j].at
  {
    VisitsInOrder(root, [], None, [], i, j);
    BeforeIsStrict(AllVisits(root)[i].at);
  }

  /** The traversal stops at the first call that fails: the calls made are a prefix of all calls. */
  lemma {:induction false} StopsAtFirstError(accept: seq<Visit> -> bool, log: seq<Visit>, todo: seq<Visit>)
    ensures var (calls, ok) := Walked(accept, log, todo);
            && log <= calls <= log + todo
            && (forall n | |log| < n < |calls| :: accept(calls[..n]))
            && (ok <==> calls == log + todo && (todo == [] || accept(calls)))
            && (!ok ==> |calls| > |log| && !accept(calls))
    decreases |todo|
  {
    if todo != [] {
      var log' := log + [todo[0]];
      assert log' + todo[1..] == log + todo;
      if accept(log') {
        StopsAtFirstError(accept, log', todo[1..]);
        var (calls, ok) := Walked(accept, log', todo[1..]);
        assert calls[..|log'|] == log';
      }
    }
  }
}
