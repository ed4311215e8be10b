/** Forward reachability and co-accessibility over the workflow graph
    (workflow/compile_reachability.go). */
module Reachability {
  import opened Names
  import opened Walks
  import opened FsmGraph

  // --------------------------------------------------------------- forward

  /** The nodes a breadth-first walk from `start` visits are exactly those some walk reaches. */
  method CollectReachableNodes(g: Graph, start: Name) returns (reachable: set<Name>)
    ensures forall n :: n in reachable <==> Reach(Edges(g), start, n)
  {
    hide NodeTargets, Edges, Reach;
    ghost var E := Edges(g);
    ghost var universe := {start} + set e | e in E :: e.1;
    EdgesIff(g);
    ReachRefl(E, start);
    reachable := {start};
    var queue := [start];
    while |queue| > 0
      invariant start in reachable && reachable <= universe
      invariant forall n :: n in queue ==> n in reachable
      invariant forall n :: n in reachable ==> Reach(E, start, n)
      invariant forall n, v :: n in reachable && n !in queue && (n, v) in E ==> v in reachable
      decreases universe - reachable, |queue|
    {
      var name := queue[0];
      queue := queue[1..];
      var targets := NodeTargets(name, g);
      ghost var before, left := reachable, |queue|;
      for i := 0 to |targets|
        invariant before <= reachable <= universe && (reachable == before ==> |queue| == left)
        invariant forall n :: n in queue ==> n in reachable
        invariant forall n :: n in reachable ==> Reach(E, start, n)
        invariant forall n, v :: n in reachable && n !in queue && n != name && (n, v) in E ==> v in reachable
        invariant forall k :: 0 <= k < i ==> targets[k] in reachable
      {
        var target := targets[i];
        if target !in reachable {
          assert (name, target) in E;
          ReachExtend(E, start, name, target);
          reachable := reachable + {target};
          queue := queue + [target];
        }
      }
    }
    assert Closed(E, reachable);
    forall n | Reach(E, start, n)
      ensures n in reachable
    {
      ClosedContainsReach(E, reachable, start, n);
    }
  }

  function Keep(names: seq<Name>, reachable: set<Name>): (r: seq<Name>)
    ensures forall n :: n in r <==> n in names && n in reachable
  {
    if names == [] then []
    else (if names[0] in reachable then [names[0]] else []) + Keep(names[1..], reachable)
  }

  /** Every node in diagnostic order: steps as declared, then each other kind by name. */
  function DiagnosticOrder(g: Graph): (r: seq<Name>)
    requires (set n | n in g.stepOrder) == g.steps.Keys
    ensures forall n :: n in r <==> n in Declared(g)
  {
    assert forall n :: n in g.stepOrder <==> n in g.steps.Keys;
    g.stepOrder + SortedKeys(g.switches.Keys) + SortedKeys(g.waits.Keys) + SortedKeys(g.approvals.Keys)
    + SortedKeys(g.states.Keys)
  }

  /** The reachable ones. */
  function OrderedReachableNodes(g: Graph, reachable: set<Name>): (r: seq<Name>)
    requires (set n | n in g.stepOrder) == g.steps.Keys
    ensures forall n :: n in r <==> n in Declared(g) && n in reachable
  {
    Keep(DiagnosticOrder(g), reachable)
  }

  /** The position of a node's kind in diagnostic order. */
  ghost function Kind(g: Graph, n: Name): nat {
    if n in g.steps then 0 else if n in g.switches then 1 else if n in g.waits then 2 else if n in g.approvals then 3
    else 4
  }

  ghost predicate Earlier(order: seq<Name>, a: Name, b: Name) {
    exists i, j :: 0 <= i < j < |order| && order[i] == a && order[j] == b
  }

  /** `a` is diagnosed before `b`: by kind, then steps as declared and other nodes by name. */
  ghost predicate Ahead(g: Graph, a: Name, b: Name) {
    || Kind(g, a) < Kind(g, b)
    || (Kind(g, a) == Kind(g, b) && if a in g.steps then Earlier(g.stepOrder, a, b) else Less(a, b))
  }

  ghost predicate InOrder(g: Graph, names: seq<Name>) {
    forall i, j :: 0 <= i < j < |names| ==> Ahead(g, names[i], names[j])
  }

  lemma InOrderJoined(g: Graph, a: seq<Name>, b: seq<Name>)
    requires InOrder(g, a) && InOrder(g, b) && forall x, y :: x in a && y in b ==> Ahead(g, x, y)
    ensures InOrder(g, a + b)
  {
    hide Ahead;
    var s := a + b;
    forall i, j | 0 <= i < j < |s|
      ensures Ahead(g, s[i], s[j])
    {
      if i < |a| <= j {
        assert s[i] in a && s[j] in b;
      } else if i >= |a| {
        assert s[i] == b[i - |a|] && s[j] == b[j - |a|];
      }
    }
  }

  lemma {:induction false} KeepInOrder(g: Graph, names: seq<Name>, reachable: set<Name>)
    requires InOrder(g, names)
    ensures InOrder(g, Keep(names, reachable))
  {
    hide Ahead;
    if names != [] {
      var head, rest := names[0], names[1..];
      assert InOrder(g, rest) by {
        assert forall i :: 0 <= i < |rest| ==> rest[i] == names[i + 1];
      }
      KeepInOrder(g, rest, reachable);
      if head in reachable {
        forall x, y | x in [head] && y in Keep(rest, reachable)
          ensures Ahead(g, x, y)
        {
          var k :| 0 <= k < |rest| && rest[k] == y;
          assert names[k + 1] == y;
        }
        InOrderJoined(g, [head], Keep(rest, reachable));
      }
    }
  }

  ghost predicate OfKind(g: Graph, names: seq<Name>, from: nat, to: nat) {
    forall n :: n in names ==> from <= Kind(g, n) <= to
  }

  /** Lists of later kinds follow. */
  lemma KindsJoined(g: Graph, a: seq<Name>, b: seq<Name>, k: nat)
    requires InOrder(g, a) && InOrder(g, b) && OfKind(g, a, 0, k) && OfKind(g, b, k + 1, k + 1)
    ensures InOrder(g, a + b) && OfKind(g, a + b, 0, k + 1)
  {
    hide Kind;
    InOrderJoined(g, a, b);
  }

  lemma KindsInOrder(g: Graph, a: seq<Name>, b: seq<Name>, c: seq<Name>, d: seq<Name>, e: seq<Name>)
    requires InOrder(g, a) && InOrder(g, b) && InOrder(g, c) && InOrder(g, d) && InOrder(g, e)
    requires OfKind(g, a, 0, 0) && OfKind(g, b, 1, 1) && OfKind(g, c, 2, 2) && OfKind(g, d, 3, 3) && OfKind(g, e, 4, 4)
    ensures InOrder(g, a + b + c + d + e)
  {
    hide InOrder, OfKind;
    KindsJoined(g, a, b, 0);
    KindsJoined(g, a + b, c, 1);
    KindsJoined(g, a + b + c, d, 2);
    KindsJoined(g, a + b + c + d, e, 3);
  }

  lemma NamesInOrder(g: Graph, keys: set<Name>, kind: nat)
    requires forall n :: n in keys ==> n !in g.steps && Kind(g, n) == kind
    ensures InOrder(g, SortedKeys(keys)) && OfKind(g, SortedKeys(keys), kind, kind)
  {
    hide Kind, SortedKeys;
    var names := SortedKeys(keys);
    assert forall i :: 0 <= i < |names| ==> names[i] in keys;
  }

  lemma StepsInOrder(g: Graph)
    requires OrderListsSteps(g)
    ensures InOrder(g, g.stepOrder) && OfKind(g, g.stepOrder, 0, 0)
  {
    assert forall n :: n in g.stepOrder <==> n in g.steps.Keys;
  }

  lemma KindsOf(g: Graph)
    requires NamesDisjoint(g)
    ensures forall n :: n in g.switches.Keys ==> n !in g.steps && Kind(g, n) == 1
    ensures forall n :: n in g.waits.Keys ==> n !in g.steps && Kind(g, n) == 2
    ensures forall n :: n in g.approvals.Keys ==> n !in g.steps && Kind(g, n) == 3
    ensures forall n :: n in g.states.Keys ==> n !in g.steps && Kind(g, n) == 4
  {
  }

  lemma OthersInOrder(g: Graph)
    requires NamesDisjoint(g)
    ensures var names := SortedKeys(g.switches.Keys); InOrder(g, names) && OfKind(g, names, 1, 1)
    ensures var names := SortedKeys(g.waits.Keys); InOrder(g, names) && OfKind(g, names, 2, 2)
    ensures var names := SortedKeys(g.approvals.Keys); InOrder(g, names) && OfKind(g, names, 3, 3)
    ensures var names := SortedKeys(g.states.Keys); InOrder(g, names) && OfKind(g, names, 4, 4)
  {
    KindsOf(g);
    hide SortedKeys, InOrder, OfKind, Kind, NamesDisjoint;
    NamesInOrder(g, g.switches.Keys, 1);
    NamesInOrder(g, g.waits.Keys, 2);
    NamesInOrder(g, g.approvals.Keys, 3);
    NamesInOrder(g, g.states.Keys, 4);
  }

  lemma DiagnosticInOrder(g: Graph)
    requires NamesDisjoint(g) && OrderListsSteps(g)
    ensures InOrder(g, DiagnosticOrder(g))
  {
    hide SortedKeys, InOrder, OfKind, NamesDisjoint, Declared, Distinct;
    StepsInOrder(g);
    OthersInOrder(g);
    KindsInOrder(g, g.stepOrder, SortedKeys(g.switches.Keys), SortedKeys(g.waits.Keys),
                 SortedKeys(g.approvals.Keys), SortedKeys(g.states.Keys));
  }

  /** Nodes are diagnosed in one order, which no map iteration can change, and each of them once. */
  lemma ReachableNodesInOrder(g: Graph, reachable: set<Name>)
    requires NamesDisjoint(g) && OrderListsSteps(g)
    ensures InOrder(g, OrderedReachableNodes(g, reachable)) && Distinct(OrderedReachableNodes(g, reachable))
  {
    hide InOrder, Distinct, DiagnosticOrder, NamesDisjoint, Keep, Declared;
    DiagnosticInOrder(g);
    KeepInOrder(g, DiagnosticOrder(g), reachable);
    InOrderDistinct(g, OrderedReachableNodes(g, reachable));
  }

  lemma InOrderDistinct(g: Graph, names: seq<Name>)
    requires InOrder(g, names) && Distinct(g.stepOrder)
    ensures Distinct(names)
  {
    hide Kind;
    forall i, j | 0 <= i < j < |names|
      ensures names[i] != names[j]
    {
      assert Ahead(g, names[i], names[j]);
      LessExactlyOne(names[i], names[j]);
    }
  }

  // -------------------------------------------------------------- backward

  /** Some walk from `u` ends where the run can leave the workflow. */
  ghost predicate CanExit(g: Graph, u: Name) {
    exists x :: Reach(Edges(g), u, x) && Exit(x, g)
  }

  function Preds(revAdj: map<Name, seq<Name>>, v: Name): seq<Name> {
    if v in revAdj then revAdj[v] else []
  }

  /** Predecessor lists over the reachable part of the graph, each in name order. */
  method BuildReverseAdjacency(g: Graph, reachable: set<Name>) returns (revAdj: map<Name, seq<Name>>)
    ensures forall u, v :: u in Preds(revAdj, v) <==> u in reachable && (u, v) in Edges(g)
    ensures forall v :: v in revAdj ==> NonDescending(revAdj[v])
  {
    hide NodeTargets, Edges, NonDescending;
    EdgesIff(g);
    ghost var E := Edges(g);
    revAdj := map[];
    var todo := reachable;
    while todo != {}
      invariant todo <= reachable
      invariant forall u, v :: u in Preds(revAdj, v) <==> u in reachable - todo && (u, v) in E
      decreases todo
    {
      var u :| u in todo;
      var targets := NodeTargets(u, g);
      for i := 0 to |targets|
        invariant forall w, v :: w in Preds(revAdj, v) <==>
                                 (w in reachable - todo && (w, v) in E) || (w == u && v in targets[..i])
      {
        var v := targets[i];
        ghost var was := revAdj;
        revAdj := revAdj[v := Preds(revAdj, v) + [u]];
        assert targets[..i + 1] == targets[..i] + [v];
        assert forall x :: Preds(revAdj, x) == if x == v then Preds(was, v) + [u] else Preds(was, x);
      }
      assert targets[..|targets|] == targets;
      assert forall v :: (u, v) in E <==> v in targets;
      assert reachable - (todo - {u}) == reachable - todo + {u};
      todo := todo - {u};
    }
    assert reachable - todo == reachable;
    revAdj := SortLists(revAdj);
  }

  /** The second loop of buildReverseAdjacency: each list in name order, nothing added or lost. */
  method SortLists(adj: map<Name, seq<Name>>) returns (sorted: map<Name, seq<Name>>)
    ensures forall u, v :: u in Preds(sorted, v) <==> u in Preds(adj, v)
    ensures forall v :: v in sorted ==> NonDescending(sorted[v])
  {
    hide NonDescending, Sort;
    sorted := adj;
    var keys := adj.Keys;
    while keys != {}
      invariant sorted.Keys == adj.Keys && keys <= adj.Keys
      invariant forall v :: v in keys ==> sorted[v] == adj[v]
      invariant forall v :: v in adj ==> multiset(sorted[v]) == multiset(adj[v])
      invariant forall v :: v in adj && v !in keys ==> NonDescending(sorted[v])
      decreases keys
    {
      var v :| v in keys;
      sorted := sorted[v := Sort(sorted[v])];
      keys := keys - {v};
    }
    forall u, v | v in adj
      ensures u in sorted[v] <==> u in adj[v]
    {
      assert u in sorted[v] <==> u in multiset(sorted[v]);
    }
  }

  /** Walking backwards from a node that was collected collects the whole walk. */
  lemma {:induction false} BackwardClosed(g: Graph, reachable: set<Name>, can: set<Name>, p: seq<Name>, k: nat)
    requires Closed(Edges(g), reachable) && Walk(Edges(g), p) && p[0] in reachable
    requires forall u, v :: u in reachable && (u, v) in Edges(g) && v in can ==> u in can
    requires p[|p| - 1] in can && k < |p|
    ensures p[k] in can
    decreases |p| - k
  {
    if k < |p| - 1 {
      BackwardClosed(g, reachable, can, p, k + 1);
      ClosedKeepsWalk(Edges(g), reachable, p, k);
      assert (p[k], p[k + 1]) in Edges(g);
    }
  }

  ghost predicate CoAccessible(g: Graph, reachable: set<Name>, n: Name) {
    ExitState(n, g) || (n in reachable && CanExit(g, n))
  }

  lemma ExitIsCoAccessible(g: Graph, n: Name)
    requires Exit(n, g)
    ensures CanExit(g, n)
  {
    ReachRefl(Edges(g), n);
  }

  lemma ReturnEdgeDeclared(n: Name, g: Graph)
    ensures NodeHasReturnEdge(n, g) ==> n in Declared(g)
  {
  }

  lemma CoAccessibleBack(g: Graph, reachable: set<Name>, u: Name, v: Name)
    requires u in reachable && (u, v) in Edges(g) && CoAccessible(g, reachable, v)
    ensures CoAccessible(g, reachable, u)
  {
    if ExitState(v, g) {
      ExitIsCoAccessible(g, v);
    }
    var x :| Reach(Edges(g), v, x) && Exit(x, g);
    ReachEdge(Edges(g), u, v);
    ReachTrans(Edges(g), u, v, x);
  }

  lemma CoAccessibleCollected(g: Graph, reachable: set<Name>, can: set<Name>, n: Name)
    requires Closed(Edges(g), reachable) && n in reachable && CanExit(g, n)
    requires forall u, v :: u in reachable && (u, v) in Edges(g) && v in can ==> u in can
    requires forall x :: x in reachable && Exit(x, g) ==> x in can
    ensures n in can
  {
    hide Edges, Exit;
    var x :| Reach(Edges(g), n, x) && Exit(x, g);
    var p :| WalkFromTo(Edges(g), p, n, x);
    ClosedKeepsWalk(Edges(g), reachable, p, |p| - 1);
    BackwardClosed(g, reachable, can, p, 0);
  }

  /** The exits the backward search starts from: every exit state, and the reachable nodes with a return edge. */
  method CollectExits(g: Graph, reachable: set<Name>) returns (can: set<Name>, queue: seq<Name>)
    requires (set n | n in g.stepOrder) == g.steps.Keys
    ensures forall n :: n in queue <==> n in can
    ensures forall n :: n in can <==>
                        ExitState(n, g) || (NodeHasReturnEdge(n, g) && n in Declared(g) && n in reachable)
  {
    hide NodeHasReturnEdge, OrderedReachableNodes, SortedKeys, Declared;
    can, queue := {}, [];
    var stateNames := SortedKeys(g.states.Keys);
    for i := 0 to |stateNames|
      invariant forall n :: n in queue <==> n in can
      invariant forall n :: n in can <==> ExitState(n, g) && n in stateNames[..i]
    {
      assert stateNames[..i + 1] == stateNames[..i] + [stateNames[i]] && stateNames[i] in stateNames;
      if g.states[stateNames[i]].terminal || g.states[stateNames[i]].needs != "" {
        can := can + {stateNames[i]};
        queue := queue + [stateNames[i]];
      }
    }
    assert stateNames[..|stateNames|] == stateNames;
    var nodes := OrderedReachableNodes(g, reachable);
    for i := 0 to |nodes|
      invariant forall n :: n in queue <==> n in can
      invariant forall n :: n in can <==>
                            ExitState(n, g) || (NodeHasReturnEdge(n, g) && n in nodes[..i])
    {
      assert nodes[..i + 1] == nodes[..i] + [nodes[i]];
      if NodeHasReturnEdge(nodes[i], g) && nodes[i] !in can {
        can := can + {nodes[i]};
        queue := queue + [nodes[i]];
      }
    }
    assert nodes[..|nodes|] == nodes;
  }

  /** On a forward-closed node set, restricting the reverse adjacency to that set loses nothing:
      a node of the set is collected exactly when some walk from it reaches an exit. */
  method ComputeCoAccessibleNodes(g: Graph, reachable: set<Name>, revAdj: map<Name, seq<Name>>)
    returns (can: set<Name>)
    requires (set n | n in g.stepOrder) == g.steps.Keys
    requires Closed(Edges(g), reachable)
    requires forall u, v :: u in Preds(revAdj, v) <==> u in reachable && (u, v) in Edges(g)
    ensures forall n :: n in can <==> CoAccessible(g, reachable, n)
  {
    hide Edges, Reach, NodeHasReturnEdge, CanExit;
    var queue;
    can, queue := CollectExits(g, reachable);
    forall n | n in can
      ensures CoAccessible(g, reachable, n)
    {
      ExitIsCoAccessible(g, n);
    }
    forall n | n in reachable && Exit(n, g)
      ensures n in can
    {
      ReturnEdgeDeclared(n, g);
    }
    can := PropagateBack(g, reachable, revAdj, can, queue);
    forall n | CoAccessible(g, reachable, n)
      ensures n in can
    {
      if !ExitState(n, g) {
        CoAccessibleCollected(g, reachable, can, n);
      }
    }
  }

  /** The backward breadth-first loop of computeCoAccessibleNodes. */
  method PropagateBack(g: Graph, reachable: set<Name>, revAdj: map<Name, seq<Name>>, seeds: set<Name>, start: seq<Name>)
    returns (can: set<Name>)
    requires forall u, v :: u in Preds(revAdj, v) <==> u in reachable && (u, v) in Edges(g)
    requires forall n :: n in start <==> n in seeds
    requires forall n :: n in seeds ==> CoAccessible(g, reachable, n)
    ensures seeds <= can
    ensures forall n :: n in can ==> CoAccessible(g, reachable, n)
    ensures forall u, v :: u in reachable && (u, v) in Edges(g) && v in can ==> u in can
  {
    hide Edges, CoAccessible;
    ghost var E := Edges(g);
    can := seeds;
    var queue := start;
    while |queue| > 0
      invariant seeds <= can <= seeds + reachable
      invariant forall n :: n in queue ==> n in can
      invariant forall n :: n in can ==> CoAccessible(g, reachable, n)
      invariant forall u, v :: u in reachable && (u, v) in E && v in can && v !in queue ==> u in can
      decreases reachable - can, |queue|
    {
      var curr := queue[0];
      queue := queue[1..];
      var preds := Preds(revAdj, curr);
      ghost var before, left := can, |queue|;
      for i := 0 to |preds|
        invariant before <= can <= seeds + reachable && (can == before ==> |queue| == left)
        invariant can != before ==> exists n :: n in can && n !in before && n in reachable
        invariant forall n :: n in queue ==> n in can
        invariant forall n :: n in can ==> CoAccessible(g, reachable, n)
        invariant forall u, v :: u in reachable && (u, v) in E && v in can && v !in queue && v != curr ==> u in can
        invariant forall k :: 0 <= k < i ==> preds[k] in can
      {
        var pred := preds[i];
        if pred !in can {
          assert pred in reachable && (pred, curr) in E;
          CoAccessibleBack(g, reachable, pred, curr);
          can := can + {pred};
          queue := queue + [pred];
        }
      }
    }
  }
}
