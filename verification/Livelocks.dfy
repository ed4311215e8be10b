/** Livelock diagnosis (checkLivelocks) and the back-edge test used for loop warnings. */
module Livelocks {
  import opened Names
  import opened Walks
  import opened FsmGraph
  import opened Reachability
  import opened Cycles

  // ------------------------------------------------------------------ traces

  /** The walk visits its last node twice: the trace closes a loop. */
  ghost predicate ClosesLoop<T>(p: seq<T>) {
    |p| >= 2 && p[|p| - 1] in p[..|p| - 1]
  }

  /** No walk from a trapped node ever leaves the trapped region. */
  lemma TrappedStaysTrapped(g: Graph, p: seq<Name>, k: nat)
    requires Walk(Edges(g), p) && !CanExit(g, p[0]) && k < |p|
    ensures !CanExit(g, p[k])
  {
    hide Edges, Exit;
    if CanExit(g, p[k]) {
      var x :| Reach(Edges(g), p[k], x) && Exit(x, g);
      SubWalk(Edges(g), p, 0, k);
      ReachTrans(Edges(g), p[0], p[k], x);
    }
  }

  /** Replacing the tail of a walk by a walk from the same node. */
  lemma SpliceWalk<T>(E: set<(T, T)>, p: seq<T>, k: nat, q: seq<T>)
    requires Walk(E, p) && Walk(E, q) && k < |p| && q[0] == p[k]
    ensures Walk(E, p[..k] + q) && (p[..k] + q)[0] == p[0]
  {
    var r := p[..k] + q;
    forall i, j | 0 <= i && j == i + 1 && j < |r|
      ensures (r[i], r[j]) in E
    {
      if j <= k {
        assert r[i] == p[i] && r[j] == p[j];
      } else {
        assert r[i] == q[i - k] && r[j] == q[j - k];
      }
    }
  }

  /** A deterministic counterexample walk from `u`: a shortest cycle through `u` when there is one,
      otherwise a walk that runs into a loop (isCycle) or into a node with no targets. */
  method ReconstructLivelockTrace(u: Name, g: Graph) returns (trace: seq<Name>, isCycle: bool)
    ensures Walk(Edges(g), trace) && trace[0] == u
    ensures isCycle ==> ClosesLoop(trace)
    ensures !isCycle ==> NodeTargets(trace[|trace| - 1], g) == [] && Distinct(trace)
    ensures OnCycle(Edges(g), u) ==>
              isCycle && ClosedWalk(Edges(g), trace, u)
              && forall p :: ClosedWalk(Edges(g), p, u) ==> |trace| <= |p|
  {
    hide NodeTargets, Edges;
    ghost var E := Edges(g);
    EdgesIff(g);
    var cycle := ShortestCycleFrom(u, g);
    if |cycle| > 0 {
      assert cycle[|cycle| - 1] == cycle[..|cycle| - 1][0];
      return cycle, true;
    }
    var visited: map<Name, nat> := map[u := 0];
    var path := [u];
    var curr := u;
    ghost var universe := {u} + set e | e in E :: e.1;
    while true
      invariant Walk(E, path) && path[0] == u && path[|path| - 1] == curr && Distinct(path)
      invariant forall n :: n in visited <==> n in path
      invariant forall n :: n in visited ==> visited[n] < |path| && path[visited[n]] == n
      invariant visited.Keys <= universe
      decreases universe - visited.Keys
    {
      var targets := NodeTargets(curr, g);
      if |targets| == 0 {
        return path, false;
      }
      var next := targets[0];
      assert (curr, next) in E && (curr, next).1 in universe;
      assert Walk(E, path + [next]);
      if next in visited {
        var idx := visited[next];
        RepeatIsCycle(E, path + [next], idx, |path|);
        cycle := ShortestCycleFrom(next, g);
        SpliceWalk(E, path, idx, cycle);
        trace, isCycle := path[..idx] + cycle, true;
        assert trace[|trace| - 1] == next == trace[idx] == trace[..|trace| - 1][idx];
        return;
      }
      assert next in universe - visited.Keys;
      visited := visited[next := |path|];
      path := path + [next];
      curr := next;
    }
  }

  datatype Livelock = Livelock(node: Name, trace: seq<Name>, isCycle: bool)

  /** A counterexample: a real walk from the node, through trapped nodes only, that loops or dead-ends. */
  ghost predicate Witness(g: Graph, l: Livelock) {
    && Walk(Edges(g), l.trace) && l.trace[0] == l.node
    && (forall n :: n in l.trace ==> !CanExit(g, n))
    && (if l.isCycle then ClosesLoop(l.trace) else NodeTargets(l.trace[|l.trace| - 1], g) == [])
  }

  /** Livelock detection is exact: a reachable declared node is reported precisely when
      no walk from it reaches an exit, and each report carries a genuine counterexample. */
  method CheckLivelocks(g: Graph, reachable: set<Name>) returns (diags: seq<Livelock>)
    requires (set n | n in g.stepOrder) == g.steps.Keys
    requires Closed(Edges(g), reachable)
    ensures forall n :: (exists l :: l in diags && l.node == n) <==>
                        n in Declared(g) && n in reachable && !CanExit(g, n)
    ensures forall l :: l in diags ==> Witness(g, l)
  {
    hide NodeTargets, Edges, CanExit, OrderedReachableNodes, Declared, Witness;
    var revAdj := BuildReverseAdjacency(g, reachable);
    var canReachTerminal := ComputeCoAccessibleNodes(g, reachable, revAdj);
    var nodes := OrderedReachableNodes(g, reachable);
    diags := [];
    for i := 0 to |nodes|
      invariant forall l :: l in diags ==> Witness(g, l)
      invariant forall l :: l in diags ==> l.node in nodes[..i] && !CanExit(g, l.node)
      invariant forall n :: n in nodes[..i] && !CanExit(g, n) ==> exists l :: l in diags && l.node == n
    {
      var u := nodes[i];
      assert u in nodes;
      assert nodes[..i + 1] == nodes[..i] + [u];
      ghost var before := diags;
      CollectedIffCanExit(g, reachable, u);
      if u !in canReachTerminal {
        var trace, isCycle := ReconstructLivelockTrace(u, g);
        var l := Livelock(u, trace, isCycle);
        TrappedTrace(g, l);
        diags := diags + [l];
        assert l in diags && l.node == u;
      }
      assert forall l :: l in before ==> l in diags;
    }
    assert nodes[..|nodes|] == nodes;
  }

  lemma CollectedIffCanExit(g: Graph, reachable: set<Name>, u: Name)
    requires u in reachable
    ensures CoAccessible(g, reachable, u) <==> CanExit(g, u)
  {
    if ExitState(u, g) {
      ExitIsCoAccessible(g, u);
    }
  }

  lemma TrappedTrace(g: Graph, l: Livelock)
    requires Walk(Edges(g), l.trace) && l.trace[0] == l.node && !CanExit(g, l.node)
    requires if l.isCycle then ClosesLoop(l.trace) else NodeTargets(l.trace[|l.trace| - 1], g) == []
    ensures Witness(g, l)
  {
    hide Edges, CanExit, NodeTargets;
    forall n | n in l.trace
      ensures !CanExit(g, n)
    {
      var k :| 0 <= k < |l.trace| && l.trace[k] == n;
      TrappedStaysTrapped(g, l.trace, k);
    }
  }

  // --------------------------------------------------------------- back edges

  /** Depth-first walk of stepHasBackEdge: true when `start` is met; otherwise everything
      newly marked is closed under successors, and `start` is not among it. */
  method Explore(name: Name, start: Name, g: Graph, visited0: set<Name>, ghost universe: set<Name>)
    returns (found: bool, visited: set<Name>)
    requires start !in visited0 && visited0 <= universe && name in universe
    requires forall u, v :: (u, v) in Edges(g) ==> v in universe
    ensures visited0 <= visited <= universe && start !in visited
    ensures found ==> Reach(Edges(g), name, start)
    ensures !found ==> name in visited
    ensures !found ==> forall u, v :: u in visited - visited0 && (u, v) in Edges(g) ==> v in visited
    decreases universe - visited0
  {
    hide NodeTargets, Edges, Reach;
    ghost var E := Edges(g);
    EdgesIff(g);
    visited := visited0;
    if name == start {
      ReachRefl(E, start);
      return true, visited;
    }
    if name in visited {
      return false, visited;
    }
    visited := visited + {name};
    var targets := NodeTargets(name, g);
    for i := 0 to |targets|
      invariant visited0 + {name} <= visited <= universe && start !in visited
      invariant forall u, v :: u in visited - visited0 - {name} && (u, v) in E ==> v in visited
      invariant forall k :: 0 <= k < i ==> targets[k] in visited
    {
      assert (name, targets[i]) in E;
      ghost var before := visited;
      found, visited := Explore(targets[i], start, g, visited, universe);
      if found {
        ReachEdge(E, name, targets[i]);
        ReachTrans(E, name, targets[i], start);
        return;
      }
    }
    return false, visited;
  }

  /** The separately written back-edge test answers the same question as ShortestCycleFrom:
      a step that is not a `while` step has a back edge exactly when it lies on a cycle. */
  method StepHasBackEdge(startName: Name, g: Graph) returns (has: bool)
    ensures has <==> startName in g.steps && (g.steps[startName].isWhile || OnCycle(Edges(g), startName))
  {
    hide NodeTargets, Edges, Reach, OnCycle;
    ghost var E := Edges(g);
    EdgesIff(g);
    if startName !in g.steps {
      return false;
    }
    if g.steps[startName].isWhile {
      return true;
    }
    ghost var universe := set e | e in E :: e.1;
    assert forall u, v :: (u, v) in E ==> (u, v).1 in universe;
    var visited: set<Name> := {};
    var targets := NodeTargets(startName, g);
    OnCycleIff(E, startName);
    for i := 0 to |targets|
      invariant visited <= universe && startName !in visited
      invariant forall u, v :: u in visited && (u, v) in E ==> v in visited
      invariant forall k :: 0 <= k < i ==> targets[k] in visited
    {
      assert (startName, targets[i]) in E;
      var found;
      found, visited := Explore(targets[i], startName, g, visited, universe);
      if found {
        return true;
      }
    }
    assert Closed(E, visited);
    forall b | (startName, b) in E && Reach(E, b, startName)
      ensures false
    {
      ClosedContainsReach(E, visited, b, startName);
    }
    return false;
  }
}
