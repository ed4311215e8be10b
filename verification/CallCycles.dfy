/** Tool-call cycles between adapters (workflow/compile_call_edges.go): a coloured depth-first
    search over the call graph and the rotation-invariant key its reports are deduplicated by. */
module CallCycles {
  import opened Names
  import opened Walks

  // ---------------------------------------------------------------- the call graph

  datatype CallEdge = CallEdge(caller: Name, callee: Name, tool: Name, step: Name)

  /** Who may call whom; an adapter calling itself is not counted. */
  ghost function CallGraph(edges: seq<CallEdge>): set<(Name, Name)> {
    set e | e in edges && e.caller != e.callee :: (e.caller, e.callee)
  }

  function Callees(adj: map<Name, seq<Name>>, u: Name): seq<Name> {
    if u in adj then adj[u] else []
  }

  ghost predicate Represents(adj: map<Name, seq<Name>>, G: set<(Name, Name)>) {
    && (forall u, v :: (u, v) in G <==> v in Callees(adj, u))
    && (forall u :: Distinct(Callees(adj, u)))
  }

  /** One adjacency entry per caller and callee, in first-seen order, without self-grants. */
  method AdapterCallAdjacency(edges: seq<CallEdge>) returns (adj: map<Name, seq<Name>>)
    ensures Represents(adj, CallGraph(edges))
    ensures forall u :: u in adj ==> exists e :: e in edges && e.caller == u
  {
    hide Represents;
    adj := map[];
    var seenPair: set<(Name, Name)> := {};
    RepresentsNothing();
    for i := 0 to |edges|
      invariant seenPair == CallGraph(edges[..i])
      invariant Represents(adj, seenPair)
      invariant forall u :: u in adj ==> exists e :: e in edges && e.caller == u
    {
      var e := edges[i];
      assert edges[..i + 1] == edges[..i] + [e];
      var pair := (e.caller, e.callee);
      if e.caller != e.callee && pair !in seenPair {
        AddCallee(adj, seenPair, e.caller, e.callee);
        seenPair := seenPair + {pair};
        adj := adj[e.caller := Callees(adj, e.caller) + [e.callee]];
      }
    }
    assert edges[..|edges|] == edges;
  }

  lemma RepresentsNothing()
    ensures Represents(map[], {})
  {
  }

  lemma AddCallee(adj: map<Name, seq<Name>>, G: set<(Name, Name)>, u: Name, v: Name)
    requires Represents(adj, G) && (u, v) !in G
    ensures Represents(adj[u := Callees(adj, u) + [v]], G + {(u, v)})
  {
    var adj' := adj[u := Callees(adj, u) + [v]];
    assert forall x :: Callees(adj', x) == if x == u then Callees(adj, u) + [v] else Callees(adj, x);
  }

  /** Adapters in declaration order, then any other caller: every caller is a root. */
  method AdapterCycleRoots(adapterOrder: seq<Name>, edges: seq<CallEdge>, adj: map<Name, seq<Name>>)
    returns (roots: seq<Name>)
    requires forall u :: u in adj ==> exists e :: e in edges && e.caller == u
    ensures adapterOrder <= roots
    ensures forall u :: u in roots <==> u in adapterOrder || u in adj
    ensures var added := roots[|adapterOrder|..];
            Distinct(added) && forall u :: u in added ==> u in adj && u !in adapterOrder
  {
    ghost var added: seq<Name> := [];
    roots := adapterOrder;
    for i := 0 to |edges|
      invariant roots == adapterOrder + added && Distinct(added)
      invariant forall u :: u in added ==> u in adj && u !in adapterOrder
      invariant forall k :: 0 <= k < i && edges[k].caller in adj ==> edges[k].caller in roots
    {
      if edges[i].caller in adj && edges[i].caller !in roots {
        added := added + [edges[i].caller];
        roots := roots + [edges[i].caller];
      }
    }
    assert roots[|adapterOrder|..] == added;
  }

  // ------------------------------------------------------------------------ cycles

  /** Distinct adapters, each calling the next and the last calling the first. */
  ghost predicate SimpleCycle(G: set<(Name, Name)>, c: seq<Name>) {
    Walk(G, c) && Distinct(c) && (c[|c| - 1], c[0]) in G
  }

  /** `i` modulo `n`, for an index that overshoots a sequence of length `n` by less than one turn. */
  function Around(i: nat, n: nat): (r: nat)
    requires i < 2 * n
    ensures r < n && r == i % n
  {
    AroundIsMod(i, n);
    if i < n then i else i - n
  }

  lemma AroundIsMod(i: nat, n: nat)
    requires i < 2 * n
    ensures i % n == if i < n then i else i - n
  {
    if i >= n {
      assert i == n * 1 + (i - n);
    }
  }

  ghost predicate IsRotation(c: seq<Name>, d: seq<Name>, k: nat) {
    && |c| == |d| && k < |c|
    && forall i :: 0 <= i < |c| ==> d[i] == c[Around(i + k, |c|)]
  }

  ghost predicate Rotations(c: seq<Name>, d: seq<Name>) {
    exists k :: IsRotation(c, d, k)
  }

  lemma SimpleCycleIsClosedWalk(G: set<(Name, Name)>, c: seq<Name>) returns (a: Name)
    requires SimpleCycle(G, c)
    ensures OnCycle(G, a)
  {
    a := c[0];
    assert ClosedWalk(G, c + [c[0]], c[0]);
  }

  // --------------------------------------------------------------- the coloured search

  datatype Color = White | Gray | Black

  /** A cycle made of tree edges and one closing edge. */
  ghost predicate ClosedBy(tree: set<(Name, Name)>, c: seq<Name>, closing: (Name, Name)) {
    Walk(tree, c) && Distinct(c) && closing == (c[|c| - 1], c[0])
  }

  /** The state of the search: `tree` and `back` are the edges followed and the edges that closed
      a cycle, `finish` the adapters fully explored, earliest first. */
  datatype State = State(color: map<Name, Color>, stack: seq<Name>, cycles: seq<seq<Name>>,
                         tree: set<(Name, Name)>, back: seq<(Name, Name)>, finish: seq<Name>)

  /** Colours, stack and finish order describe the same partition. */
  ghost predicate Coloured(s: State) {
    && (forall n :: n in s.stack <==> n in s.color && s.color[n] == Gray)
    && (forall n :: n in s.finish <==> n in s.color && s.color[n] == Black)
    && (forall n :: n in s.color ==> s.color[n] != White)
    && Distinct(s.stack) && Distinct(s.finish)
  }

  /** Each edge out of a coloured adapter was classified at most once: followed, or closing one cycle. */
  ghost predicate Classified(G: set<(Name, Name)>, s: State) {
    && (s.stack == [] || Walk(s.tree, s.stack))
    && (forall e :: e in s.tree ==> e in G && e.0 in s.color)
    && (forall e :: e in s.back ==> e in G && e.0 in s.color && e !in s.tree)
    && Distinct(s.back) && |s.back| == |s.cycles|
    && (forall i :: 0 <= i < |s.cycles| ==> ClosedBy(s.tree, s.cycles[i], s.back[i]))
  }

  /** Every call of a finished adapter goes to one finished earlier, or closed a cycle. */
  ghost predicate FinishedInOrder(G: set<(Name, Name)>, s: State) {
    forall i, v :: 0 <= i < |s.finish| && (s.finish[i], v) in G ==> v in s.finish[..i] || (s.finish[i], v) in s.back
  }

  ghost predicate Consistent(G: set<(Name, Name)>, s: State) {
    Coloured(s) && Classified(G, s) && FinishedInOrder(G, s)
  }

  /** `t` continues `s`: nothing is forgotten, and besides the edges in `own` only edges out of adapters
      white in `s` were classified. */
  ghost predicate Continues(s: State, t: State, own: set<(Name, Name)>) {
    && s.color.Keys <= t.color.Keys && s.tree <= t.tree
    && s.cycles <= t.cycles && s.back <= t.back && s.finish <= t.finish
    && (forall e :: e in t.tree && e !in s.tree ==> e.0 !in s.color || e in own)
    && (forall e :: e in t.back && e !in s.back ==> e.0 !in s.color || e in own)
  }

  ghost function Follow(s: State, e: (Name, Name)): State {
    s.(tree := s.tree + {e})
  }

  ghost function Enter(s: State, n: Name): State {
    s.(color := s.color[n := Gray], stack := s.stack + [n])
  }

  ghost function Close(s: State, cycle: seq<Name>, e: (Name, Name)): State {
    s.(cycles := s.cycles + [cycle], back := s.back + [e])
  }

  ghost function Leave(s: State, n: Name): State
    requires s.stack != []
  {
    s.(color := s.color[n := Black], stack := s.stack[..|s.stack| - 1], finish := s.finish + [n])
  }

  lemma WalkInLarger(E: set<(Name, Name)>, F: set<(Name, Name)>, p: seq<Name>)
    requires E <= F && Walk(E, p)
    ensures Walk(F, p)
  {
  }

  lemma FollowKeeps(G: set<(Name, Name)>, s: State, e: (Name, Name))
    requires Consistent(G, s) && e in G && e.0 in s.color && e !in s.back
    ensures Consistent(G, Follow(s, e))
  {
    hide Walk, Coloured;
    var t := Follow(s, e);
    ColouredSame(s, t);
    if s.stack != [] {
      WalkInLarger(s.tree, t.tree, s.stack);
    }
    forall i | 0 <= i < |s.cycles|
      ensures ClosedBy(t.tree, s.cycles[i], s.back[i])
    {
      WalkInLarger(s.tree, t.tree, s.cycles[i]);
    }
  }

  lemma EnterColoured(s: State, n: Name)
    requires Coloured(s) && n !in s.color
    ensures Coloured(Enter(s, n))
  {
  }

  lemma EnterKeeps(G: set<(Name, Name)>, s: State, n: Name)
    requires Consistent(G, s) && n !in s.color
    requires s.stack == [] || (s.stack[|s.stack| - 1], n) in s.tree
    ensures Consistent(G, Enter(s, n))
  {
    hide Coloured;
    EnterColoured(s, n);
    assert Walk(s.tree, s.stack + [n]);
  }

  /** Re-entering an adapter on the stack closes a cycle that no other edge has closed. */
  lemma CloseKeeps(G: set<(Name, Name)>, s: State, k: nat, e: (Name, Name))
    requires Consistent(G, s) && k < |s.stack| && e == (s.stack[|s.stack| - 1], s.stack[k])
    requires e in G && e !in s.tree && e !in s.back
    ensures Consistent(G, Close(s, s.stack[k..], e))
  {
    hide Coloured, Walk, ClosedBy, FinishedInOrder;
    var c := s.stack[k..];
    var t := Close(s, c, e);
    ColouredSame(s, t);
    ColouredDistinct(s);
    SubWalk(s.tree, s.stack, k, |s.stack| - 1);
    assert c == s.stack[k..|s.stack| - 1 + 1];
    assert forall i :: 0 <= i < |c| ==> c[i] == s.stack[k + i];
    ClosedByWalk(s.tree, c, e);
    forall i | 0 <= i < |t.cycles|
      ensures ClosedBy(t.tree, t.cycles[i], t.back[i])
    {
      if i < |s.cycles| {
        assert t.cycles[i] == s.cycles[i] && t.back[i] == s.back[i];
      }
    }
    FinishedWithMore(G, s, t);
  }

  lemma ClosedByWalk(tree: set<(Name, Name)>, c: seq<Name>, e: (Name, Name))
    requires Walk(tree, c) && Distinct(c) && e == (c[|c| - 1], c[0])
    ensures ClosedBy(tree, c, e)
  {
  }

  lemma FinishedWithMore(G: set<(Name, Name)>, s: State, t: State)
    requires FinishedInOrder(G, s) && t.finish == s.finish && s.back <= t.back
    ensures FinishedInOrder(G, t)
  {
  }

  lemma ColouredSame(s: State, t: State)
    requires Coloured(s) && s.color == t.color && s.stack == t.stack && s.finish == t.finish
    ensures Coloured(t)
  {
  }

  lemma ColouredDistinct(s: State)
    requires Coloured(s)
    ensures Distinct(s.stack) && forall i :: 0 <= i < |s.stack| ==> s.stack[i] in s.color
  {
  }

  lemma LeaveColoured(s: State, n: Name)
    requires Coloured(s) && s.stack != [] && s.stack[|s.stack| - 1] == n
    ensures Coloured(Leave(s, n))
  {
    var init := s.stack[..|s.stack| - 1];
    assert s.stack == init + [n];
    assert n in s.stack && n !in s.finish;
  }

  lemma LeaveKeeps(G: set<(Name, Name)>, s: State, n: Name)
    requires Consistent(G, s) && s.stack != [] && s.stack[|s.stack| - 1] == n
    requires forall v :: (n, v) in G ==> v in s.finish || (n, v) in s.back
    ensures Consistent(G, Leave(s, n))
  {
    hide Coloured;
    LeaveColoured(s, n);
    var t := Leave(s, n);
    ColouredDistinct(s);
    if t.stack != [] {
      SubWalk(s.tree, s.stack, 0, |s.stack| - 2);
      assert t.stack == s.stack[0..|s.stack| - 2 + 1];
    }
    forall i, v | 0 <= i < |t.finish| && (t.finish[i], v) in G
      ensures v in t.finish[..i] || (t.finish[i], v) in t.back
    {
      if i < |s.finish| {
        assert t.finish[i] == s.finish[i] && t.finish[..i] == s.finish[..i];
      } else {
        assert t.finish[..i] == s.finish;
      }
    }
  }

  /** The suffix of the stack that starts at the first `entry`; nothing when it is not on the stack. */
  method StackCycle(stack: seq<Name>, entry: Name) returns (cycle: seq<Name>)
    ensures cycle == [] <==> entry !in stack
    ensures |cycle| <= |stack| && cycle == stack[|stack| - |cycle|..]
    ensures cycle != [] ==> cycle[0] == entry && entry !in stack[..|stack| - |cycle|]
  {
    for i := 0 to |stack|
      invariant entry !in stack[..i]
    {
      if stack[i] == entry {
        return stack[i..];
      }
      assert stack[..i + 1] == stack[..i] + [stack[i]];
    }
    assert stack[..|stack|] == stack;
    return [];
  }

  /** The variables the recursive closure of findCallCycles shares. */
  class Finder {
    const adj: map<Name, seq<Name>>
    var color: map<Name, Color>
    var stack: seq<Name>
    var cycles: seq<seq<Name>>
    ghost var tree: set<(Name, Name)>
    ghost var back: seq<(Name, Name)>
    ghost var finish: seq<Name>

    ghost function View(): State
      reads this
    {
      State(color, stack, cycles, tree, back, finish)
    }

    constructor (adj: map<Name, seq<Name>>)
      ensures this.adj == adj && View() == State(map[], [], [], {}, [], [])
    {
      this.adj := adj;
      color, stack, cycles := map[], [], [];
      tree, back, finish := {}, [], [];
    }

    method Push(n: Name)
      modifies this
      ensures View() == Enter(old(View()), n)
    {
      color := color[n := Gray];
      stack := stack + [n];
    }

    method Pop(n: Name)
      requires stack != []
      modifies this
      ensures View() == Leave(old(View()), n)
    {
      stack := stack[..|stack| - 1];
      color := color[n := Black];
      finish := finish + [n];
    }

    /** Explore everything white below `from`. The stack comes back as it was, `from` is finished, and
        each edge that re-entered the stack was reported as one cycle. */
    method Dfs(from: Name, ghost G: set<(Name, Name)>, ghost nodes: set<Name>)
      requires Represents(adj, G) && Consistent(G, View())
      requires from !in color && from in nodes && color.Keys <= nodes && forall u, v :: (u, v) in G ==> v in nodes
      requires stack == [] || (stack[|stack| - 1], from) in tree
      modifies this
      ensures Consistent(G, View()) && Continues(old(View()), View(), {})
      ensures stack == old(stack) && from in finish && color.Keys <= nodes
      decreases nodes - color.Keys, 1
    {
      hide Consistent, Represents, Continues;
      ghost var s0 := View();
      EnterContinues(s0, from);
      EnterKeeps(G, s0, from);
      NoEdgesFromWhite(G, s0, from);
      Push(from);
      assert from in nodes - s0.color.Keys && from !in nodes - color.Keys;
      ScanCallees(from, G, nodes, s0);
      LeaveKeeps(G, View(), from);
      LeaveContinues(s0, View(), from);
      Pop(from);
    }

    /** The loop of the closure over the callees of the adapter on top of the stack. */
    method ScanCallees(from: Name, ghost G: set<(Name, Name)>, ghost nodes: set<Name>, ghost s0: State)
      requires Represents(adj, G) && Consistent(G, View()) && Continues(s0, View(), {})
      requires stack == s0.stack + [from] && from !in s0.color && from in color
      requires forall v :: (from, v) !in tree && (from, v) !in back
      requires color.Keys <= nodes && forall u, v :: (u, v) in G ==> v in nodes
      modifies this
      ensures Consistent(G, View()) && Continues(s0, View(), {})
      ensures stack == old(stack) && old(color.Keys) <= color.Keys <= nodes
      ensures forall v :: (from, v) in G ==> v in finish || (from, v) in back
      decreases nodes - color.Keys, 3
    {
      hide Consistent, Represents, Continues;
      var callees := Callees(adj, from);
      EdgesFrom(adj, G, from);
      for i := 0 to |callees|
        invariant Consistent(G, View()) && old(color.Keys) <= color.Keys <= nodes
        invariant stack == s0.stack + [from]
        invariant Continues(s0, View(), {})
        invariant forall v :: (from, v) in tree || (from, v) in back ==> v in callees[..i]
        invariant forall k :: 0 <= k < i ==> callees[k] in finish || (from, callees[k]) in back
      {
        ghost var s := View();
        assert callees[i] !in callees[..i];
        FollowEdge(from, callees[i], G, nodes);
        assert callees[..i + 1] == callees[..i] + [callees[i]];
        ContinuesColours(s, View(), {(from, callees[i])});
        LoopStep(s0, s, View(), from, callees, i);
      }
      assert callees[..|callees|] == callees;
    }

    /** One edge of the adapter on top of the stack: it closes a cycle, is followed, or leads to finished ground. */
    method FollowEdge(from: Name, to: Name, ghost G: set<(Name, Name)>, ghost nodes: set<Name>)
      requires Represents(adj, G) && Consistent(G, View())
      requires stack != [] && stack[|stack| - 1] == from && from in color && (from, to) in G
      requires (from, to) !in tree && (from, to) !in back
      requires color.Keys <= nodes && forall u, v :: (u, v) in G ==> v in nodes
      modifies this
      ensures Consistent(G, View()) && Continues(old(View()), View(), {(from, to)})
      ensures stack == old(stack) && color.Keys <= nodes
      ensures to in finish || (from, to) in back
      decreases nodes - color.Keys, 2
    {
      hide Consistent, Represents;
      ghost var s := View();
      ColourFacts(G, s, to);
      if to in color && color[to] == Gray {
        var cycle := StackCycle(stack, to);
        ghost var k := |stack| - |cycle|;
        CloseKeeps(G, s, k, (from, to));
        cycles := cycles + [cycle];
        back := back + [(from, to)];
        assert back[|back| - 1] == (from, to);
      } else if to !in color {
        FollowKeeps(G, s, (from, to));
        tree := tree + {(from, to)};
        Dfs(to, G, nodes);
      }
    }
  }

  lemma EnterContinues(s: State, n: Name)
    ensures Continues(s, Enter(s, n), {})
  {
  }

  lemma LeaveContinues(s0: State, s: State, n: Name)
    requires Continues(s0, s, {}) && s.stack != []
    ensures Continues(s0, Leave(s, n), {})
  {
  }

  lemma ContinuesColours(s: State, t: State, own: set<(Name, Name)>)
    requires Continues(s, t, own)
    ensures s.color.Keys <= t.color.Keys
  {
  }

  /** The loop invariants of Dfs after one more edge. */
  lemma LoopStep(s0: State, s: State, t: State, from: Name, callees: seq<Name>, i: nat)
    requires i < |callees| && from !in s0.color && from in s.color
    requires Continues(s0, s, {}) && Continues(s, t, {(from, callees[i])})
    requires forall v :: (from, v) in s.tree || (from, v) in s.back ==> v in callees[..i]
    requires forall k :: 0 <= k < i ==> callees[k] in s.finish || (from, callees[k]) in s.back
    ensures Continues(s0, t, {})
    ensures forall v :: (from, v) in t.tree || (from, v) in t.back ==> v in callees[..i] || v == callees[i]
    ensures forall k :: 0 <= k < i ==> callees[k] in t.finish || (from, callees[k]) in t.back
  {
    assert forall x :: x in s.finish ==> x in t.finish;
    assert forall x :: x in s.back ==> x in t.back;
  }

  lemma EdgesFrom(adj: map<Name, seq<Name>>, G: set<(Name, Name)>, u: Name)
    requires Represents(adj, G)
    ensures forall v :: (u, v) in G <==> v in Callees(adj, u)
    ensures Distinct(Callees(adj, u))
  {
  }

  lemma NoEdgesFromWhite(G: set<(Name, Name)>, s: State, n: Name)
    requires Consistent(G, s) && n !in s.color
    ensures forall v :: (n, v) !in s.tree && (n, v) !in s.back
  {
  }

  lemma ColourFacts(G: set<(Name, Name)>, s: State, n: Name)
    requires Consistent(G, s)
    ensures n in s.color && s.color[n] == Gray ==> n in s.stack
    ensures n in s.color && s.color[n] != Gray ==> n in s.finish
  {
  }

  // ------------------------------------------------------------------ what is reported

  /** Every report is a genuine simple cycle. */
  ghost predicate AllSimple(G: set<(Name, Name)>, cycles: seq<seq<Name>>) {
    forall i :: 0 <= i < |cycles| ==> SimpleCycle(G, cycles[i])
  }

  /** No cycle is reported twice, not even starting from another adapter. */
  ghost predicate NoRepeats(cycles: seq<seq<Name>>) {
    forall i, j :: 0 <= i < j < |cycles| ==> !Rotations(cycles[i], cycles[j])
  }

  lemma ReportsAreSimple(G: set<(Name, Name)>, s: State)
    requires Consistent(G, s)
    ensures AllSimple(G, s.cycles)
  {
    forall i | 0 <= i < |s.cycles|
      ensures SimpleCycle(G, s.cycles[i])
    {
      assert ClosedBy(s.tree, s.cycles[i], s.back[i]);
      WalkInLarger(s.tree, G, s.cycles[i]);
      assert s.back[i] in s.back;
    }
  }

  /** The closing edge of a cycle is an edge of each of its rotations. */
  lemma ClosingEdgeSurvives(c: seq<Name>, d: seq<Name>, k: nat, tree: set<(Name, Name)>, closing: (Name, Name))
    requires IsRotation(c, d, k) && ClosedBy(tree, d, closing)
    ensures (c[|c| - 1], c[0]) in tree || (c[|c| - 1], c[0]) == closing
  {
    var n := |c|;
    var m := n - 1 - k;
    assert d[m] == c[Around(m + k, n)] == c[n - 1];
    if k == 0 {
      assert d[0] == c[Around(0, n)];
    } else {
      assert d[m + 1] == c[Around(n, n)] == c[0];
      assert (d[m], d[m + 1]) in tree;
    }
  }

  lemma RotationsShareClosing(tree: set<(Name, Name)>, c: seq<Name>, d: seq<Name>, e: (Name, Name), f: (Name, Name))
    requires ClosedBy(tree, c, e) && ClosedBy(tree, d, f) && Rotations(c, d)
    ensures e in tree || e == f
  {
    var k :| IsRotation(c, d, k);
    ClosingEdgeSurvives(c, d, k, tree, f);
  }

  lemma ReportsDoNotRepeat(G: set<(Name, Name)>, s: State)
    requires Consistent(G, s)
    ensures NoRepeats(s.cycles)
  {
    hide Coloured, FinishedInOrder, ClosedBy, Rotations, Walk;
    forall i, j | 0 <= i < j < |s.cycles|
      ensures !Rotations(s.cycles[i], s.cycles[j])
    {
      assert ClosedBy(s.tree, s.cycles[i], s.back[i]) && ClosedBy(s.tree, s.cycles[j], s.back[j]);
      assert s.back[i] in s.back && s.back[i] != s.back[j];
      if Rotations(s.cycles[i], s.cycles[j]) {
        RotationsShareClosing(s.tree, s.cycles[i], s.cycles[j], s.back[i], s.back[j]);
      }
    }
  }

  /** No step of the walk is an edge that closed a cycle. */
  ghost predicate AvoidsBack(s: State, p: seq<Name>) {
    forall i, j :: 0 <= i && j == i + 1 && j < |p| ==> (p[i], p[j]) !in s.back
  }

  /** Without back edges, each step of a walk through finished adapters goes to one finished earlier. */
  lemma {:induction false} WalkGoesEarlier(G: set<(Name, Name)>, s: State, p: seq<Name>, i: nat, a: nat)
    returns (b: nat)
    requires FinishedInOrder(G, s) && AvoidsBack(s, p) && Walk(G, p) && i < |p|
    requires a < |s.finish| && s.finish[a] == p[0]
    ensures b < |s.finish| && s.finish[b] == p[i] && b + i <= a
  {
    if i == 0 {
      b := a;
    } else {
      var c := WalkGoesEarlier(G, s, p, i - 1, a);
      assert (p[i - 1], p[i]) in G;
      b :| 0 <= b < c && s.finish[b] == p[i];
    }
  }

  /** Step `i` of the walk is the call that closes the cycle. */
  ghost predicate ClosesAt(c: seq<Name>, p: seq<Name>, i: nat) {
    i + 1 < |p| && c != [] && c[|c| - 1] == p[i] && c[0] == p[i + 1]
  }

  /** The walk takes the closing call of one of the cycles. */
  ghost predicate Crosses(cycles: seq<seq<Name>>, p: seq<Name>) {
    exists c, i: nat :: c in cycles && ClosesAt(c, p, i)
  }

  lemma LoopMeetsBack(G: set<(Name, Name)>, s: State, p: seq<Name>, a: Name)
    requires Coloured(s) && FinishedInOrder(G, s) && ClosedWalk(G, p, a)
    requires forall u, v :: (u, v) in G ==> u in s.finish
    ensures !AvoidsBack(s, p)
  {
    assert (p[0], p[1]) in G;
    var i :| 0 <= i < |s.finish| && s.finish[i] == p[0];
    if AvoidsBack(s, p) {
      var j := WalkGoesEarlier(G, s, p, |p| - 1, i);
    }
  }

  /** If every caller is finished, each closed walk takes the closing call of some report. */
  lemma ClosedWalkCrosses(G: set<(Name, Name)>, s: State, p: seq<Name>, a: Name)
    requires Consistent(G, s) && ClosedWalk(G, p, a)
    requires forall u, v :: (u, v) in G ==> u in s.finish
    ensures Crosses(s.cycles, p)
  {
    hide Coloured, FinishedInOrder;
    LoopMeetsBack(G, s, p, a);
    var i, j :| 0 <= i && j == i + 1 && j < |p| && (p[i], p[j]) in s.back;
    var k :| 0 <= k < |s.back| && s.back[k] == (p[i], p[j]);
    assert ClosedBy(s.tree, s.cycles[k], s.back[k]);
    assert s.cycles[k] in s.cycles && ClosesAt(s.cycles[k], p, i);
  }

  /** An adapter on a closed walk and the adapters of a report whose closing call it takes call each other. */
  lemma CrossingIsMutual(G: set<(Name, Name)>, c: seq<Name>, p: seq<Name>, a: Name, i: nat)
    requires ClosedWalk(G, p, a) && ClosesAt(c, p, i)
    ensures Reach(G, a, c[0]) && Reach(G, c[0], a)
  {
    SubWalk(G, p, 0, i + 1);
    SubWalk(G, p, i + 1, |p| - 1);
  }

  /** Every adapter that can call itself through others can call, and be called by, an adapter of some report. */
  ghost predicate Covers(G: set<(Name, Name)>, cycles: seq<seq<Name>>) {
    forall a :: OnCycle(G, a) ==> exists c :: c in cycles && c != [] && Reach(G, a, c[0]) && Reach(G, c[0], a)
  }

  lemma CrossedMeansCovered(G: set<(Name, Name)>, cycles: seq<seq<Name>>)
    requires forall p, a :: ClosedWalk(G, p, a) ==> Crosses(cycles, p)
    ensures Covers(G, cycles)
  {
    hide ClosedWalk, Reach, ClosesAt;
    forall a | OnCycle(G, a)
      ensures exists c :: c in cycles && c != [] && Reach(G, a, c[0]) && Reach(G, c[0], a)
    {
      var p :| ClosedWalk(G, p, a);
      var c, i: nat :| c in cycles && ClosesAt(c, p, i);
      ClosesNonEmpty(c, p, i);
      CrossingIsMutual(G, c, p, a, i);
    }
  }

  lemma ClosesNonEmpty(c: seq<Name>, p: seq<Name>, i: nat)
    requires ClosesAt(c, p, i)
    ensures c != []
  {
  }

  /** Every closed walk takes the closing call of a report, so each knot of adapters that call each other has
      one; in particular a cycle is reported exactly when the call graph has one. Every report is a simple cycle, and
      no two reports are rotations of each other. */
  method FindCallCycles(adj: map<Name, seq<Name>>, roots: seq<Name>, ghost G: set<(Name, Name)>)
    returns (cycles: seq<seq<Name>>)
    requires Represents(adj, G) && forall u :: u in adj ==> u in roots
    ensures forall p, a :: ClosedWalk(G, p, a) ==> Crosses(cycles, p)
    ensures Covers(G, cycles)
    ensures cycles != [] <==> exists a :: OnCycle(G, a)
    ensures AllSimple(G, cycles) && NoRepeats(cycles)
  {
    hide Represents, Consistent, SimpleCycle, Rotations, OnCycle, Crosses, ClosedWalk, Covers;
    var finder := new Finder(adj);
    ghost var nodes := (set n | n in roots) + set e | e in G :: e.1;
    assert forall u, v :: (u, v) in G ==> (u, v).1 in nodes;
    StartConsistent(G);
    for i := 0 to |roots|
      invariant finder.adj == adj && fresh(finder)
      invariant Consistent(G, finder.View()) && finder.stack == [] && finder.color.Keys <= nodes
      invariant forall k :: 0 <= k < i ==> roots[k] in finder.finish
    {
      ColourFacts(G, finder.View(), roots[i]);
      if roots[i] !in finder.color {
        ghost var before := finder.finish;
        finder.Dfs(roots[i], G, nodes);
        assert forall n :: n in before ==> n in finder.finish;
      } else {
        OffStack(G, finder.View(), roots[i]);
      }
    }
    cycles := finder.cycles;
    ghost var s := finder.View();
    CallersFinished(adj, G, s, roots);
    ReportsAreExact(G, s);
  }

  /** What a finished search has reported. */
  lemma ReportsAreExact(G: set<(Name, Name)>, s: State)
    requires Consistent(G, s) && forall u, v :: (u, v) in G ==> u in s.finish
    ensures forall p, a :: ClosedWalk(G, p, a) ==> Crosses(s.cycles, p)
    ensures Covers(G, s.cycles)
    ensures s.cycles != [] <==> exists a :: OnCycle(G, a)
    ensures AllSimple(G, s.cycles) && NoRepeats(s.cycles)
  {
    hide Consistent, SimpleCycle, Rotations, ClosedWalk;
    ReportsAreSimple(G, s);
    ReportsDoNotRepeat(G, s);
    forall p, a | ClosedWalk(G, p, a)
      ensures Crosses(s.cycles, p)
    {
      ClosedWalkCrosses(G, s, p, a);
    }
    CrossedMeansCovered(G, s.cycles);
    if s.cycles != [] {
      var a := SimpleCycleIsClosedWalk(G, s.cycles[0]);
    }
  }

  lemma StartConsistent(G: set<(Name, Name)>)
    ensures Consistent(G, State(map[], [], [], {}, [], []))
  {
  }

  lemma OffStack(G: set<(Name, Name)>, s: State, n: Name)
    requires Consistent(G, s) && s.stack == [] && n in s.color
    ensures n in s.finish
  {
  }

  lemma CallersFinished(adj: map<Name, seq<Name>>, G: set<(Name, Name)>, s: State, roots: seq<Name>)
    requires Represents(adj, G) && forall u :: u in adj ==> u in roots
    requires forall k :: 0 <= k < |roots| ==> roots[k] in s.finish
    ensures forall u, v :: (u, v) in G ==> u in s.finish
  {
  }

  // ------------------------------------------------------------------- canonical keys

  /** The cycle rotated to start at position `start`. */
  function RotateTo(c: seq<Name>, start: nat): (d: seq<Name>)
    requires start < |c|
    ensures |d| == |c| && forall i :: 0 <= i < |c| ==> d[i] == c[Around(start + i, |c|)]
  {
    seq(|c|, i requires 0 <= i < |c| => c[Around(start + i, |c|)])
  }

  ghost predicate LeastAt(c: seq<Name>, start: nat) {
    start < |c| && forall i :: 0 <= i < |c| && i != start ==> c[i] == c[start] || Less(c[start], c[i])
  }

  /** The first position among the first `k` that holds a smallest adapter. */
  function LeastIndex(c: seq<Name>, k: nat): (start: nat)
    requires 0 < k <= |c|
    ensures start < k
  {
    if k == 1 then 0
    else
      var start := LeastIndex(c, k - 1);
      if Less(c[k - 1], c[start]) then k - 1 else start
  }

  lemma {:induction false} LeastIndexIsLeast(c: seq<Name>, k: nat)
    requires 0 < k <= |c|
    ensures LeastAt(c[..k], LeastIndex(c, k))
  {
    hide Less;
    if k > 1 {
      LeastIndexIsLeast(c, k - 1);
      var start, p := LeastIndex(c, k - 1), c[..k - 1];
      assert forall i :: 0 <= i < k - 1 ==> c[..k][i] == p[i];
      LessTotal(c[k - 1], c[start]);
      if Less(c[k - 1], c[start]) {
        forall i | 0 <= i < k - 1 && c[i] != c[start]
          ensures Less(c[k - 1], c[i])
        {
          assert p[i] == c[i] && p[start] == c[start];
          LessTransitive(c[k - 1], c[start], c[i]);
        }
      }
    }
  }

  /** The cycle rotated to its smallest adapter. The empty cycle is its own key. */
  function Canonical(c: seq<Name>): seq<Name> {
    if c == [] then [] else RotateTo(c, LeastIndex(c, |c|))
  }

  /** The first loop of canonicalCycleKey. */
  method SmallestPosition(cycle: seq<Name>) returns (start: nat)
    requires cycle != []
    ensures start == LeastIndex(cycle, |cycle|)
  {
    hide Less;
    start := 0;
    LessIrreflexive(cycle[0]);
    for i := 0 to |cycle|
      invariant start == if i == 0 then 0 else LeastIndex(cycle, i)
    {
      if Less(cycle[i], cycle[start]) {
        start := i;
      }
    }
  }

  /** strings.Join with an arrow. */
  function Joined(names: seq<Name>): string {
    if names == [] then "" else if |names| == 1 then names[0] else names[0] + "->" + Joined(names[1..])
  }

  function Key(cycle: seq<Name>): string {
    Joined(Canonical(cycle))
  }

  method CanonicalCycleKey(cycle: seq<Name>) returns (key: string)
    ensures key == Key(cycle)
  {
    hide LeastIndex, RotateTo, Joined;
    var names: seq<Name> := [];
    if cycle != [] {
      var start := SmallestPosition(cycle);
      for i := 0 to |cycle|
        invariant |names| == i && forall k :: 0 <= k < i ==> names[k] == cycle[Around(start + k, |cycle|)]
      {
        AroundIsMod(start + i, |cycle|);
        names := names + [cycle[(start + i) % |cycle|]];
      }
      assert names == RotateTo(cycle, start);
    }
    return Joined(names);
  }

  /** Rotations of one another have the same smallest adapter, at matching positions. */
  lemma LeastMatches(c: seq<Name>, d: seq<Name>, k: nat, i: nat, j: nat)
    requires Distinct(c) && IsRotation(c, d, k) && LeastAt(c, i) && LeastAt(d, j)
    ensures Around(j + k, |c|) == i
  {
    hide Less;
    var n := |c|;
    var m := Around(j + k, n);
    assert d[j] == c[m];
    var back := Around(i + n - k, n);
    assert Around(back + k, n) == i && d[back] == c[i];
    LessExactlyOne(c[i], c[m]);
  }

  /** For simple cycles the canonical key is a complete invariant: equal keys exactly for rotations. */
  lemma CanonicalKeyIffRotations(c: seq<Name>, d: seq<Name>, i: nat, j: nat)
    requires Distinct(c) && Distinct(d) && LeastAt(c, i) && LeastAt(d, j)
    ensures RotateTo(c, i) == RotateTo(d, j) <==> Rotations(c, d)
  {
    hide LeastAt;
    LeastInRange(c, i);
    LeastInRange(d, j);
    if Rotations(c, d) {
      var k :| IsRotation(c, d, k);
      LeastMatches(c, d, k, i, j);
      SameKey(c, d, k, i, j);
    }
    if RotateTo(c, i) == RotateTo(d, j) {
      KeyGivesRotation(c, d, i, j);
    }
  }

  lemma LeastInRange(c: seq<Name>, i: nat)
    requires LeastAt(c, i)
    ensures i < |c|
  {
  }

  lemma SameKey(c: seq<Name>, d: seq<Name>, k: nat, i: nat, j: nat)
    requires IsRotation(c, d, k) && i < |c| && j < |d| && Around(j + k, |c|) == i
    ensures RotateTo(c, i) == RotateTo(d, j)
  {
    var n := |c|;
    forall x | 0 <= x < n
      ensures RotateTo(d, j)[x] == RotateTo(c, i)[x]
    {
      assert Around(Around(j + x, n) + k, n) == Around(i + x, n);
    }
  }

  lemma KeyGivesRotation(c: seq<Name>, d: seq<Name>, i: nat, j: nat)
    requires i < |c| && j < |d| && RotateTo(c, i) == RotateTo(d, j)
    ensures Rotations(c, d)
  {
    var n := |c|;
    var k := Around(i + n - j, n);
    forall x | 0 <= x < n
      ensures d[x] == c[Around(x + k, n)]
    {
      var y := Around(x + n - j, n);
      assert Around(j + y, n) == x && RotateTo(d, j)[y] == d[x];
      assert Around(i + y, n) == Around(x + k, n);
    }
    assert IsRotation(c, d, k);
  }

  /** Two simple cycles have the same canonical key exactly when they are rotations of each other. */
  lemma CanonicalIffRotations(c: seq<Name>, d: seq<Name>)
    requires c != [] && d != [] && Distinct(c) && Distinct(d)
    ensures Canonical(c) == Canonical(d) <==> Rotations(c, d)
  {
    hide LeastAt, LeastIndex, Rotations;
    LeastIndexIsLeast(c, |c|);
    LeastIndexIsLeast(d, |d|);
    assert c[..|c|] == c && d[..|d|] == d;
    CanonicalKeyIffRotations(c, d, LeastIndex(c, |c|), LeastIndex(d, |d|));
  }

  // ------------------------------------------------------------------- keys as strings

  ghost predicate ArrowAt(s: string, i: nat) {
    i + 1 < |s| && s[i] == '-' && s[i + 1] == '>'
  }

  ghost predicate ArrowFree(name: Name) {
    forall i: nat :: !ArrowAt(name, i)
  }

  ghost predicate Arrowless(names: seq<Name>) {
    forall n :: n in names ==> ArrowFree(n)
  }

  /** The first arrow of a joined key follows the first name: no arrow lies in the name, or half in it. */
  lemma FirstArrow(name: Name, rest: string)
    requires ArrowFree(name)
    ensures ArrowAt(name + "->" + rest, |name|)
    ensures forall i: nat :: i < |name| ==> !ArrowAt(name + "->" + rest, i)
  {
    var s := name + "->" + rest;
    assert s[|name|] == '-' && s[|name| + 1] == '>';
    forall i: nat | i < |name|
      ensures !ArrowAt(s, i)
    {
      assert !ArrowAt(name, i);
    }
  }

  lemma TwoNames(names: seq<Name>)
    requires |names| > 1
    ensures Joined(names) == names[0] + "->" + Joined(names[1..])
  {
  }

  /** Names without arrows can be read back from the joined key. */
  lemma {:induction false} JoinedInjective(a: seq<Name>, b: seq<Name>)
    requires a != [] && b != [] && Arrowless(a) && Arrowless(b)
    requires Joined(a) == Joined(b)
    ensures a == b
  {
    hide ArrowFree, ArrowAt, Joined;
    assert a[0] in a && b[0] in b;
    if |a| == 1 || |b| == 1 {
      OneName(a, b);
    } else {
      TwoNames(a);
      TwoNames(b);
      FirstArrow(a[0], Joined(a[1..]));
      FirstArrow(b[0], Joined(b[1..]));
      var s := Joined(a);
      assert |a[0]| == |b[0]|;
      assert a[0] == s[..|a[0]|] && b[0] == s[..|b[0]|];
      assert Joined(a[1..]) == s[|a[0]| + 2..] && Joined(b[1..]) == s[|b[0]| + 2..];
      JoinedInjective(a[1..], b[1..]);
      assert a == [a[0]] + a[1..] && b == [b[0]] + b[1..];
    }
  }

  lemma OneName(a: seq<Name>, b: seq<Name>)
    requires a != [] && b != [] && (|a| == 1 || |b| == 1) && ArrowFree(a[0]) && ArrowFree(b[0])
    requires Joined(a) == Joined(b)
    ensures a == b
  {
    if |a| > 1 {
      FirstArrow(a[0], Joined(a[1..]));
    }
    if |b| > 1 {
      FirstArrow(b[0], Joined(b[1..]));
    }
  }

  /** Simple cycles over names without arrows have the same key exactly when they are rotations of each other; that
      rotations have the same key holds for any names. */
  lemma KeyIffRotations(c: seq<Name>, d: seq<Name>)
    requires c != [] && d != [] && Distinct(c) && Distinct(d)
    ensures Rotations(c, d) ==> Key(c) == Key(d)
    ensures Arrowless(c) && Arrowless(d) ==> (Key(c) == Key(d) <==> Rotations(c, d))
  {
    hide Rotations, ArrowFree, Joined, Canonical;
    CanonicalIffRotations(c, d);
    CanonicalNames(c);
    CanonicalNames(d);
    if Key(c) == Key(d) && Arrowless(c) && Arrowless(d) {
      JoinedInjective(Canonical(c), Canonical(d));
    }
  }

  lemma CanonicalNames(c: seq<Name>)
    requires c != []
    ensures Canonical(c) != [] && forall n :: n in Canonical(c) ==> n in c
  {
    hide LeastIndex;
    LeastIndexIsLeast(c, |c|);
  }

  lemma KeyOfTwo(x: Name, y: Name)
    requires !Less(y, x)
    ensures Key([x, y]) == x + "->" + y
  {
    hide Less;
    LessIrreflexive(x);
    assert LeastIndex([x, y], 1) == 0 && LeastIndex([x, y], 2) == 0;
    assert RotateTo([x, y], 0) == [x, y] && Canonical([x, y]) == [x, y];
    TwoNames([x, y]);
    assert [x, y][1..] == [y] && Joined([y]) == y;
  }

  lemma DedupeTwo(c: seq<Name>, d: seq<Name>)
    requires Key(c) == Key(d)
    ensures Dedupe([c, d]) == [c]
  {
    hide Key;
    var one: seq<seq<Name>> := [c];
    assert [c, d][..1] == one && one[..0] == [] && Keys([]) == {};
    assert Dedupe(one) == one;
    KeyListed(one, 0);
  }

  lemma RotationsShare(c: seq<Name>, d: seq<Name>)
    requires Rotations(c, d) && d != []
    ensures d[0] in c
  {
  }

  /** Names with arrows can make cycles of different adapters share a key, and then only one is warned about. */
  lemma ArrowsCollide()
    ensures var c, d := ["a->b", "c"], ["a", "b->c"];
            && Distinct(c) && Distinct(d) && !Rotations(c, d) && Key(c) == Key(d) && Dedupe([c, d]) == [c]
  {
    var c, d := ["a->b", "c"], ["a", "b->c"];
    assert |"a->b"| == 4 && |"c"| == 1 && |"a"| == 1 && |"b->c"| == 4;
    assert "c"[0] == 'c' && "a"[0] == 'a' && "a->b"[0] == 'a' && "b->c"[0] == 'b';
    KeyOfTwo("a->b", "c");
    KeyOfTwo("a", "b->c");
    hide Key, Rotations, Dedupe, Less;
    assert "a->b" + "->" + "c" == "a->b->c" && "a" + "->" + "b->c" == "a->b->c";
    DedupeTwo(c, d);
    if Rotations(c, d) {
      RotationsShare(c, d);
    }
  }

  // ------------------------------------------------------------------------- warnings

  /** The path a warning shows: the cycle, back to its first adapter. */
  function Loop(c: seq<Name>): seq<Name> {
    if c == [] then [] else c + [c[0]]
  }

  ghost function WithoutEnd(p: seq<Name>): seq<Name> {
    if p == [] then [] else p[..|p| - 1]
  }

  ghost predicate Proper(cycles: seq<seq<Name>>) {
    forall i :: 0 <= i < |cycles| ==> cycles[i] != [] && Distinct(cycles[i])
  }

  ghost predicate WithoutArrows(cycles: seq<seq<Name>>) {
    forall i :: 0 <= i < |cycles| ==> Arrowless(cycles[i])
  }

  ghost function Keys(cycles: seq<seq<Name>>): set<string> {
    if cycles == [] then {} else Keys(cycles[..|cycles| - 1]) + {Key(cycles[|cycles| - 1])}
  }

  /** The first cycle of each key, in order. */
  ghost function Dedupe(cycles: seq<seq<Name>>): seq<seq<Name>> {
    if cycles == [] then []
    else
      var kept, last := Dedupe(cycles[..|cycles| - 1]), cycles[|cycles| - 1];
      if Key(last) in Keys(kept) then kept else kept + [last]
  }

  method AdapterCycleWarnings(cycles: seq<seq<Name>>) returns (paths: seq<seq<Name>>)
    ensures |paths| == |Dedupe(cycles)| && forall i :: 0 <= i < |paths| ==> paths[i] == Loop(Dedupe(cycles)[i])
  {
    hide Key, Loop;
    var reported: set<string> := {};
    paths := [];
    for i := 0 to |cycles|
      invariant reported == Keys(Dedupe(cycles[..i]))
      invariant |paths| == |Dedupe(cycles[..i])| && forall m :: 0 <= m < |paths| ==>
          paths[m] == Loop(Dedupe(cycles[..i])[m])
    {
      var key := CanonicalCycleKey(cycles[i]);
      ghost var kept := Dedupe(cycles[..i]);
      assert cycles[..i + 1][..i] == cycles[..i];
      if key !in reported {
        reported := reported + {key};
        paths := paths + [Loop(cycles[i])];
        assert (kept + [cycles[i]])[..|kept|] == kept;
      }
    }
    assert cycles[..|cycles|] == cycles;
  }

  lemma {:induction false} KeyHolder(cycles: seq<seq<Name>>, key: string) returns (i: nat)
    requires key in Keys(cycles)
    ensures i < |cycles| && Key(cycles[i]) == key
  {
    hide Key;
    if key == Key(cycles[|cycles| - 1]) {
      i := |cycles| - 1;
    } else {
      i := KeyHolder(cycles[..|cycles| - 1], key);
    }
  }

  lemma {:induction false} KeyListed(cycles: seq<seq<Name>>, i: nat)
    requires i < |cycles|
    ensures Key(cycles[i]) in Keys(cycles)
  {
    hide Key;
    if i < |cycles| - 1 {
      KeyListed(cycles[..|cycles| - 1], i);
    }
  }

  /** Every kept cycle is one of the given ones. */
  lemma {:induction false} DedupeSelects(cycles: seq<seq<Name>>, m: nat) returns (i: nat)
    requires m < |Dedupe(cycles)|
    ensures i < |cycles| && Dedupe(cycles)[m] == cycles[i]
  {
    hide Key;
    var init := cycles[..|cycles| - 1];
    if m < |Dedupe(init)| {
      i := DedupeSelects(init, m);
    } else {
      i := |cycles| - 1;
    }
  }

  lemma DedupeProper(cycles: seq<seq<Name>>)
    requires Proper(cycles)
    ensures Proper(Dedupe(cycles))
  {
    hide Dedupe;
    forall m: nat | m < |Dedupe(cycles)|
      ensures Dedupe(cycles)[m] != [] && Distinct(Dedupe(cycles)[m])
    {
      var i := DedupeSelects(cycles, m);
    }
  }

  /** Every cycle given is a rotation of one kept. */
  lemma {:induction false} DedupeCovers(cycles: seq<seq<Name>>, i: nat) returns (m: nat)
    requires Proper(cycles) && WithoutArrows(cycles) && i < |cycles|
    ensures m < |Dedupe(cycles)| && Rotations(Dedupe(cycles)[m], cycles[i])
    decreases |cycles|
  {
    hide Key, Rotations, Distinct, Arrowless;
    var init, last := cycles[..|cycles| - 1], cycles[|cycles| - 1];
    assert Proper(init) && WithoutArrows(init);
    if i < |init| {
      m := DedupeCovers(init, i);
    } else {
      DedupeProper(init);
      if Key(last) in Keys(Dedupe(init)) {
        m := KeyHolder(Dedupe(init), Key(last));
        var k := DedupeSelects(init, m);
        KeyIffRotations(Dedupe(init)[m], last);
      } else {
        m := |Dedupe(init)|;
        KeyIffRotations(last, last);
      }
    }
  }

  /** No two kept cycles are rotations of each other. */
  lemma {:induction false} DedupeNoRepeats(cycles: seq<seq<Name>>)
    requires Proper(cycles)
    ensures NoRepeats(Dedupe(cycles))
    decreases |cycles|
  {
    hide Key, Rotations, Distinct, Arrowless;
    if cycles != [] {
      var init, last := cycles[..|cycles| - 1], cycles[|cycles| - 1];
      assert Proper(init);
      var kept := Dedupe(init);
      DedupeNoRepeats(init);
      DedupeProper(init);
      forall i: nat | i < |kept| && Key(last) !in Keys(kept)
        ensures !Rotations(kept[i], last)
      {
        KeyListed(kept, i);
        KeyIffRotations(kept[i], last);
      }
    }
  }

  /** When no two cycles given are rotations of each other, nothing is dropped. */
  lemma {:induction false} DedupeKeepsAll(cycles: seq<seq<Name>>)
    requires Proper(cycles) && WithoutArrows(cycles) && NoRepeats(cycles)
    ensures Dedupe(cycles) == cycles
    decreases |cycles|
  {
    hide Key, Rotations, Distinct, Arrowless;
    if cycles != [] {
      var n := |cycles| - 1;
      var init, last := cycles[..n], cycles[n];
      assert Proper(init) && WithoutArrows(init) && NoRepeats(init);
      DedupeKeepsAll(init);
      if Key(last) in Keys(init) {
        var i := KeyHolder(init, Key(last));
        KeyIffRotations(cycles[i], last);
      }
      assert cycles == init + [last];
    }
  }

  /** The closed walk takes the last call some warning shows. */
  ghost predicate Warned(paths: seq<seq<Name>>, p: seq<Name>) {
    exists k: nat, i: nat :: k < |paths| && ClosesAt(WithoutEnd(paths[k]), p, i)
  }

  /** Some cycle is kept if there is one. */
  lemma {:induction false} DedupeNotEmpty(cycles: seq<seq<Name>>)
    ensures Dedupe(cycles) == [] <==> cycles == []
  {
    hide Key;
    if |cycles| > 1 {
      DedupeNotEmpty(cycles[..|cycles| - 1]);
    }
  }

  /** Adapter references as the expression grammar can write them: identifiers joined by a dot. */
  ghost predicate RefsWithoutArrows(edges: seq<CallEdge>) {
    forall e :: e in edges ==> ArrowFree(e.caller) && ArrowFree(e.callee)
  }

  /** The whole pass: adapters are warned about exactly when their tool calls can loop, each warning shows a closed
      walk of the call graph, no cycle is warned about twice, and every loop takes the last call of some warning. */
  method WarnAdapterCallCycles(adapterOrder: seq<Name>, edges: seq<CallEdge>) returns (paths: seq<seq<Name>>)
    ensures paths != [] <==> exists a :: OnCycle(CallGraph(edges), a)
    ensures RefsWithoutArrows(edges) ==> forall p, a :: ClosedWalk(CallGraph(edges), p, a) ==> Warned(paths, p)
    ensures forall i :: 0 <= i < |paths| ==>
                          && |paths[i]| >= 3 && ClosedWalk(CallGraph(edges), paths[i], paths[i][0])
                          && Distinct(WithoutEnd(paths[i]))
    ensures forall i, j :: 0 <= i < j < |paths| ==> !Rotations(WithoutEnd(paths[i]), WithoutEnd(paths[j]))
  {
    hide Rotations, OnCycle, ClosedWalk, Covers, Crosses, Warned, CallGraph, WithoutEnd, Loop, Distinct, SimpleCycle,
         RefsWithoutArrows, WithoutArrows, Dedupe;
    ghost var G := CallGraph(edges);
    var adj := AdapterCallAdjacency(edges);
    var roots := AdapterCycleRoots(adapterOrder, edges, adj);
    var cycles := FindCallCycles(adj, roots, G);
    paths := AdapterCycleWarnings(cycles);
    NoSelfCalls(edges);
    AllProper(G, cycles);
    DedupeNotEmpty(cycles);
    DedupeNoRepeats(cycles);
    forall i: nat | i < |paths|
      ensures |paths[i]| >= 3 && ClosedWalk(G, paths[i], paths[i][0]) && WithoutEnd(paths[i]) == Dedupe(cycles)[i]
      ensures Distinct(Dedupe(cycles)[i])
    {
      var k := DedupeSelects(cycles, i);
      LoopIsClosedWalk(G, cycles[k]);
    }
    if RefsWithoutArrows(edges) {
      CyclesWithoutArrows(edges, cycles);
      DedupeKeepsAll(cycles);
      forall p, a | ClosedWalk(G, p, a)
        ensures Warned(paths, p)
      {
        WarningsCover(cycles, paths, p);
      }
    }
  }

  lemma CyclesWithoutArrows(edges: seq<CallEdge>, cycles: seq<seq<Name>>)
    requires RefsWithoutArrows(edges) && AllSimple(CallGraph(edges), cycles)
    ensures WithoutArrows(cycles)
  {
    hide ArrowFree, Distinct;
    forall i, n | 0 <= i < |cycles| && n in cycles[i]
      ensures ArrowFree(n)
    {
      var c := cycles[i];
      assert SimpleCycle(CallGraph(edges), c);
      var k :| 0 <= k < |c| && c[k] == n;
      assert k + 1 < |c| ==> (c[k], c[k + 1]) in CallGraph(edges);
      assert k + 1 == |c| ==> (c[k], c[0]) in CallGraph(edges);
    }
  }

  lemma AllProper(G: set<(Name, Name)>, cycles: seq<seq<Name>>)
    requires AllSimple(G, cycles)
    ensures Proper(cycles)
  {
  }

  lemma WarningsCover(cycles: seq<seq<Name>>, paths: seq<seq<Name>>, p: seq<Name>)
    requires |paths| == |cycles| && Crosses(cycles, p)
    requires forall i :: 0 <= i < |paths| ==> WithoutEnd(paths[i]) == cycles[i]
    ensures Warned(paths, p)
  {
    hide ClosesAt, WithoutEnd;
    var c, i: nat :| c in cycles && ClosesAt(c, p, i);
    var k :| 0 <= k < |cycles| && cycles[k] == c;
    assert WithoutEnd(paths[k]) == c;
  }

  lemma LoopIsClosedWalk(G: set<(Name, Name)>, c: seq<Name>)
    requires SimpleCycle(G, c) && forall a :: (a, a) !in G
    ensures |c| >= 2 && ClosedWalk(G, Loop(c), c[0]) && WithoutEnd(Loop(c)) == c && Distinct(c)
    ensures |Loop(c)| == |c| + 1 && Loop(c)[0] == c[0]
  {
    assert (c[|c| - 1], c[0]) in G;
    var p := Loop(c);
    forall i, j | 0 <= i && j == i + 1 && j < |p|
      ensures (p[i], p[j]) in G
    {
      if j < |c| {
        assert (c[i], c[j]) in G;
      }
    }
  }

  lemma NoSelfCalls(edges: seq<CallEdge>)
    ensures forall a :: (a, a) !in CallGraph(edges)
  {
  }
}
