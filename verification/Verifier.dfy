/** The static verifier as a whole (checkReachability): what it means for a graph to be accepted. */
module Verifier {
  import opened Names
  import opened Walks
  import opened FsmGraph
  import opened Reachability
  import opened Livelocks
  import opened Budget
  import opened Feasibility
  import opened OverflowGuards
  import opened OutcomeRouting

  // ------------------------------------- routes of the cost view, walks of the topology view

  /** The target state, or a node that leaves the scope, lies ahead of the initial state. */
  ghost predicate TargetAhead(g: Graph) {
    || Reach(Edges(g), g.initialState, g.targetState)
    || exists u :: Reach(Edges(g), g.initialState, u) && NodeHasReturnEdge(u, g)
  }

  /** The run starts at a node named `return`, or a wait or approval ahead of it leads to one. */
  ghost predicate LeadsAstray(g: Graph) {
    g.initialState == RETURN || exists u :: Reach(Edges(g), g.initialState, u) && PausesIntoReturn(u, g)
  }

  /** A route stays on walks of the topology until it takes a transition to `return`. */
  lemma {:induction false} RouteIsWalk(g: Graph, w: seq<Hop>, b: Name)
    requires NamesDisjoint(g) && Route(g, false, w, g.initialState, b)
    ensures TargetAhead(g) || LeadsAstray(g) || (b != RETURN && Reach(Edges(g), g.initialState, b))
  {
    hide WeightedEdges, Edges, Reach, NodeHasReturnEdge, PausesIntoReturn, NodeTargets;
    if w == [] {
      ReachRefl(Edges(g), b);
    } else {
      var h := w[|w| - 1];
      RouteIsWalk(g, w[..|w| - 1], h.from);
      assert h.edge.to in EdgeEnds(h.from, g);
      EndsAndTargets(h.from, g);
      EdgesIff(g);
      if b != RETURN && Reach(Edges(g), g.initialState, h.from) {
        ReachExtend(Edges(g), g.initialState, h.from, b);
      }
    }
  }

  lemma EdgeIsHop(g: Graph, u: Name, v: Name) returns (h: Hop)
    requires NamesDisjoint(g) && ((u, v) in Edges(g) || (v == RETURN && NodeHasReturnEdge(u, g)))
    ensures Permitted(g, false, h) && h.from == u && h.edge.to == v
  {
    hide WeightedEdges, NodeTargets, NodeHasReturnEdge, PausesIntoReturn, Edges;
    EdgesIff(g);
    EndsAndTargets(u, g);
    assert v in EdgeEnds(u, g);
    var e :| e in WeightedEdges(u, g) && e.to == v;
    h := Hop(u, e);
  }

  lemma {:induction false} WalkIsRoute(g: Graph, p: seq<Name>) returns (w: seq<Hop>)
    requires NamesDisjoint(g) && Walk(Edges(g), p)
    ensures Route(g, false, w, p[0], p[|p| - 1])
    decreases |p|
  {
    hide Permitted, Edges;
    if |p| == 1 {
      w := [];
    } else {
      var k := |p| - 2;
      SubWalk(Edges(g), p, 0, k);
      assert p[0..k + 1] == p[..k + 1];
      var prefix := WalkIsRoute(g, p[..k + 1]);
      assert (p[k], p[k + 1]) in Edges(g);
      var h := EdgeIsHop(g, p[k], p[k + 1]);
      RouteExtends(g, false, prefix, p[0], h);
      w := prefix + [h];
    }
  }

  lemma ReachIsRoute(g: Graph, b: Name) returns (w: seq<Hop>)
    requires NamesDisjoint(g) && Reach(Edges(g), g.initialState, b)
    ensures Route(g, false, w, g.initialState, b)
  {
    hide Edges;
    var p :| WalkFromTo(Edges(g), p, g.initialState, b);
    w := WalkIsRoute(g, p);
  }

  lemma ReturnIsGoalRoute(g: Graph, u: Name) returns (w: seq<Hop>)
    requires NamesDisjoint(g) && Reach(Edges(g), g.initialState, u)
    requires NodeHasReturnEdge(u, g) || PausesIntoReturn(u, g)
    ensures GoalRoute(g, false, w)
  {
    hide Edges, Reach, NodeHasReturnEdge, PausesIntoReturn, NodeTargets, Permitted;
    var before := ReachIsRoute(g, u);
    EdgesIff(g);
    EndsAndTargets(u, g);
    var h := EdgeIsHop(g, u, RETURN);
    RouteExtends(g, false, before, g.initialState, h);
    w := before + [h];
    assert Goal(g, RETURN);
  }

  /** A priced route to a goal exists exactly when the target is ahead or the run leads astray. So the topological check
      and the priced one agree exactly when the target is ahead, or the run neither starts at `return` nor
      reaches a wait or approval that leads there. */
  lemma TargetAheadIffRoute(g: Graph)
    requires NamesDisjoint(g)
    ensures (exists w :: GoalRoute(g, false, w)) <==> TargetAhead(g) || LeadsAstray(g)
    ensures (TargetAhead(g) <==> exists w :: GoalRoute(g, false, w)) <==> TargetAhead(g) || !LeadsAstray(g)
  {
    hide Edges, Reach, Permitted, NodeHasReturnEdge, PausesIntoReturn;
    if Reach(Edges(g), g.initialState, g.targetState) {
      var w := ReachIsRoute(g, g.targetState);
      assert GoalRoute(g, false, w);
    }
    if u :| Reach(Edges(g), g.initialState, u) && (NodeHasReturnEdge(u, g) || PausesIntoReturn(u, g)) {
      var w := ReturnIsGoalRoute(g, u);
    }
    if g.initialState == RETURN {
      assert Route(g, false, [], g.initialState, RETURN);
      assert GoalRoute(g, false, []);
    }
    if w :| GoalRoute(g, false, w) {
      var t :| Goal(g, t) && Route(g, false, w, g.initialState, t);
      RouteIsWalk(g, w, t);
    }
  }

  lemma PauseDeclaresReturn(g: Graph, u: Name)
    requires Compiled(g) && PausesIntoReturn(u, g)
    ensures RETURN in Declared(g)
  {
    hide NodeTargets;
    EndsAndTargets(u, g);
    assert u in Declared(g);
  }

  /** At top level nothing leads astray. */
  lemma WellFormedStaysOnCourse(g: Graph)
    requires WellFormed(g)
    ensures !LeadsAstray(g)
  {
    hide PausesIntoReturn, Reach, Edges, NodeTargets;
    if u :| PausesIntoReturn(u, g) {
      PauseDeclaresReturn(g, u);
    }
  }

  method CheckTargetStateReachability(g: Graph, reachable: set<Name>) returns (error: bool, ahead: bool)
    requires forall n :: n in reachable <==> Reach(Edges(g), g.initialState, n)
    ensures ahead <==> g.targetState != "" && TargetAhead(g)
    ensures error <==> g.targetState != "" && !TargetAhead(g)
  {
    hide Edges, Reach, NodeHasReturnEdge;
    if g.targetState == "" {
      return false, false;
    }
    if g.targetState in reachable {
      return false, true;
    }
    var todo := reachable;
    while todo != {}
      invariant todo <= reachable
      invariant forall u :: u in reachable - todo ==> !NodeHasReturnEdge(u, g)
      decreases todo
    {
      var u :| u in todo;
      if NodeHasReturnEdge(u, g) {
        return false, true;
      }
      todo := todo - {u};
    }
    return true, false;
  }

  // ------------------------------------------------------------------ the verifier

  datatype Finding =
    | UnreachableNode(name: Name)
    | UnreachableState(name: Name)
    | Trapped(livelock: Livelock)
    | NoHappyPath
    | Infeasible(diagnostic: Diagnostic)
    | Incomplete(step: Name, gap: Gap)

  /** Unreachable states only draw a warning; everything else is an error. */
  predicate IsError(f: Finding) {
    !f.UnreachableState?
  }

  predicate Rejects(findings: seq<Finding>) {
    exists f :: f in findings && IsError(f)
  }

  /** Nodes that must be reachable: everything but plain states. */
  function Active(g: Graph): set<Name> {
    g.steps.Keys + g.waits.Keys + g.approvals.Keys + g.switches.Keys
  }

  function Missing(names: seq<Name>, reachable: set<Name>): (r: seq<Finding>)
    ensures forall f :: f in r <==> f.UnreachableNode? && f.name in names && f.name !in reachable
  {
    if names == [] then []
    else (if names[0] !in reachable then [UnreachableNode(names[0])] else []) + Missing(names[1..], reachable)
  }

  function MissingStates(g: Graph, names: seq<Name>, reachable: set<Name>): (r: seq<Finding>)
    ensures forall f :: f in r <==>
                        && f.UnreachableState? && f.name in names && f.name !in reachable
                        && f.name != g.targetState && !("_" <= f.name)
  {
    if names == [] then []
    else
      (if "_" <= names[0] || names[0] == g.targetState || names[0] in reachable then []
       else [UnreachableState(names[0])]) + MissingStates(g, names[1..], reachable)
  }

  /** Steps, waits, approvals and switches in diagnostic order. */
  function ActiveOrder(g: Graph): (r: seq<Name>)
    requires (set n | n in g.stepOrder) == g.steps.Keys
    ensures forall n :: n in r <==> n in Active(g)
  {
    g.stepOrder + SortedKeys(g.waits.Keys) + SortedKeys(g.approvals.Keys) + SortedKeys(g.switches.Keys)
  }

  /** A state that only draws a warning when nothing leads to it: not the target, and not synthetic. */
  predicate Placeholder(g: Graph, n: Name) {
    n in g.states && n != g.targetState && !("_" <= n)
  }

  /** diagnoseUnreachableSteps and diagnoseUnreachableNodes. */
  function Unreachable(g: Graph, reachable: set<Name>): seq<Finding>
    requires (set n | n in g.stepOrder) == g.steps.Keys
  {
    Missing(ActiveOrder(g), reachable) + MissingStates(g, SortedKeys(g.states.Keys), reachable)
  }

  /** Exactly the nodes the breadth-first walk missed are named, and only active ones are an error. */
  lemma UnreachableNamed(g: Graph, reachable: set<Name>)
    requires (set n | n in g.stepOrder) == g.steps.Keys
    ensures forall f :: f in Unreachable(g, reachable) <==>
                        || (f.UnreachableNode? && f.name in Active(g) && f.name !in reachable)
                        || (f.UnreachableState? && Placeholder(g, f.name) && f.name !in reachable)
    ensures Rejects(Unreachable(g, reachable)) <==> !(Active(g) <= reachable)
  {
    hide Missing, MissingStates, ActiveOrder, Active, SortedKeys;
    var all := Unreachable(g, reachable);
    forall n | n in Active(g) && n !in reachable
      ensures Rejects(all)
    {
      assert UnreachableNode(n) in all && IsError(UnreachableNode(n));
    }
  }

  /** Some route to the target keeps a positive step budget, and some keeps every step's visit bound. */
  ghost predicate Feasible(g: Graph) {
    && (g.maxTotalSteps > 0 ==> exists w :: GoalRoute(g, false, w) && Cost(w) <= g.maxTotalSteps)
    && (exists w :: GoalRoute(g, true, w))
  }

  ghost predicate AllReached(g: Graph) {
    forall n :: n in Active(g) ==> Reach(Edges(g), g.initialState, n)
  }

  ghost predicate NoneTrapped(g: Graph) {
    forall n :: Reach(Edges(g), g.initialState, n) ==> CanExit(g, n)
  }

  /** The properties the verifier promises of a workflow, each about all walks of its graph. */
  ghost predicate Verified(g: Graph) {
    && AllReached(g) && NoneTrapped(g)
    && (g.targetState != "" ==> TargetAhead(g) && Feasible(g))
    && (forall n :: n in g.steps && !g.steps[n].iterates ==> Complete(g.steps[n]))
  }

  /** Routes exist only where some are in range. */
  ghost predicate Payable(g: Graph) {
    forall enforce: bool :: (exists w :: GoalRoute(g, enforce, w)) ==> Attainable(g, enforce)
  }

  /** Step counts that add up, each step once, to less than math.MaxInt are never out of range. */
  lemma CeilingInRange(g: Graph)
    requires OrderListsSteps(g) && CostCeiling(g) < MAX_INT
    ensures InRange(g) && Payable(g) && PathsEnd(g)
  {
    hide CostCeiling, NoOverflow, Traceable, OrderListsSteps, GoalRoute, Cost;
    forall enforce: bool
      ensures NoOverflow(g, enforce) && Traceable(g, enforce)
    {
      CeilingSuffices(g, enforce);
      NoOverflowTraceable(g, enforce);
    }
    forall enforce: bool, w | GoalRoute(g, enforce, w)
      ensures Attainable(g, enforce)
    {
      CeilingReaches(g, enforce, w);
    }
  }

  lemma CompiledNamed(g: Graph)
    requires Compiled(g)
    ensures Named(g) && "" !in g.steps
  {
    hide WeightedEdges, NodeTargets;
    forall u, e | e in WeightedEdges(u, g)
      ensures e.to != ""
    {
      assert e.to in EdgeEnds(u, g);
      EndsAndTargets(u, g);
      WeightedEdgesDeclared(g, u);
    }
  }

  lemma EdgesFromDeclared(g: Graph)
    ensures forall u, v :: (u, v) in Edges(g) ==> u in Declared(g)
  {
    hide Edges;
    forall u, v | (u, v) in Edges(g)
      ensures u in Declared(g)
    {
      EdgesDeclared(g, u, v);
    }
  }

  lemma ReachableDeclared(g: Graph, n: Name)
    requires Compiled(g) && Reach(Edges(g), g.initialState, n)
    ensures n in Declared(g)
  {
    EdgesIff(g);
    EdgesFromDeclared(g);
    hide Edges, NodeTargets, Reach;
    assert Closed(Edges(g), Declared(g));
    ClosedContainsReach(Edges(g), Declared(g), g.initialState, n);
  }

  lemma ReachableClosed(g: Graph, reachable: set<Name>)
    requires forall n :: n in reachable <==> Reach(Edges(g), g.initialState, n)
    ensures Closed(Edges(g), reachable)
  {
    hide Edges, Reach;
    forall u, v | (u, v) in Edges(g) && u in reachable
      ensures v in reachable
    {
      ReachExtend(Edges(g), g.initialState, u, v);
    }
  }

  method ReportLivelocks(diags: seq<Livelock>) returns (findings: seq<Finding>)
    ensures Rejects(findings) <==> diags != []
    ensures forall f :: f in findings <==> f.Trapped? && f.livelock in diags
  {
    findings := [];
    for i := 0 to |diags|
      invariant |findings| == i
      invariant forall f :: f in findings <==> f.Trapped? && f.livelock in diags[..i]
    {
      assert diags[..i + 1] == diags[..i] + [diags[i]];
      findings := findings + [Trapped(diags[i])];
    }
    assert diags[..|diags|] == diags;
    assert diags != [] ==> findings[0] in findings && IsError(findings[0]);
  }

  method ReportInfeasible(diags: seq<Diagnostic>) returns (findings: seq<Finding>)
    ensures Rejects(findings) <==> diags != []
    ensures forall f :: f in findings <==> f.Infeasible? && f.diagnostic in diags
  {
    findings := [];
    for i := 0 to |diags|
      invariant |findings| == i
      invariant forall f :: f in findings <==> f.Infeasible? && f.diagnostic in diags[..i]
    {
      assert diags[..i + 1] == diags[..i] + [diags[i]];
      findings := findings + [Infeasible(diags[i])];
    }
    assert diags[..|diags|] == diags;
    assert diags != [] ==> findings[0] in findings && IsError(findings[0]);
  }

  /** Exactly the steps that do not iterate and are not complete are reported, each with what it lacks. */
  method ReportIncomplete(g: Graph) returns (findings: seq<Finding>)
    requires OrderListsSteps(g)
    ensures Rejects(findings) <==> exists n :: n in g.steps && LacksOutcome(g, n)
    ensures forall n :: IncompleteAt(findings, n) <==> n in g.steps && LacksOutcome(g, n)
    ensures forall f :: f in findings ==> f.Incomplete?
  {
    hide Complete;
    findings := [];
    for i := 0 to |g.stepOrder|
      invariant forall n :: IncompleteAt(findings, n) <==> n in g.stepOrder[..i] && n in g.steps && LacksOutcome(g, n)
      invariant forall f :: f in findings ==> f.Incomplete?
    {
      var name := g.stepOrder[i];
      assert g.stepOrder[..i + 1] == g.stepOrder[..i] + [name];
      assert name in g.steps.Keys;
      var before := findings;
      if !g.steps[name].iterates {
        var gap := ValidateStepOutcomeCompleteness(g.steps[name]);
        if gap.Some? {
          findings := findings + [Incomplete(name, gap.value)];
          OneMoreIncomplete(before, name, gap.value);
        }
      }
    }
    assert g.stepOrder[..|g.stepOrder|] == g.stepOrder;
    assert forall n :: n in g.stepOrder <==> n in g.steps.Keys;
    if findings != [] {
      assert IncompleteAt(findings, findings[0].step) && IsError(findings[0]);
    }
  }

  lemma OneMoreIncomplete(findings: seq<Finding>, name: Name, gap: Gap)
    ensures forall n :: IncompleteAt(findings + [Incomplete(name, gap)], n) <==> IncompleteAt(findings, n) || n == name
  {
    var more := findings + [Incomplete(name, gap)];
    assert more[|findings|] == Incomplete(name, gap);
    forall n | IncompleteAt(findings, n)
      ensures IncompleteAt(more, n)
    {
      var p :| Incomplete(n, p) in findings;
      assert Incomplete(n, p) in more;
    }
  }

  lemma RejectsEither(a: seq<Finding>, b: seq<Finding>)
    ensures Rejects(a + b) <==> Rejects(a) || Rejects(b)
  {
    if f :| f in a && IsError(f) {
      assert f in a + b;
    }
    if f :| f in b && IsError(f) {
      assert f in a + b;
    }
  }

  lemma RejectsAny(a: seq<Finding>, b: seq<Finding>, c: seq<Finding>, d: seq<Finding>)
    ensures Rejects(a + b + c + d) <==> Rejects(a) || Rejects(b) || Rejects(c) || Rejects(d)
  {
    hide Rejects;
    RejectsEither(a + b + c, d);
    RejectsEither(a + b, c);
    RejectsEither(a, b);
  }

  ghost predicate LacksOutcome(g: Graph, n: Name)
    requires n in g.steps
  {
    !g.steps[n].iterates && !Complete(g.steps[n])
  }

  ghost predicate IncompleteAt(findings: seq<Finding>, n: Name) {
    exists gap :: Incomplete(n, gap) in findings
  }

  ghost predicate VisitsReported(findings: seq<Finding>) {
    exists d :: Infeasible(d) in findings && d.UnsatisfiableVisits?
  }

  ghost predicate BudgetReported(findings: seq<Finding>) {
    exists d :: Infeasible(d) in findings && d.UnsatisfiableBudget?
  }

  method CheckFeasible(g: Graph) returns (findings: seq<Finding>)
    requires Compiled(g) && CollectionsFit(g) && PathsEnd(g)
    requires exists w :: GoalRoute(g, false, w)
    ensures BudgetReported(findings) <==> BudgetErrorEmitted(g)
    ensures VisitsReported(findings) <==> VisitErrorEmitted(g)
    ensures InRange(g) && Payable(g) ==> (Rejects(findings) <==> !Feasible(g))
    ensures forall f :: f in findings ==> f.Infeasible?
  {
    hide GoalRoute, Compiled, CollectionsFit, NoOverflow, Traceable, Named, Search, Cost, BudgetErrorEmitted,
         VisitErrorEmitted;
    CompiledNamed(g);
    var diags := CheckBudgetAndVisitFeasibility(g);
    findings := ReportInfeasible(diags);
    assert forall d :: Infeasible(d) in findings <==> d in diags;
    if InRange(g) && Payable(g) {
      DiagnosedIffInfeasible(g, diags);
    }
  }

  lemma DiagnosedIffInfeasible(g: Graph, diags: seq<Diagnostic>)
    requires RightlyDiagnosed(g, diags) && Payable(g) && exists w :: GoalRoute(g, false, w)
    ensures diags != [] <==> !Feasible(g)
  {
    hide GoalRoute, Cost, Evidence;
    if diags != [] {
      assert diags[0] in diags && (diags[0].UnsatisfiableBudget? || diags[0].UnsatisfiableVisits?);
    }
  }

  /** The checks that look at the graph's shape alone: unreachable nodes, and nodes that cannot leave. */
  method CheckTopology(g: Graph) returns (reachable: set<Name>, findings: seq<Finding>)
    requires Compiled(g)
    ensures forall n :: n in reachable <==> Reach(Edges(g), g.initialState, n)
    ensures Rejects(findings) <==> !(AllReached(g) && NoneTrapped(g))
    ensures forall f :: f in findings && f.Trapped? ==> Witness(g, f.livelock)
    ensures forall f :: f in findings ==> f.UnreachableNode? || f.UnreachableState? || f.Trapped?
    ensures TopologyPinned(g, findings)
  {
    hide TopologyPinned, Edges, Reach, CanExit, Witness, Rejects, Unreachable, Active;
    reachable := CollectReachableNodes(g, g.initialState);
    var missing := Unreachable(g, reachable);
    ReachableClosed(g, reachable);
    var trapped := CheckLivelocks(g, reachable);
    var livelocks := ReportLivelocks(trapped);
    findings := missing + livelocks;
    RejectsEither(missing, livelocks);
    TrappedIff(g, reachable, trapped);
    UnreachableNamed(g, reachable);
    FindingsPinpoint(g, reachable, missing, trapped, livelocks);
  }

  /** Every finding of the verifier is right and none is missed. When the searches stay in range the verifier accepts a
      graph exactly when every active node is reachable, every reachable node can leave the workflow, the target lies
      ahead on some route within the step budget and on some route within every visit bound, and every step that does
      not iterate is complete. */
  method CheckReachability(g: Graph) returns (findings: seq<Finding>)
    requires Compiled(g) && CollectionsFit(g) && (g.targetState != "" && TargetAhead(g) ==> PathsEnd(g))
    ensures InRange(g) && Payable(g) ==> (Rejects(findings) <==> !Verified(g))
    ensures forall f :: f in findings && f.Trapped? ==> Witness(g, f.livelock)
    ensures Pinpoints(g, findings)
    ensures BudgetReported(findings) <==> g.targetState != "" && TargetAhead(g) && BudgetErrorEmitted(g)
    ensures VisitsReported(findings) <==> g.targetState != "" && TargetAhead(g) && VisitErrorEmitted(g)
  {
    hide Pinpoints, TopologyPinned, Edges, Reach, GoalRoute, Witness, Feasible, TargetAhead, Rejects, CollectionsFit,
         InRange, Payable, PathsEnd, BudgetErrorEmitted, LeadsAstray, BudgetReported, VisitErrorEmitted, VisitsReported,
         IncompleteAt, LacksOutcome, Complete, AllReached, NoneTrapped;
    var reachable, topology := CheckTopology(g);
    var error, ahead := CheckTargetStateReachability(g, reachable);
    var target: seq<Finding> := if error then [NoHappyPath] else [];
    var infeasible: seq<Finding> := [];
    if ahead {
      TargetAheadIffRoute(g);
      infeasible := CheckFeasible(g);
    }
    var incomplete := ReportIncomplete(g);
    findings := topology + target + infeasible + incomplete;
    RejectsAny(topology, target, infeasible, incomplete);
    RejectsTarget(error);
    RejectsNothing();
    AllComplete(g);
    AllPinned(g, topology, target, infeasible, incomplete);
    OnlyInfeasible(topology + target, infeasible, incomplete);
  }

  lemma AllComplete(g: Graph)
    ensures (exists n :: n in g.steps && LacksOutcome(g, n)) <==>
            !forall n :: n in g.steps && !g.steps[n].iterates ==> Complete(g.steps[n])
  {
  }

  lemma OnlyInfeasible(others: seq<Finding>, infeasible: seq<Finding>, incomplete: seq<Finding>)
    requires (forall f :: f in others ==> !f.Infeasible?) && forall f :: f in incomplete ==> !f.Infeasible?
    ensures BudgetReported(others + infeasible + incomplete) <==> BudgetReported(infeasible)
    ensures VisitsReported(others + infeasible + incomplete) <==> VisitsReported(infeasible)
    ensures !BudgetReported([]) && !VisitsReported([])
  {
    assert forall d :: Infeasible(d) in others + infeasible + incomplete <==> Infeasible(d) in infeasible;
  }

  lemma RejectsTarget(error: bool)
    ensures Rejects(if error then [NoHappyPath] else []) <==> error
  {
    assert NoHappyPath in [NoHappyPath] && IsError(NoHappyPath);
  }

  lemma RejectsNothing()
    ensures !Rejects([])
  {
  }

  ghost predicate TrappedAt(findings: seq<Finding>, n: Name) {
    exists l :: Trapped(l) in findings && l.node == n
  }

  ghost predicate TopologyPinned(g: Graph, findings: seq<Finding>) {
    && (forall n :: UnreachableNode(n) in findings <==> n in Active(g) && !Reach(Edges(g), g.initialState, n))
    && (forall n :: UnreachableState(n) in findings <==> Placeholder(g, n) && !Reach(Edges(g), g.initialState, n))
    && (forall n :: TrappedAt(findings, n) <==> Reach(Edges(g), g.initialState, n) && !CanExit(g, n))
  }

  /** Every finding names the right node, and no node is missed. */
  ghost predicate Pinpoints(g: Graph, findings: seq<Finding>) {
    && TopologyPinned(g, findings)
    && (NoHappyPath in findings <==> g.targetState != "" && !TargetAhead(g))
    && (forall n :: IncompleteAt(findings, n) <==> n in g.steps && LacksOutcome(g, n))
  }

  lemma FindingsPinpoint(g: Graph, reachable: set<Name>, missing: seq<Finding>, trapped: seq<Livelock>,
                         livelocks: seq<Finding>)
    requires Compiled(g) && missing == Unreachable(g, reachable)
    requires forall n :: n in reachable <==> Reach(Edges(g), g.initialState, n)
    requires forall n :: (exists l :: l in trapped && l.node == n) <==>
                         n in Declared(g) && n in reachable && !CanExit(g, n)
    requires forall f :: f in livelocks <==> f.Trapped? && f.livelock in trapped
    ensures TopologyPinned(g, missing + livelocks)
  {
    hide Edges, Reach, CanExit, Declared, Unreachable, Active, Placeholder;
    UnreachableNamed(g, reachable);
    var findings := missing + livelocks;
    forall n
      ensures TrappedAt(findings, n) <==> Reach(Edges(g), g.initialState, n) && !CanExit(g, n)
    {
      if n in reachable {
        ReachableDeclared(g, n);
      }
      if l :| l in trapped && l.node == n {
        assert Trapped(l) in livelocks;
      }
      if TrappedAt(findings, n) {
        var l :| Trapped(l) in findings && l.node == n;
        assert Trapped(l) in livelocks;
      }
    }
  }

  lemma AllPinned(g: Graph, topology: seq<Finding>, target: seq<Finding>, infeasible: seq<Finding>,
                  incomplete: seq<Finding>)
    requires TopologyPinned(g, topology)
    requires forall f :: f in topology ==> f.UnreachableNode? || f.UnreachableState? || f.Trapped?
    requires target == if g.targetState != "" && !TargetAhead(g) then [NoHappyPath] else []
    requires forall f :: f in infeasible ==> f.Infeasible?
    requires forall f :: f in incomplete ==> f.Incomplete?
    requires forall n :: IncompleteAt(incomplete, n) <==> n in g.steps && LacksOutcome(g, n)
    ensures Pinpoints(g, topology + target + infeasible + incomplete)
  {
    hide Edges, Reach, CanExit, TargetAhead, Active, Placeholder, LacksOutcome;
    IncompleteAmong(topology + target + infeasible, incomplete);
    TopologyAmong(g, topology, target + infeasible + incomplete);
    assert topology + (target + infeasible + incomplete) == topology + target + infeasible + incomplete;
  }

  lemma TopologyAmong(g: Graph, topology: seq<Finding>, others: seq<Finding>)
    requires TopologyPinned(g, topology)
    requires forall f :: f in others ==> !f.UnreachableNode? && !f.UnreachableState? && !f.Trapped?
    ensures TopologyPinned(g, topology + others)
  {
    hide Edges, Reach, CanExit, Active, Placeholder;
    assert forall l :: Trapped(l) in topology + others <==> Trapped(l) in topology;
    assert forall n :: TrappedAt(topology + others, n) <==> TrappedAt(topology, n);
  }

  lemma IncompleteAmong(a: seq<Finding>, b: seq<Finding>)
    requires forall f :: f in a ==> !f.Incomplete?
    ensures forall n :: IncompleteAt(a + b, n) <==> IncompleteAt(b, n)
  {
    assert forall n, gap :: Incomplete(n, gap) in a + b <==> Incomplete(n, gap) in b;
  }

  lemma TrappedIff(g: Graph, reachable: set<Name>, trapped: seq<Livelock>)
    requires Compiled(g)
    requires forall n :: n in reachable <==> Reach(Edges(g), g.initialState, n)
    requires forall n :: (exists l :: l in trapped && l.node == n) <==>
                         n in Declared(g) && n in reachable && !CanExit(g, n)
    ensures trapped == [] <==> NoneTrapped(g)
  {
    hide Edges, Reach, CanExit, Declared;
    if trapped != [] {
      var n := trapped[0].node;
      assert exists l :: l in trapped && l.node == n;
      assert n in reachable && !CanExit(g, n);
    } else {
      forall n | Reach(Edges(g), g.initialState, n)
        ensures CanExit(g, n)
      {
        ReachableDeclared(g, n);
        assert n in reachable && !exists l :: l in trapped && l.node == n;
      }
    }
  }
}
