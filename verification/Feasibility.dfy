/** The diagnostics of checkBudgetAndVisitFeasibility, and when they are emitted. */
module Feasibility {
  import opened Names
  import opened FsmGraph
  import opened Paths
  import opened Budget

  // ------------------------------------------------- visit bounds along a path

  function Rewritten(g: Graph, to: Name): Name {
    if to == RETURN then g.targetState else to
  }

  /** The cheapest visit cost among the edges that lead to `v`; MAX_INT when none is below it. */
  function MinVisits(g: Graph, edges: seq<WeightedEdge>, v: Name): (m: int)
    ensures m <= MAX_INT
    ensures forall e :: e in edges && Rewritten(g, e.to) == v ==> m <= e.visitCost
    ensures m < MAX_INT ==> exists e :: e in edges && Rewritten(g, e.to) == v && e.visitCost == m
  {
    if edges == [] then MAX_INT
    else
      var e := edges[|edges| - 1];
      var m := MinVisits(g, edges[..|edges| - 1], v);
      assert edges == edges[..|edges| - 1] + [e];
      if Rewritten(g, e.to) == v && e.visitCost < m then e.visitCost else m
  }

  /** The step at path[i] cannot be left for path[i + 1] within its visit bound. */
  predicate ViolatesAt(g: Graph, path: seq<Name>, i: nat)
    requires i + 1 < |path|
  {
    var u := path[i];
    && u in g.steps && g.steps[u].maxVisits > 0
    && var m := MinVisits(g, WeightedEdges(u, g), path[i + 1]); m != MAX_INT && m > g.steps[u].maxVisits
  }

  /** The transition leads from u to v, the way a path shows it. */
  ghost predicate Between(g: Graph, u: Name, v: Name, e: WeightedEdge) {
    Priced(g, u, e) && (if e.to == RETURN then g.targetState else e.to) == v
  }

  /** That is: every declared transition between the two costs more visits than the step may have, and there is one
      whose cost is below math.MaxInt. */
  lemma ViolatesIff(g: Graph, path: seq<Name>, i: nat)
    requires i + 1 < |path|
    ensures ViolatesAt(g, path, i) <==>
            && path[i] in g.steps && g.steps[path[i]].maxVisits > 0
            && (exists e :: Between(g, path[i], path[i + 1], e) && e.visitCost < MAX_INT)
            && forall e :: Between(g, path[i], path[i + 1], e) ==> e.visitCost > g.steps[path[i]].maxVisits
  {
    var u, v := path[i], path[i + 1];
    hide WeightedEdges, Priced;
    forall e: WeightedEdge
      ensures Between(g, u, v, e) <==> e in WeightedEdges(u, g) && Rewritten(g, e.to) == v
    {
      EdgesPriced(u, g, e);
    }
    hide Between;
    var m := MinVisits(g, WeightedEdges(u, g), v);
  }

  ghost predicate FirstViolation(g: Graph, path: seq<Name>, i: nat, stepName: Name, reqVisits: int, maxVisits: int) {
    && i + 1 < |path| && ViolatesAt(g, path, i) && stepName == path[i]
    && reqVisits == MinVisits(g, WeightedEdges(path[i], g), path[i + 1])
    && maxVisits == g.steps[path[i]].maxVisits
    && forall j: nat :: j < i ==> !ViolatesAt(g, path, j)
  }

  /** The inner loop of findVisitBoundViolationOnPath. */
  method MinVisitForEdge(g: Graph, edges: seq<WeightedEdge>, v: Name) returns (m: int)
    ensures m == MinVisits(g, edges, v)
  {
    m := MAX_INT;
    for k := 0 to |edges|
      invariant m == MinVisits(g, edges[..k], v)
    {
      assert edges[..k + 1][..k] == edges[..k];
      var target := if edges[k].to == RETURN then g.targetState else edges[k].to;
      if target == v && edges[k].visitCost < m {
        m := edges[k].visitCost;
      }
    }
    assert edges[..|edges|] == edges;
  }

  /** The first step of the path that breaks its own bound; empty name when every step keeps it. */
  method FindVisitBoundViolationOnPath(path: seq<Name>, g: Graph)
    returns (stepName: Name, reqVisits: int, maxVisits: int)
    requires "" !in g.steps
    ensures stepName == "" <==> forall i: nat :: i + 1 < |path| ==> !ViolatesAt(g, path, i)
    ensures stepName != "" ==> exists i: nat :: FirstViolation(g, path, i, stepName, reqVisits, maxVisits)
    ensures stepName == "" ==> reqVisits == maxVisits == 0
  {
    hide WeightedEdges, MinVisits;
    for i := 0 to |path|
      invariant forall j: nat :: j < i && j + 1 < |path| ==> !ViolatesAt(g, path, j)
    {
      if i + 1 == |path| {
        break;
      }
      var u, v := path[i], path[i + 1];
      if u in g.steps && g.steps[u].maxVisits > 0 {
        var minVisitForEdge := MinVisitForEdge(g, WeightedEdges(u, g), v);
        if minVisitForEdge != MAX_INT && minVisitForEdge > g.steps[u].maxVisits {
          assert FirstViolation(g, path, i, u, minVisitForEdge, g.steps[u].maxVisits);
          return u, minVisitForEdge, g.steps[u].maxVisits;
        }
      }
      assert !ViolatesAt(g, path, i);
    }
    return "", 0, 0;
  }

  // ------------------------------- a path without violations can be walked in bounds

  /** A parallel step runs once per item of a collection held in memory. */
  ghost predicate CollectionsFit(g: Graph) {
    forall n :: n in g.steps && g.steps[n].parallel.Some? ==> g.steps[n].parallel.value < MAX_INT
  }

  /** Two outcomes of one step differ in cost only by taking all iterations or one. */
  lemma FewerVisitsFewerSteps(g: Graph, u: Name, e: WeightedEdge, f: WeightedEdge)
    requires u in g.steps && e in WeightedEdges(u, g) && f in WeightedEdges(u, g)
    requires e.visitCost < f.visitCost
    ensures e.stepCost <= f.stepCost
  {
    hide WeightedEdges;
    var o := EdgeOutcome(g, u, e);
    var q := EdgeOutcome(g, u, f);
  }

  lemma VisitsBelowRange(g: Graph, u: Name, e: WeightedEdge)
    requires CollectionsFit(g) && u in g.steps && e in WeightedEdges(u, g) && e.stepCost < MAX_INT
    ensures e.visitCost < MAX_INT
  {
    hide WeightedEdges;
    var o := EdgeOutcome(g, u, e);
  }

  /** `e` can stand in for hop `h`: allowed, no dearer, and to the same node or likewise to a goal. */
  ghost predicate StandIn(g: Graph, h: Hop, e: WeightedEdge) {
    && Permitted(g, true, Hop(h.from, e)) && e.stepCost <= h.edge.stepCost
    && (e.to == h.edge.to || (Goal(g, e.to) && Goal(g, h.edge.to)))
  }

  /** If the bound is not violated between u and v, some edge from u to v may be taken. */
  lemma StandInExists(g: Graph, h: Hop, path: seq<Name>, i: nat) returns (e: WeightedEdge)
    requires CollectionsFit(g) && Permitted(g, false, h) && h.edge.stepCost < MAX_INT
    requires i + 1 < |path| && path[i] == h.from && !ViolatesAt(g, path, i)
    requires path[i + 1] == Rewritten(g, h.edge.to)
    ensures StandIn(g, h, e)
  {
    hide WeightedEdges;
    var u := h.from;
    if Permitted(g, true, h) {
      e := h.edge;
    } else {
      VisitsBelowRange(g, u, h.edge);
      e :| e in WeightedEdges(u, g) && Rewritten(g, e.to) == path[i + 1]
           && e.visitCost == MinVisits(g, WeightedEdges(u, g), path[i + 1]);
      FewerVisitsFewerSteps(g, u, e, h.edge);
    }
  }

  /** Replacing every hop of a route that stays clear of goals by its stand-in. */
  lemma {:induction false} ReplaceHops(g: Graph, w: seq<Hop>, a: Name, b: Name) returns (w': seq<Hop>)
    requires Route(g, false, w, a, b) && !Goal(g, b)
    requires forall h :: h in w ==> !Goal(g, h.from) && exists e :: StandIn(g, h, e)
    ensures Route(g, true, w', a, b) && Cost(w') <= Cost(w)
  {
    hide WeightedEdges, Permitted;
    if w == [] {
      w' := [];
    } else {
      var h := w[|w| - 1];
      var prefix := ReplaceHops(g, w[..|w| - 1], a, h.from);
      var e :| StandIn(g, h, e);
      RouteExtends(g, true, prefix, a, Hop(h.from, e));
      w' := prefix + [Hop(h.from, e)];
    }
  }

  lemma {:induction false} NodesOfRoute(g: Graph, enforce: bool, w: seq<Hop>, a: Name, b: Name, i: nat)
    requires Route(g, enforce, w, a, b)
    ensures |Nodes(w, a)| == |w| + 1 && Nodes(w, a)[|w|] == b
    ensures i < |w| ==> Nodes(w, a)[i] == w[i].from && Nodes(w, a)[i + 1] == w[i].edge.to
    decreases |w|
  {
    hide Permitted;
    if w != [] {
      var h := w[|w| - 1];
      NodesOfRoute(g, enforce, w[..|w| - 1], a, h.from, i);
      if i + 1 == |w| {
        NodesOfRoute(g, enforce, w[..|w| - 1], a, h.from, 0);
      }
    }
  }

  lemma {:induction false} HopCostBound(g: Graph, enforce: bool, w: seq<Hop>, a: Name, b: Name, i: nat)
    requires Route(g, enforce, w, a, b) && i < |w|
    ensures Permitted(g, enforce, w[i]) && w[i].edge.stepCost <= Cost(w)
    decreases |w|
  {
    hide WeightedEdges;
    var h := w[|w| - 1];
    EdgeCosts(h.from, g, h.edge);
    CostNonNegative(g, enforce, w[..|w| - 1], a, h.from);
    if i + 1 < |w| {
      HopCostBound(g, enforce, w[..|w| - 1], a, h.from, i);
    }
  }

  lemma HopsBelow(g: Graph, w: seq<Hop>, minSteps: int, path: seq<Name>)
    requires Reported(g, false, w, minSteps, path) && minSteps < MAX_INT
    ensures forall h :: h in w ==> h.edge.stepCost < MAX_INT
  {
    var t :| Goal(g, t) && Route(g, false, w, g.initialState, t);
    forall i: nat | i < |w|
      ensures w[i].edge.stepCost < MAX_INT
    {
      HopCostBound(g, false, w, g.initialState, t, i);
    }
  }

  /** A reported path on which no step breaks its bound shows that the target is reachable within all bounds, unless
      one of its hops costs math.MaxInt, which the check cannot tell from "no edge". */
  lemma NoViolationMeansFeasible(g: Graph, w: seq<Hop>, minSteps: int, path: seq<Name>) returns (w': seq<Hop>)
    requires CollectionsFit(g) && Reported(g, false, w, minSteps, path)
    requires forall h :: h in w ==> h.edge.stepCost < MAX_INT
    requires forall i: nat :: i + 1 < |path| ==> !ViolatesAt(g, path, i)
    ensures GoalRoute(g, true, w') && Cost(w') <= minSteps
  {
    hide WeightedEdges, Permitted;
    var a := g.initialState;
    var t :| Goal(g, t) && Route(g, false, w, a, t);
    var nodes := Nodes(w, a);
    NodesOfRoute(g, false, w, a, t, 0);
    forall i: nat | i < |w|
      ensures exists e :: StandIn(g, w[i], e)
    {
      NodesOfRoute(g, false, w, a, t, i);
      NodesOfRoute(g, false, w, a, t, i + 1);
      HopCostBound(g, false, w, a, t, i);
      PathShowsHop(g, w, nodes, path, i);
      var e := StandInExists(g, w[i], path, i);
    }
    if w == [] {
      w' := [];
      assert Route(g, true, w', a, t);
    } else {
      var h := w[|w| - 1];
      var prefix := ReplaceHops(g, w[..|w| - 1], a, h.from);
      var e :| StandIn(g, h, e);
      RouteExtends(g, true, prefix, a, Hop(h.from, e));
      w' := prefix + [Hop(h.from, e)];
      assert Goal(g, e.to) && Route(g, true, w', a, e.to);
    }
  }

  lemma PathShowsHop(g: Graph, w: seq<Hop>, nodes: seq<Name>, path: seq<Name>, i: nat)
    requires |nodes| == |w| + 1 && path == Shown(g, nodes) && i < |w|
    requires nodes[i] == w[i].from && nodes[i + 1] == w[i].edge.to
    requires forall k :: 0 <= k < |w| ==> !Goal(g, w[k].from)
    requires i + 1 < |w| ==> nodes[i + 1] == w[i + 1].from
    ensures i + 1 < |path| && path[i] == w[i].from && path[i + 1] == Rewritten(g, w[i].edge.to)
  {
  }

  // -------------------------------------------------------------- the diagnostics

  datatype Diagnostic =
    | UnsatisfiableBudget(path: seq<Name>, steps: int)
    | UnsatisfiableVisits(path: seq<Name>, step: Name, visits: int, maxVisits: int)

  /** The target can be reached for less than math.MaxInt. */
  ghost predicate Attainable(g: Graph, enforce: bool) {
    exists w :: GoalRoute(g, enforce, w) && Cost(w) < MAX_INT
  }

  ghost predicate CheapestPath(g: Graph, path: seq<Name>, steps: int) {
    exists w :: Reported(g, false, w, steps, path) && forall v :: GoalRoute(g, false, v) ==> steps <= Cost(v)
  }

  /** What a diagnostic shows is true: a cheapest route to the target and what it costs, or the first step
      on one that cannot keep its bound, with the visits it needs and the visits it has. */
  ghost predicate Evidence(g: Graph, d: Diagnostic) {
    match d
    case UnsatisfiableBudget(path, steps) => CheapestPath(g, path, steps)
    case UnsatisfiableVisits(path, step, visits, maxVisits) =>
      && (exists steps :: CheapestPath(g, path, steps))
      && (exists i: nat :: FirstViolation(g, path, i, step, visits, maxVisits))
  }

  /** The least cost the search finds is over the budget. */
  ghost predicate BudgetErrorEmitted(g: Graph) {
    var v := Search(g, false);
    g.maxTotalSteps > 0 && v.Arrived? && v.steps > g.maxTotalSteps
  }

  ghost predicate Violated(g: Graph, path: seq<Name>) {
    exists i: nat :: i + 1 < |path| && ViolatesAt(g, path, i)
  }

  /** The search arrives, but not within the bounds, and the path it shows has a step that breaks its bound. */
  ghost predicate VisitErrorEmitted(g: Graph) {
    var v := Search(g, false);
    && v.Arrived? && Search(g, true).Exhausted?
    && exists p :: FollowsParents(v.labels.parent, p, g.initialState, v.goal) && Violated(g, Shown(g, p))
  }

  /** Neither search overflows. */
  ghost predicate InRange(g: Graph) {
    NoOverflow(g, false) && NoOverflow(g, true)
  }

  /** Both searches can reconstruct their path. */
  ghost predicate PathsEnd(g: Graph) {
    Traceable(g, false) && (Search(g, false).Arrived? ==> Traceable(g, true))
  }

  /** What the two errors say of the routes below math.MaxInt: there are some, and every route overspends a positive
      budget; there are some, but none of them keeps every step's visit bound. Each error shows its evidence. */
  ghost predicate RightlyDiagnosed(g: Graph, diags: seq<Diagnostic>) {
    && ((exists d :: d in diags && d.UnsatisfiableBudget?) <==>
        && g.maxTotalSteps > 0 && Attainable(g, false)
        && forall w :: GoalRoute(g, false, w) ==> Cost(w) > g.maxTotalSteps)
    && ((exists d :: d in diags && d.UnsatisfiableVisits?) <==> Attainable(g, false) && !Attainable(g, true))
    && (forall d :: d in diags ==> Evidence(g, d))
  }

  lemma SearchAttains(g: Graph, enforce: bool)
    requires NoOverflow(g, enforce)
    ensures Search(g, enforce).Arrived? <==> Attainable(g, enforce)
  {
    hide NoOverflow, Search, GoalRoute, Cost;
    SearchExact(g, enforce);
  }

  /** When nothing overflows, the visit error is emitted exactly when routes below math.MaxInt exist and none of them
      keeps the bounds. */
  lemma VisitErrorIff(g: Graph)
    requires InRange(g) && CollectionsFit(g)
    ensures VisitErrorEmitted(g) <==> Attainable(g, false) && !Attainable(g, true)
  {
    hide Search, NoOverflow, GoalRoute, Cost, Violated, CollectionsFit, FollowsParents, Exact, Reported;
    SearchAttains(g, false);
    SearchAttains(g, true);
    NoOverflowTraceable(g, false);
    var v := Search(g, false);
    if v.Arrived? && !Attainable(g, true) {
      var p :| FollowsParents(v.labels.parent, p, g.initialState, v.goal);
      ViolatedWithinBounds(g, p);
    }
  }

  lemma ViolatedWithinBounds(g: Graph, p: seq<Name>)
    requires InRange(g) && CollectionsFit(g) && !Attainable(g, true) && Search(g, false).Arrived?
    requires FollowsParents(Search(g, false).labels.parent, p, g.initialState, Search(g, false).goal)
    ensures Violated(g, Shown(g, p))
  {
    hide Search, NoOverflow, GoalRoute, Cost, ViolatesAt, CollectionsFit, FollowsParents, Reported, Shown;
    SearchExact(g, false);
    var w := SearchReports(g, false, p);
    if !Violated(g, Shown(g, p)) {
      HopsBelow(g, w, Search(g, false).steps, Shown(g, p));
      var w' := NoViolationMeansFeasible(g, w, Search(g, false).steps, Shown(g, p));
    }
  }

  /** The path shown decides the visit error, since only one path follows the parents. */
  lemma VisitErrorOnPath(g: Graph, p: seq<Name>)
    requires Search(g, false).Arrived?
    requires FollowsParents(Search(g, false).labels.parent, p, g.initialState, Search(g, false).goal)
    ensures VisitErrorEmitted(g) <==> Search(g, true).Exhausted? && Violated(g, Shown(g, p))
  {
    hide Search, Violated, FollowsParents, Shown;
    var v := Search(g, false);
    if VisitErrorEmitted(g) {
      var q :| FollowsParents(v.labels.parent, q, g.initialState, v.goal) && Violated(g, Shown(g, q));
      FollowsUnique(v.labels.parent, p, q, g.initialState, v.goal);
    }
  }

  /** Each error follows what the searches report. When nothing overflows, both are right about the routes below
      math.MaxInt. */
  method CheckBudgetAndVisitFeasibility(g: Graph) returns (diags: seq<Diagnostic>)
    requires Named(g) && PathsEnd(g) && CollectionsFit(g) && "" !in g.steps
    ensures (exists d :: d in diags && d.UnsatisfiableBudget?) <==> BudgetErrorEmitted(g)
    ensures (exists d :: d in diags && d.UnsatisfiableVisits?) <==> VisitErrorEmitted(g)
    ensures InRange(g) ==> RightlyDiagnosed(g, diags)
  {
    hide GoalRoute, Reported, ViolatesAt, CollectionsFit, Cost, FirstViolation, Search, NoOverflow, Named, Traceable,
         Evidence, Attainable, CheapestPath, FollowsParents, Shown;
    diags := [];
    var minSteps, minPath, ok := ShortestStepPathToTarget(g, false);
    if InRange(g) {
      SearchAttains(g, false);
      SearchAttains(g, true);
    }
    if !ok {
      return;
    }
    if g.maxTotalSteps > 0 && minSteps > g.maxTotalSteps {
      diags := [UnsatisfiableBudget(minPath, minSteps)];
      assert diags[0].UnsatisfiableBudget?;
    }
    ghost var first := diags;
    ghost var p :| FollowsParents(Search(g, false).labels.parent, p, g.initialState, Search(g, false).goal)
                   && minPath == Shown(g, p);
    VisitErrorOnPath(g, p);
    if InRange(g) {
      BudgetRight(g, minSteps, minPath, diags);
    }
    var _, visitPath, validVisitPathExists := ShortestStepPathToTarget(g, true);
    if !validVisitPathExists {
      var violatingStep, reqVisits, maxVisits := FindVisitBoundViolationOnPath(minPath, g);
      if InRange(g) {
        VisitsRight(g, minSteps, minPath, violatingStep, reqVisits, maxVisits);
      }
      if violatingStep != "" {
        diags := diags + [UnsatisfiableVisits(minPath, violatingStep, reqVisits, maxVisits)];
        assert diags[|diags| - 1].UnsatisfiableVisits?;
        assert forall d :: d in first ==> d in diags;
      }
    }
  }

  /** The budget error, with its evidence. */
  lemma BudgetRight(g: Graph, minSteps: int, minPath: seq<Name>, diags: seq<Diagnostic>)
    requires Exact(g, false, Search(g, false)) && Search(g, false).Arrived? && minSteps == Search(g, false).steps
    requires exists w :: Reported(g, false, w, minSteps, minPath)
    requires diags == if g.maxTotalSteps > 0 &&
        minSteps > g.maxTotalSteps then [UnsatisfiableBudget(minPath, minSteps)] else []
    ensures diags != [] <==> g.maxTotalSteps > 0 && forall w :: GoalRoute(g, false, w) ==> Cost(w) > g.maxTotalSteps
    ensures forall d :: d in diags ==> Evidence(g, d)
    ensures CheapestPath(g, minPath, minSteps)
  {
    hide GoalRoute, Reported, Search, Cost;
    var w :| Reported(g, false, w, minSteps, minPath);
    assert CheapestPath(g, minPath, minSteps);
  }

  /** The visit error, with its evidence: the search within bounds failed, so a step of the path breaks its bound. */
  lemma VisitsRight(g: Graph, minSteps: int, minPath: seq<Name>, step: Name, visits: int, maxVisits: int)
    requires CollectionsFit(g) && !Attainable(g, true) && CheapestPath(g, minPath, minSteps) && minSteps < MAX_INT
    requires step == "" <==> forall i: nat :: i + 1 < |minPath| ==> !ViolatesAt(g, minPath, i)
    requires step != "" ==> exists i: nat :: FirstViolation(g, minPath, i, step, visits, maxVisits)
    ensures step != "" && Evidence(g, UnsatisfiableVisits(minPath, step, visits, maxVisits))
  {
    hide GoalRoute, Reported, Cost, ViolatesAt, FirstViolation, CollectionsFit;
    var w :| Reported(g, false, w, minSteps, minPath);
    if step == "" {
      HopsBelow(g, w, minSteps, minPath);
      var w' := NoViolationMeansFeasible(g, w, minSteps, minPath);
      assert false;
    }
  }
}
