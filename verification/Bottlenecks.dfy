/** What the feasibility check says of a step that no run can go around (checkBudgetAndVisitFeasibility). */
module Bottlenecks {
  import opened Names
  import opened FsmGraph
  import opened Budget
  import opened Feasibility
  import opened Overflows

  /** The step is left only when all of its `n` turns have succeeded. */
  ghost predicate RunsAllTurns(step: Step, n: int) {
    Serial(step, n) && forall o :: DeclaresOutcome(step, o) ==> o.name == "all_succeeded"
  }

  /** Likewise, but its `n` turns are taken at once. */
  ghost predicate RunsAllAtOnce(step: Step, n: int) {
    AtOnce(step, n) && forall o :: DeclaresOutcome(step, o) ==> o.name == "all_succeeded"
  }

  lemma AllTurnsCost(step: Step, n: int, steps: int, visits: int)
    requires Costs(step, "all_succeeded", steps, visits)
    ensures Serial(step, n) ==> steps == visits == n
    ensures AtOnce(step, n) ==> steps == 1 && visits == n
  {
  }

  /** Every way out of the step costs as many visits as it has turns, and as many steps unless they are taken at
      once. */
  lemma AllTurnsPrice(g: Graph, u: Name, n: int, e: WeightedEdge)
    requires u in g.steps && e in WeightedEdges(u, g)
    ensures RunsAllTurns(g.steps[u], n) ==> e.stepCost == e.visitCost == n
    ensures RunsAllAtOnce(g.steps[u], n) ==> e.stepCost == 1 && e.visitCost == n
  {
    hide WeightedEdges, Costs, Serial, AtOnce, DeclaresOutcome;
    EdgesPriced(u, g, e);
    var o :| DeclaresOutcome(g.steps[u], o) && Costs(g.steps[u], o.name, e.stepCost, e.visitCost);
    if o.name == "all_succeeded" {
      AllTurnsCost(g.steps[u], n, e.stepCost, e.visitCost);
    }
  }

  ghost predicate Passes(w: seq<Hop>, u: Name) {
    exists i :: 0 <= i < |w| && w[i].from == u
  }

  /** Every route to the target leaves the step. */
  ghost predicate Unavoidable(g: Graph, u: Name) {
    forall w :: GoalRoute(g, false, w) ==> Passes(w, u)
  }

  lemma {:induction false} BoundedRoute(g: Graph, w: seq<Hop>, a: Name, b: Name)
    requires Route(g, true, w, a, b)
    ensures Route(g, false, w, a, b)
  {
    hide WeightedEdges;
    if w != [] {
      BoundedRoute(g, w[..|w| - 1], a, w[|w| - 1].from);
    }
  }

  /** A step with more turns than visits cannot be left within its bound. */
  lemma NoBoundedRoute(g: Graph, u: Name, n: int, w: seq<Hop>)
    requires u in g.steps && (RunsAllTurns(g.steps[u], n) || RunsAllAtOnce(g.steps[u], n)) && Unavoidable(g, u)
    requires 0 < g.steps[u].maxVisits < n
    ensures !GoalRoute(g, true, w)
  {
    hide WeightedEdges, RunsAllTurns, RunsAllAtOnce;
    if GoalRoute(g, true, w) {
      var t :| Goal(g, t) && Route(g, true, w, g.initialState, t);
      BoundedRoute(g, w, g.initialState, t);
      assert GoalRoute(g, false, w);
      var i :| 0 <= i < |w| && w[i].from == u;
      HopCostBound(g, true, w, g.initialState, t, i);
      AllTurnsPrice(g, u, n, w[i].edge);
    }
  }

  /** Every route spends the turns of the step. */
  lemma SpendsAllTurns(g: Graph, u: Name, n: int, w: seq<Hop>)
    requires u in g.steps && RunsAllTurns(g.steps[u], n) && Unavoidable(g, u) && GoalRoute(g, false, w)
    ensures Cost(w) >= n
  {
    hide WeightedEdges, RunsAllTurns;
    var t :| Goal(g, t) && Route(g, false, w, g.initialState, t);
    var i :| 0 <= i < |w| && w[i].from == u;
    HopCostBound(g, false, w, g.initialState, t, i);
    AllTurnsPrice(g, u, n, w[i].edge);
  }

  /** A step that no route goes around, with more turns than its bound allows visits, draws the visit error; with more
      turns in a row than the budget has steps, the budget error. */
  lemma BottleneckErrors(g: Graph, u: Name, n: int)
    requires InRange(g) && CollectionsFit(g) && Attainable(g, false) && u in g.steps && Unavoidable(g, u)
    ensures (RunsAllTurns(g.steps[u], n) || RunsAllAtOnce(g.steps[u], n)) && 0 < g.steps[u].maxVisits < n ==>
              VisitErrorEmitted(g)
    ensures RunsAllTurns(g.steps[u], n) && 0 < g.maxTotalSteps < n ==> BudgetErrorEmitted(g)
  {
    hide InRange, CollectionsFit, RunsAllTurns, RunsAllAtOnce, Unavoidable, GoalRoute, VisitErrorEmitted, Cost;
    VisitErrorIff(g);
    if (RunsAllTurns(g.steps[u], n) || RunsAllAtOnce(g.steps[u], n)) && 0 < g.steps[u].maxVisits < n {
      forall w: seq<Hop>
        ensures !GoalRoute(g, true, w)
      {
        NoBoundedRoute(g, u, n, w);
      }
    }
    if RunsAllTurns(g.steps[u], n) && 0 < g.maxTotalSteps < n {
      RangeParts(g);
      SearchExact(g, false);
      SearchAttains(g, false);
      var v := Search(g, false);
      var w :| GoalRoute(g, false, w) && Cost(w) == v.steps;
      SpendsAllTurns(g, u, n, w);
    }
  }

  lemma RangeParts(g: Graph)
    requires InRange(g)
    ensures NoOverflow(g, false)
  {
    hide NoOverflow;
  }

  /** The step a run starts with cannot be gone around. */
  lemma FirstStepUnavoidable(g: Graph)
    requires !Goal(g, g.initialState)
    ensures Unavoidable(g, g.initialState)
  {
    hide WeightedEdges;
    forall w | GoalRoute(g, false, w)
      ensures Passes(w, g.initialState)
    {
      var t :| Goal(g, t) && Route(g, false, w, g.initialState, t);
      FirstHop(g, false, w, g.initialState, t);
    }
  }
}
