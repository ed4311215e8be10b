/** Where the 64-bit arithmetic of the step search ends: counts that saturate, sums that wrap. */
module Overflows {
  import opened Names
  import opened FsmGraph
  import opened Paths
  import opened Budget
  import opened Feasibility

  // ------------------------------------------------------------- the budget error

  /** Every route to the target overspends a positive budget, and there is one. */
  ghost predicate BudgetErrorDue(g: Graph) {
    && g.maxTotalSteps > 0 && (exists w :: GoalRoute(g, false, w))
    && forall w :: GoalRoute(g, false, w) ==> Cost(w) > g.maxTotalSteps
  }

  /** Some route costs less than the search can tell from "none", or no more than the budget. */
  ghost predicate Affordable(g: Graph) {
    exists w :: GoalRoute(g, false, w) && (Cost(w) < MAX_INT || Cost(w) <= g.maxTotalSteps)
  }

  /** When nothing overflows, the budget error is emitted as it should be exactly when there is no positive budget, no
      route at all, or a route below math.MaxInt (or within a budget of math.MaxInt). */
  lemma BudgetErrorExactIff(g: Graph)
    requires NoOverflow(g, false)
    ensures (BudgetErrorEmitted(g) <==> BudgetErrorDue(g)) <==>
            g.maxTotalSteps <= 0 || (forall w :: !GoalRoute(g, false, w)) || Affordable(g)
  {
    hide GoalRoute, NoOverflow, Search, Cost;
    SearchExact(g, false);
  }

  // -------------------------------------------------------------- the visit error

  /** There are routes to the target, but none within every visit bound. */
  ghost predicate VisitErrorDue(g: Graph) {
    (exists w :: GoalRoute(g, false, w)) && forall w :: !GoalRoute(g, true, w)
  }

  /** When nothing overflows, the visit error is emitted as it should be exactly when there is no route at all; or no
      route within the bounds, but one below math.MaxInt; or a route within the bounds, and one of these is below
      math.MaxInt or none of any kind is. */
  lemma VisitErrorExactIff(g: Graph)
    requires InRange(g) && CollectionsFit(g)
    ensures (VisitErrorEmitted(g) <==> VisitErrorDue(g)) <==>
            || (forall w :: !GoalRoute(g, false, w))
            || ((forall w :: !GoalRoute(g, true, w)) && Attainable(g, false))
            || ((exists w :: GoalRoute(g, true, w)) && (Attainable(g, true) || !Attainable(g, false)))
  {
    hide GoalRoute, InRange, CollectionsFit, VisitErrorEmitted, Cost;
    VisitErrorIff(g);
  }

  // ----------------------------------------------------------- steps of a given cost

  /** A step that runs `n` times and then moves on, with its visit bound. */
  ghost function Counted(n: Int64, max: Int64, next: Name): Step {
    Step(map["all_succeeded" := Outcome("all_succeeded", next, false)], None, "", max, Some(n), None, None, false,
         true)
  }

  /** One that may also fail on the first item. */
  ghost function Fallible(n: Int64, max: Int64, next: Name, failed: Name): Step {
    Counted(n, max, next).(outcomes := map["all_succeeded" := Outcome("all_succeeded", next, false),
        "failure" := Outcome("failure", failed, false)])
  }

  /** An ordinary node name. */
  predicate Plain(n: Name) {
    n != CONTINUE && n != RETURN && n != ""
  }

  lemma PlainNames()
    ensures Plain("a") && Plain("b") && Plain("c") && Plain("s") && Plain("z")
    ensures RETURN !in {"a", "b", "c", "s", "z"}
  {
    assert |CONTINUE| == 9 && |RETURN| == 6 && |""| == 0;
    assert |"a"| == 1 && |"b"| == 1 && |"c"| == 1 && |"s"| == 1 && |"z"| == 1;
  }

  lemma OneEdge(step: Step, o: Outcome)
    requires Plain(o.next)
    ensures OutcomeEdges(step, [o]) ==
            [WeightedEdge(o.next, StepOutcomeCosts(step, o).0, StepOutcomeCosts(step, o).1)]
  {
    assert OutcomeEdges(step, [o]) ==
           [WeightedEdge(o.next, StepOutcomeCosts(step, o).0, StepOutcomeCosts(step, o).1)] + OutcomeEdges(step, []);
  }

  lemma CountedEdges(u: Name, g: Graph, n: Int64, max: Int64, next: Name)
    requires u in g.steps && g.steps[u] == Counted(n, max, next) && n >= 1 && Plain(next)
    ensures WeightedEdges(u, g) == [WeightedEdge(next, n, n)]
  {
    hide MapValues, OutcomeEdges;
    var o := Outcome("all_succeeded", next, false);
    SingletonValues("all_succeeded", o);
    assert StepOutcomes(g.steps[u]) == [o];
    OneEdge(g.steps[u], o);
  }

  lemma TwoKeys(j: Name, k: Name)
    requires Less(j, k)
    ensures SortedKeys({j, k}) == [j, k]
  {
    LessExactlyOne(j, k);
    hide Less, SortedKeys;
    var keys := SortedKeys({j, k});
    assert |{j, k}| == 2 && j in keys && k in keys;
    var x, y := keys[0], keys[1];
    assert keys == [x, y] && Less(x, y) && x in keys && y in keys;
    assert x == j && y == k;
  }

  lemma TwoValues<V>(j: Name, v: V, k: Name, w: V)
    requires Less(j, k)
    ensures MapValues(map[j := v, k := w]) == [v, w]
  {
    LessExactlyOne(j, k);
    TwoKeys(j, k);
    hide Less, SortedKeys;
    var m := map[j := v, k := w];
    assert m.Keys == {j, k};
  }

  lemma FallibleEdges(u: Name, g: Graph, n: Int64, max: Int64, next: Name, failed: Name)
    requires u in g.steps && g.steps[u] == Fallible(n, max, next, failed) && n >= 1
    requires Plain(next) && Plain(failed)
    ensures WeightedEdges(u, g) == [WeightedEdge(next, n, n), WeightedEdge(failed, 1, 1)]
  {
    hide MapValues, OutcomeEdges;
    var o, f := Outcome("all_succeeded", next, false), Outcome("failure", failed, false);
    assert "all_succeeded"[0] == 'a' && "failure"[0] == 'f';
    TwoValues("all_succeeded", o, "failure", f);
    var step := g.steps[u];
    assert StepOutcomes(step) == [o, f];
    OneEdge(step, f);
    assert "all_succeeded" != "failure" && "any_failed"[0] == 'a';
    assert StepOutcomeCosts(step, f) == (1, 1) && StepOutcomeCosts(step, o) == (n, n);
    TwoEdges(step, o, f);
  }

  lemma TwoEdges(step: Step, o: Outcome, f: Outcome)
    requires Plain(o.next)
    ensures OutcomeEdges(step, [o, f]) ==
            [WeightedEdge(o.next, StepOutcomeCosts(step, o).0, StepOutcomeCosts(step, o).1)] + OutcomeEdges(step, [f])
  {
    assert [o, f][1..] == [f];
  }

  lemma NoEdges(u: Name, g: Graph)
    requires u !in g.steps && u !in g.switches && u !in g.waits && u !in g.approvals
    ensures WeightedEdges(u, g) == []
  {
  }

  lemma SwitchEdge(u: Name, g: Graph, next: Name)
    requires u !in g.steps && u in g.switches && g.switches[u] == Switch([], next) && Plain(next)
    ensures WeightedEdges(u, g) == [WeightedEdge(next, 0, 0)]
  {
    assert FreeEdges([next]) == [WeightedEdge(next, 0, 0)] + FreeEdges([]);
  }

  lemma RelaxOne(l: Labels, u: Name, d: int, g: Graph, enforce: bool, e: WeightedEdge)
    ensures RelaxEdges(l, u, d, g, enforce, [e]) == if Skipped(g, enforce, u, e) then l else RelaxEdge(l, u, d, e)
  {
    assert [e][..0] == [];
  }

  lemma RelaxTwo(l: Labels, u: Name, d: int, g: Graph, enforce: bool, e: WeightedEdge, f: WeightedEdge)
    requires !Skipped(g, enforce, u, f)
    ensures RelaxEdges(l, u, d, g, enforce, [e, f]) ==
            RelaxEdge(if Skipped(g, enforce, u, e) then l else RelaxEdge(l, u, d, e), u, d, f)
  {
    assert [e, f][..1] == [e];
    RelaxOne(l, u, d, g, enforce, e);
  }

  /** One turn of the search. */
  lemma Turn(g: Graph, enforce: bool, l: Labels, visited: set<Name>, u: Name)
    requires l.dist.Keys <= Universe(g) && IsNext(l.dist, visited, u) && !Goal(g, u)
    ensures After(g, enforce, l, u).dist.Keys <= Universe(g)
    ensures SearchFrom(g, enforce, l, visited) ==
            Preceded([Visit(u, l.dist[u])], SearchFrom(g, enforce, After(g, enforce, l, u), visited + {u}))
  {
    hide Universe, WeightedEdges, RelaxEdges;
    NextIs(l.dist, visited, u);
    RelaxStaysInUniverse(g, enforce, l, u, l.dist[u], WeightedEdges(u, g));
  }

  /** The last turn. */
  lemma Arrival(g: Graph, enforce: bool, l: Labels, visited: set<Name>, u: Name)
    requires l.dist.Keys <= Universe(g) && IsNext(l.dist, visited, u) && Goal(g, u)
    ensures SearchFrom(g, enforce, l, visited) == Arrived([], l, u, l.dist[u])
  {
    NextIs(l.dist, visited, u);
  }

  /** A search with nothing left to visit below math.MaxInt. */
  lemma NothingLeft(g: Graph, enforce: bool, l: Labels, visited: set<Name>)
    requires l.dist.Keys <= Universe(g) && forall n :: n in l.dist ==> n in visited || l.dist[n] >= MAX_INT
    ensures SearchFrom(g, enforce, l, visited) == Exhausted([], l)
  {
    NextExists(l.dist, visited);
  }

  /** A route out of `a` begins with one of its edges and goes on from there. */
  lemma {:induction false} FirstHop(g: Graph, enforce: bool, w: seq<Hop>, a: Name, b: Name)
    requires Route(g, enforce, w, a, b) && w != []
    ensures Permitted(g, enforce, w[0]) && w[0].from == a
    ensures Route(g, enforce, w[1..], w[0].edge.to, b) && Cost(w) == w[0].edge.stepCost + Cost(w[1..])
  {
    hide WeightedEdges;
    var init, h := w[..|w| - 1], w[|w| - 1];
    if init == [] {
      assert w[1..] == [];
    } else {
      FirstHop(g, enforce, init, a, h.from);
      assert w[1..] == init[1..] + [h] && w[1..][..|w| - 2] == init[1..];
    }
  }

  /** A workflow of steps and switches with one terminal state, its target, and a budget of 100. */
  ghost function Workflow(initial: Name, target: Name, steps: map<Name, Step>, order: seq<Name>,
                          switches: map<Name, Switch>): Graph {
    Graph(initial, target, 100, steps, order, switches, map[], map[], map[target := State(true, "")])
  }

  /** Such a workflow is well-formed when its transitions lead to its own nodes. */
  lemma WorkflowWellFormed(g: Graph)
    requires g == Workflow(g.initialState, g.targetState, g.steps, g.stepOrder, g.switches)
    requires OrderListsSteps(g) && g.steps.Keys !! g.switches.Keys && g.initialState in Declared(g)
    requires g.targetState !in g.steps && g.targetState !in g.switches && forall n :: n in Declared(g) ==> Plain(n)
    requires forall u, e :: e in WeightedEdges(u, g) ==> e.to in Declared(g)
    ensures WellFormed(g)
  {
    hide WeightedEdges, NodeTargets;
    forall u, v | u in Declared(g) && v in NodeTargets(u, g)
      ensures v in Declared(g)
    {
      EndsAndTargets(u, g);
      assert v in EdgeEnds(u, g);
    }
  }

  /** A route of one hop more, and the route it extends. */
  lemma Extended(g: Graph, enforce: bool, w: seq<Hop>, u: Name, e: WeightedEdge) returns (w': seq<Hop>)
    requires Route(g, enforce, w, g.initialState, u) && Permitted(g, enforce, Hop(u, e))
    ensures Route(g, enforce, w', g.initialState, e.to) && Cost(w') == Cost(w) + e.stepCost
  {
    hide WeightedEdges;
    RouteExtends(g, enforce, w, g.initialState, Hop(u, e));
    w' := w + [Hop(u, e)];
  }

  /** Every route to a goal spends at least the first hop. */
  lemma SpendsFirst(g: Graph, enforce: bool, w: seq<Hop>, u: Name, t: Name) returns (e: WeightedEdge, rest: seq<Hop>)
    requires Route(g, enforce, w, u, t) && u != t
    ensures Permitted(g, enforce, Hop(u, e)) && Route(g, enforce, rest, e.to, t)
    ensures Cost(w) == e.stepCost + Cost(rest) && Cost(rest) >= 0
  {
    hide WeightedEdges;
    FirstHop(g, enforce, w, u, t);
    e, rest := w[0].edge, w[1..];
    CostNonNegative(g, enforce, rest, e.to, t);
  }

  /** The cheapest route to the target costs `c`. */
  ghost predicate LeastCost(g: Graph, c: int) {
    (exists w :: GoalRoute(g, false, w) && Cost(w) == c) && forall w :: GoalRoute(g, false, w) ==> Cost(w) >= c
  }

  lemma OnlyWayOut(g: Graph, enforce: bool, w: seq<Hop>, u: Name, t: Name, e: WeightedEdge) returns (rest: seq<Hop>)
    requires Route(g, enforce, w, u, t) && u != t && WeightedEdges(u, g) == [e]
    ensures Route(g, enforce, rest, e.to, t) && Cost(w) == e.stepCost + Cost(rest)
  {
    hide WeightedEdges, Route, Cost;
    var f;
    f, rest := SpendsFirst(g, enforce, w, u, t);
  }

  // ------------------------------------------------------------- a saturated count

  /** One step whose folded count is math.MaxInt, with a visit bound. */
  ghost function Saturated(max: Int64): Graph {
    Workflow("a", "z", map["a" := Counted(MAX_INT, max, "z")], ["a"], map[])
  }

  lemma SaturatedEdges(max: Int64, u: Name)
    ensures WeightedEdges(u, Saturated(max)) == if u == "a" then [WeightedEdge("z", MAX_INT, MAX_INT)] else []
  {
    PlainNames();
    if u == "a" {
      CountedEdges(u, Saturated(max), MAX_INT, max, "z");
    }
  }

  /** Bounded or not, the search cannot tell the step's distance from "none". */
  lemma SaturatedSearch(max: Int64, enforce: bool)
    ensures var v := Search(Saturated(max), enforce); v.Exhausted? && v.visits == [Visit("a", 0)]
  {
    hide WeightedEdges, Universe;
    var g := Saturated(max);
    PlainNames();
    InitialInUniverse(g);
    SaturatedEdges(max, "a");
    var l := Start(g);
    RelaxOne(l, "a", 0, g, enforce, WeightedEdge("z", MAX_INT, MAX_INT));
    Turn(g, enforce, l, {}, "a");
    NothingLeft(g, enforce, After(g, enforce, l, "a"), {} + {"a"});
  }

  lemma SaturatedFacts(max: Int64)
    ensures var g := Saturated(max); WellFormed(g) && InRange(g) && exists w :: GoalRoute(g, false, w)
  {
    hide WeightedEdges, Search, Less, Counted, Fallible;
    var g := Saturated(max);
    SaturatedSearch(max, false);
    SaturatedSearch(max, true);
    forall u
      ensures WeightedEdges(u, g) == if u == "a" then [WeightedEdge("z", MAX_INT, MAX_INT)] else []
    {
      SaturatedEdges(max, u);
    }
    PlainNames();
    assert Declared(g) == {"a", "z"} && (set n | n in g.stepOrder) == {"a"};
    WorkflowWellFormed(g);
    var w := Extended(g, false, [], "a", WeightedEdge("z", MAX_INT, MAX_INT));
    assert Goal(g, "z") && GoalRoute(g, false, w);
  }

  /** Nothing overflows, but the search finds no route: no budget error, although the only route overspends any
      budget. */
  lemma SaturatedCountEscapesBudget()
    ensures var g := Saturated(0);
            WellFormed(g) && NoOverflow(g, false) && BudgetErrorDue(g) && !BudgetErrorEmitted(g)
  {
    hide WeightedEdges, Search, WellFormed, NoOverflow, Counted;
    var g := Saturated(0);
    PlainNames();
    SaturatedSearch(0, false);
    SaturatedFacts(0);
    SaturatedEdges(0, "a");
    forall w: seq<Hop> | GoalRoute(g, false, w)
      ensures Cost(w) > 100
    {
      var t :| Goal(g, t) && Route(g, false, w, "a", t);
      var e, rest := SpendsFirst(g, false, w, "a", t);
    }
  }

  /** With a bound of one visit the only route breaks it, and there is no visit error either. */
  lemma SaturatedCountEscapesBound()
    ensures var g := Saturated(1);
            WellFormed(g) && InRange(g) && CollectionsFit(g) && VisitErrorDue(g) && !VisitErrorEmitted(g)
  {
    hide WeightedEdges, Search, WellFormed, InRange;
    var g := Saturated(1);
    PlainNames();
    SaturatedSearch(1, false);
    SaturatedFacts(1);
    SaturatedEdges(1, "a");
    forall w: seq<Hop>
      ensures !GoalRoute(g, true, w)
    {
      if GoalRoute(g, true, w) {
        var t :| Goal(g, t) && Route(g, true, w, "a", t);
        var e, rest := SpendsFirst(g, true, w, "a", t);
      }
    }
  }

  // --------------------------------------------- a route within bounds that costs math.MaxInt

  /** A step bounded to one visit that needs five to succeed, or fails over to one that needs nearly all there are. */
  ghost function Failover(): Graph {
    Workflow("a", "z", map["a" := Fallible(5, 1, "z", "b"), "b" := Counted(MAX_INT - 1, 0, "z")], ["a", "b"], map[])
  }

  ghost function FailoverEdge(u: Name): seq<WeightedEdge> {
    if u == "a" then [WeightedEdge("z", 5, 5), WeightedEdge("b", 1, 1)]
    else if u == "b" then [WeightedEdge("z", MAX_INT - 1, MAX_INT - 1)] else []
  }

  lemma FailoverEdges(u: Name)
    ensures WeightedEdges(u, Failover()) == FailoverEdge(u)
  {
    hide Fallible, Counted, WeightedEdges;
    PlainNames();
    var g := Failover();
    if u == "a" {
      FallibleEdges(u, g, 5, 1, "z", "b");
    } else if u == "b" {
      CountedEdges(u, g, MAX_INT - 1, 0, "z");
    } else {
      NoEdges(u, g);
    }
  }

  /** Without the bounds the search arrives after both steps are visited. */
  lemma FailoverSearch()
    ensures var v := Search(Failover(), false);
            && v.Arrived? && v.goal == "z" && v.steps == 5 && v.visits == [Visit("a", 0), Visit("b", 1)]
            && v.labels.parent == map["z" := "a", "b" := "a"]
  {
    PlainNames();
    FailoverEdges("a");
    FailoverEdges("b");
    hide WeightedEdges, Universe, SearchFrom, Less, Plain, Counted, Fallible;
    var g := Failover();
    InitialInUniverse(g);
    var l0, e, f := Start(g), WeightedEdge("z", 5, 5), WeightedEdge("b", 1, 1);
    RelaxTwo(l0, "a", 0, g, false, e, f);
    Turn(g, false, l0, {}, "a");
    var l1, v1 := RelaxEdge(RelaxEdge(l0, "a", 0, e), "a", 0, f), {} + {"a"};
    assert l1 == Labels(map["a" := 0, "z" := 5, "b" := 1], map["z" := "a", "b" := "a"]);
    RelaxOne(l1, "b", 1, g, false, WeightedEdge("z", MAX_INT - 1, MAX_INT - 1));
    Turn(g, false, l1, v1, "b");
    Arrival(g, false, l1, v1 + {"b"}, "z");
    assert [Visit("a", 0)] + ([Visit("b", 1)] + []) == [Visit("a", 0), Visit("b", 1)];
  }

  /** Within them it visits both steps and finds nothing below math.MaxInt. */
  lemma FailoverBoundedSearch()
    ensures var v := Search(Failover(), true); v.Exhausted? && v.visits == [Visit("a", 0), Visit("b", 1)]
  {
    PlainNames();
    FailoverEdges("a");
    FailoverEdges("b");
    FailoverBounds();
    hide WeightedEdges, Universe, SearchFrom, Less, Plain, Before, Counted, Fallible, Skipped;
    var g := Failover();
    InitialInUniverse(g);
    var l0, f := Start(g), WeightedEdge("b", 1, 1);
    RelaxTwo(l0, "a", 0, g, true, WeightedEdge("z", 5, 5), f);
    Turn(g, true, l0, {}, "a");
    var l1, v1 := RelaxEdge(l0, "a", 0, f), {} + {"a"};
    assert l1 == Labels(map["a" := 0, "b" := 1], map["b" := "a"]);
    RelaxOne(l1, "b", 1, g, true, WeightedEdge("z", MAX_INT - 1, MAX_INT - 1));
    Turn(g, true, l1, v1, "b");
    NothingLeft(g, true, RelaxEdge(l1, "b", 1, WeightedEdge("z", MAX_INT - 1, MAX_INT - 1)), v1 + {"b"});
    assert [Visit("a", 0)] + ([Visit("b", 1)] + []) == [Visit("a", 0), Visit("b", 1)];
  }

  lemma FailoverBounds()
    ensures var g := Failover();
            && Skipped(g, true, "a", WeightedEdge("z", 5, 5)) && !Skipped(g, true, "a", WeightedEdge("b", 1, 1))
            && !Skipped(g, true, "b", WeightedEdge("z", MAX_INT - 1, MAX_INT - 1))
  {
  }

  /** There is a route within every bound, yet the visit error is emitted: the route costs exactly math.MaxInt, and
      the search within bounds cannot tell that from "none". */
  lemma FailoverDeniedInBounds()
    ensures var g := Failover();
            && WellFormed(g) && InRange(g) && CollectionsFit(g)
            && (exists w :: GoalRoute(g, true, w)) && VisitErrorEmitted(g)
  {
    hide WeightedEdges, Search, Less, Counted, Fallible, Skipped, NoOverflow, GoalRoute, WellFormed, CollectionsFit,
         Violated, FollowsParents, Shown;
    var g := Failover();
    forall u
      ensures WeightedEdges(u, g) == FailoverEdge(u)
    {
      FailoverEdges(u);
    }
    FailoverFacts(g);
    FailoverInRange(g);
    FailoverRoute(g);
    FailoverSearch();
    FailoverBoundedSearch();
    FailoverViolated(g);
  }

  lemma FailoverFacts(g: Graph)
    requires g == Failover() && forall u :: WeightedEdges(u, g) == FailoverEdge(u)
    ensures WellFormed(g) && CollectionsFit(g)
  {
    hide WeightedEdges, Less;
    PlainNames();
    assert Declared(g) == {"a", "b", "z"} && (set n | n in g.stepOrder) == {"a", "b"};
    WorkflowWellFormed(g);
  }

  lemma FailoverInRange(g: Graph)
    requires g == Failover() && forall u :: WeightedEdges(u, g) == FailoverEdge(u)
    ensures InRange(g)
  {
    hide WeightedEdges, Search, Counted, Fallible;
    FailoverSearch();
    FailoverBoundedSearch();
  }

  lemma FailoverRoute(g: Graph)
    requires g == Failover() && forall u :: WeightedEdges(u, g) == FailoverEdge(u)
    ensures exists w :: GoalRoute(g, true, w)
  {
    hide WeightedEdges, Counted, Fallible, Skipped;
    FailoverBounds();
    var w := Extended(g, true, [], "a", WeightedEdge("b", 1, 1));
    w := Extended(g, true, w, "b", WeightedEdge("z", MAX_INT - 1, MAX_INT - 1));
    assert Goal(g, "z") && GoalRoute(g, true, w);
  }

  lemma FailoverViolated(g: Graph)
    requires g == Failover() && WeightedEdges("a", g) == FailoverEdge("a")
    ensures FollowsParents(map["z" := "a", "b" := "a"], ["a", "z"], "a", "z") && Violated(g, Shown(g, ["a", "z"]))
  {
    hide WeightedEdges;
    PlainNames();
    var path := ["a", "z"];
    assert IsParent(map["z" := "a", "b" := "a"], "a", "a", "z");
    assert FailoverEdge("a")[..1] == [WeightedEdge("z", 5, 5)];
    assert MinVisits(g, [WeightedEdge("z", 5, 5)], "z") == 5;
    assert ViolatesAt(g, path, 0);
  }

  // ------------------------------------------------------------------- a sum that wraps

  /** Two steps whose counts add up past 64 bits. */
  ghost function Wrapping(): Graph {
    Workflow("a", "z", map["a" := Counted(MAX_INT - 1, 0, "b"), "b" := Counted(5, 0, "z")], ["a", "b"], map[])
  }

  lemma WrappingEdges(u: Name)
    ensures WeightedEdges(u, Wrapping()) ==
            if u == "a" then [WeightedEdge("b", MAX_INT - 1, MAX_INT - 1)]
            else if u == "b" then [WeightedEdge("z", 5, 5)] else []
  {
    PlainNames();
    if u == "a" {
      CountedEdges(u, Wrapping(), MAX_INT - 1, 0, "b");
    } else if u == "b" {
      CountedEdges(u, Wrapping(), 5, 0, "z");
    }
  }

  lemma WrappedSearch()
    ensures var v := Search(Wrapping(), false); v.Arrived? && v.steps < 0
  {
    PlainNames();
    WrappingEdges("a");
    WrappingEdges("b");
    hide WeightedEdges, Universe, SearchFrom, Less, Plain, Before, Counted, Fallible;
    var g := Wrapping();
    InitialInUniverse(g);
    var e, f := WeightedEdge("b", MAX_INT - 1, MAX_INT - 1), WeightedEdge("z", 5, 5);
    var l0 := Start(g);
    RelaxOne(l0, "a", 0, g, false, e);
    Turn(g, false, l0, {}, "a");
    var l1, v1 := RelaxEdge(l0, "a", 0, e), {} + {"a"};
    RelaxOne(l1, "b", MAX_INT - 1, g, false, f);
    Turn(g, false, l1, v1, "b");
    var l2, v2 := RelaxEdge(l1, "b", MAX_INT - 1, f), v1 + {"b"};
    Arrival(g, false, l2, v2, "z");
  }

  /** The distances add up to a negative number, so the search arrives under any budget although the error is due. */
  lemma WrappedCountEscapesBudget()
    ensures var g := Wrapping(); var v := Search(g, false);
            WellFormed(g) && BudgetErrorDue(g) && !BudgetErrorEmitted(g) && v.Arrived? && v.steps < 0
  {
    PlainNames();
    WrappedSearch();
    var g := Wrapping();
    hide WeightedEdges, Search, Less, Counted, Fallible;
    forall u
      ensures WeightedEdges(u, g) == if u == "a" then [WeightedEdge("b", MAX_INT - 1, MAX_INT - 1)]
                                     else if u == "b" then [WeightedEdge("z", 5, 5)] else []
    {
      WrappingEdges(u);
    }
    assert Declared(g) == {"a", "b", "z"} && (set n | n in g.stepOrder) == {"a", "b"};
    WorkflowWellFormed(g);
    var w := Extended(g, false, [], "a", WeightedEdge("b", MAX_INT - 1, MAX_INT - 1));
    w := Extended(g, false, w, "b", WeightedEdge("z", 5, 5));
    assert Goal(g, "z") && GoalRoute(g, false, w);
    forall w: seq<Hop> | GoalRoute(g, false, w)
      ensures Cost(w) > 100
    {
      var t :| Goal(g, t) && Route(g, false, w, "a", t);
      var e, rest := SpendsFirst(g, false, w, "a", t);
    }
  }

  // ---------------------------------------------- a wrapped detour past an attainable goal

  /** A step that fails over to the target, or runs math.MaxInt times on the way to another. */
  ghost function Detour(): Graph {
    Workflow("a", "z",
        map["a" := Counted(150, 0, "b"), "b" := Fallible(MAX_INT, 0, "c", "z"), "c" := Counted(1, 0, "z")],
        ["a", "b", "c"], map[])
  }

  ghost function DetourEdge(u: Name): seq<WeightedEdge> {
    if u == "a" then [WeightedEdge("b", 150, 150)]
    else if u == "b" then [WeightedEdge("c", MAX_INT, MAX_INT), WeightedEdge("z", 1, 1)]
    else if u == "c" then [WeightedEdge("z", 1, 1)] else []
  }

  lemma DetourEdges(u: Name)
    ensures WeightedEdges(u, Detour()) == DetourEdge(u)
  {
    hide Fallible, Counted, WeightedEdges;
    PlainNames();
    var g := Detour();
    if u == "a" {
      CountedEdges(u, g, 150, 0, "b");
    } else if u == "b" {
      FallibleEdges(u, g, MAX_INT, 0, "c", "z");
    } else if u == "c" {
      CountedEdges(u, g, 1, 0, "z");
    } else {
      NoEdges(u, g);
    }
  }

  /** The search of the detour from where `b` is visited. */
  lemma DetourRest(l: Labels, visited: set<Name>)
    requires l == Labels(map["a" := 0, "b" := 150], map["b" := "a"]) && visited == {"a"}
    requires l.dist.Keys <= Universe(Detour())
    ensures var v := SearchFrom(Detour(), false, l, visited);
            v.Arrived? && v.steps < 0 && Visited(v.visits, "b", 150)
  {
    PlainNames();
    DetourEdges("b");
    DetourEdges("c");
    hide WeightedEdges, Universe, SearchFrom, Less, Plain, Counted, Fallible;
    var g := Detour();
    var e, f := WeightedEdge("c", MAX_INT, MAX_INT), WeightedEdge("z", 1, 1);
    RelaxTwo(l, "b", 150, g, false, e, f);
    Turn(g, false, l, visited, "b");
    var l1, v1 := RelaxEdge(RelaxEdge(l, "b", 150, e), "b", 150, f), visited + {"b"};
    var d := l1.dist["c"];
    assert d < 0;
    RelaxOne(l1, "c", d, g, false, f);
    Turn(g, false, l1, v1, "c");
    var l2, v2 := RelaxEdge(l1, "c", d, f), v1 + {"c"};
    Arrival(g, false, l2, v2, "z");
  }

  lemma DetourSearch()
    ensures var v := Search(Detour(), false);
            v.Arrived? && v.steps < 0 && Visited(v.visits, "b", 150)
  {
    PlainNames();
    DetourEdges("a");
    hide WeightedEdges, Universe, SearchFrom, Less, Plain, Before, Counted, Fallible;
    var g := Detour();
    InitialInUniverse(g);
    var l0, e := Start(g), WeightedEdge("b", 150, 150);
    RelaxOne(l0, "a", 0, g, false, e);
    Turn(g, false, l0, {}, "a");
    var l1 := RelaxEdge(l0, "a", 0, e);
    DetourRest(l1, {} + {"a"});
  }

  /** The cheapest route takes 151 steps, so the budget error is due; the search finds a negative cost instead. */
  lemma DetourEscapesBudget()
    ensures var g := Detour();
            && WellFormed(g) && BudgetErrorDue(g) && !BudgetErrorEmitted(g)
            && LeastCost(g, 151) && !NoOverflow(g, false)
  {
    PlainNames();
    DetourSearch();
    var g := Detour();
    hide WeightedEdges, Search, Less, Counted, Fallible;
    forall u
      ensures WeightedEdges(u, g) == DetourEdge(u)
    {
      DetourEdges(u);
    }
    assert Declared(g) == {"a", "b", "c", "z"} && (set n | n in g.stepOrder) == {"a", "b", "c"};
    WorkflowWellFormed(g);
    DetourOverflows(g);
    DetourRoutes(g);
  }

  lemma DetourOverflows(g: Graph)
    requires WeightedEdge("c", MAX_INT, MAX_INT) in WeightedEdges("b", g) && Visited(Search(g, false).visits, "b", 150)
    ensures !NoOverflow(g, false)
  {
    hide WeightedEdges, Search, Less, Counted, Fallible;
    assert !Fits(g, false, "b", 150, WeightedEdges("b", g));
    assert Visit("b", 150) in Search(g, false).visits;
  }

  lemma DetourRoutes(g: Graph)
    requires g == Detour() && forall u :: WeightedEdges(u, g) == DetourEdge(u)
    ensures LeastCost(g, 151) && BudgetErrorDue(g)
  {
    hide WeightedEdges, Counted, Fallible;
    PlainNames();
    assert Route(g, false, [], "a", "a");
    var w := Extended(g, false, [], "a", WeightedEdge("b", 150, 150));
    w := Extended(g, false, w, "b", WeightedEdge("z", 1, 1));
    assert Goal(g, "z") && GoalRoute(g, false, w) && Cost(w) == 151;
    forall w: seq<Hop> | GoalRoute(g, false, w)
      ensures Cost(w) >= 151
    {
      DetourCosts(g, w);
    }
  }

  lemma DetourCosts(g: Graph, w: seq<Hop>)
    requires g == Detour() && GoalRoute(g, false, w)
    ensures Cost(w) >= 151
  {
    PlainNames();
    DetourEdges("a");
    DetourEdges("b");
    var t :| Goal(g, t) && Route(g, false, w, "a", t);
    assert t == "z" || t == RETURN;
    hide WeightedEdges, Counted, Fallible, Detour, Route, Cost, GoalRoute, Goal, Plain;
    var rest := OnlyWayOut(g, false, w, "a", t, WeightedEdge("b", 150, 150));
    var e, end := SpendsFirst(g, false, rest, "b", t);
  }

  // ------------------------------------------------------------ parents that run in a circle

  /** A retry loop: `b` goes back to `a` after math.MaxInt items, or fails over to the target. */
  ghost function RetryLoop(): Graph {
    Workflow("s", "z", map["a" := Counted(5, 0, "b"), "b" := Fallible(MAX_INT, 0, "a", "z")], ["a", "b"],
        map["s" := Switch([], "a")])
  }

  ghost function RetryEdge(u: Name): seq<WeightedEdge> {
    if u == "s" then [WeightedEdge("a", 0, 0)]
    else if u == "a" then [WeightedEdge("b", 5, 5)]
    else if u == "b" then [WeightedEdge("a", MAX_INT, MAX_INT), WeightedEdge("z", 1, 1)] else []
  }

  lemma RetryEdges(u: Name)
    ensures WeightedEdges(u, RetryLoop()) == RetryEdge(u)
  {
    hide Fallible, Counted, WeightedEdges;
    PlainNames();
    var g := RetryLoop();
    if u == "s" {
      SwitchEdge(u, g, "a");
    } else if u == "a" {
      CountedEdges(u, g, 5, 0, "b");
    } else if u == "b" {
      FallibleEdges(u, g, MAX_INT, 0, "a", "z");
    } else {
      NoEdges(u, g);
    }
  }

  lemma RetryRest(l: Labels, visited: set<Name>)
    requires l == Labels(map["s" := 0, "a" := 0], map["a" := "s"]) && visited == {"s"}
    requires l.dist.Keys <= Universe(RetryLoop())
    ensures var v := SearchFrom(RetryLoop(), false, l, visited);
            v.Arrived? && v.goal == "z" && v.steps == 6 && v.labels.parent == map["a" := "b", "b" := "a", "z" := "b"]
  {
    PlainNames();
    RetryEdges("a");
    RetryEdges("b");
    hide WeightedEdges, Universe, SearchFrom, Less, Plain, Before, Counted, Fallible;
    var g := RetryLoop();
    var up := WeightedEdge("b", 5, 5);
    RelaxOne(l, "a", 0, g, false, up);
    Turn(g, false, l, visited, "a");
    var l1, v1 := RelaxEdge(l, "a", 0, up), visited + {"a"};
    var e, f := WeightedEdge("a", MAX_INT, MAX_INT), WeightedEdge("z", 1, 1);
    RelaxTwo(l1, "b", 5, g, false, e, f);
    Turn(g, false, l1, v1, "b");
    var l2, v2 := RelaxEdge(RelaxEdge(l1, "b", 5, e), "b", 5, f), v1 + {"b"};
    Arrival(g, false, l2, v2, "z");
  }

  lemma RetrySearch()
    ensures var v := Search(RetryLoop(), false);
            v.Arrived? && v.goal == "z" && v.steps == 6 && v.labels.parent == map["a" := "b", "b" := "a", "z" := "b"]
  {
    PlainNames();
    RetryEdges("s");
    hide WeightedEdges, Universe, SearchFrom, Less, Plain, Before, Counted, Fallible;
    var g := RetryLoop();
    InitialInUniverse(g);
    var l0, e := Start(g), WeightedEdge("a", 0, 0);
    RelaxOne(l0, "s", 0, g, false, e);
    Turn(g, false, l0, {}, "s");
    var l1 := RelaxEdge(l0, "s", 0, e);
    RetryRest(l1, {} + {"s"});
  }

  lemma {:induction false} NeverHome(parent: map<Name, Name>, s: Name, a: Name, b: Name, n: Name, k: nat)
    requires a in parent && b in parent && parent[a] == b && parent[b] == a && (n == a || n == b) && s != a && s != b
    ensures Climb(parent, n, k) != s
    decreases k
  {
    if k > 0 {
      NeverHome(parent, s, a, b, parent[n], k - 1);
    }
  }

  lemma CircularParents(parent: map<Name, Name>, s: Name, a: Name, b: Name, z: Name)
    requires parent == map[a := b, b := a, z := b] && Plain(s) && Plain(a) && Plain(b) && Plain(z)
    requires s != a && s != b && s != z && a != b && a != z && b != z
    ensures forall k: nat :: Climb(parent, z, k) != s
    ensures !LeadsBack(parent, s, z)
  {
    forall k: nat
      ensures Climb(parent, z, k) != s
    {
      if k > 0 {
        NeverHome(parent, s, a, b, b, k - 1);
      }
    }
    LoopEndsIff(parent, s, z);
  }

  /** The search arrives with the right cost, but the wrapped edge has rewritten the parent of a visited node: following
      the parents from the target never meets the start, so the loop that reconstructs the path does not end. */
  lemma RetryLoopHangs()
    ensures var g := RetryLoop(); var v := Search(g, false);
            && WellFormed(g) && v.Arrived? && v.steps == 6 && Exact(g, false, v)
            && !LeadsBack(v.labels.parent, g.initialState, v.goal)
            && (forall k: nat :: Climb(v.labels.parent, v.goal, k) != g.initialState)
  {
    PlainNames();
    RetrySearch();
    var g := RetryLoop();
    hide WeightedEdges, Search, Climb, LeadsBack, Less, Counted, Fallible;
    CircularParents(Search(g, false).labels.parent, "s", "a", "b", "z");
    forall u
      ensures WeightedEdges(u, g) == RetryEdge(u)
    {
      RetryEdges(u);
    }
    assert Declared(g) == {"s", "a", "b", "z"} && (set n | n in g.stepOrder) == {"a", "b"};
    WorkflowWellFormed(g);
    RetryRoutes(g);
  }

  lemma RetryRoutes(g: Graph)
    requires g == RetryLoop() && forall u :: WeightedEdges(u, g) == RetryEdge(u)
    ensures LeastCost(g, 6)
  {
    hide WeightedEdges, Counted, Fallible;
    PlainNames();
    assert Route(g, false, [], "s", "s");
    var w := Extended(g, false, [], "s", WeightedEdge("a", 0, 0));
    w := Extended(g, false, w, "a", WeightedEdge("b", 5, 5));
    w := Extended(g, false, w, "b", WeightedEdge("z", 1, 1));
    assert Goal(g, "z") && GoalRoute(g, false, w);
    forall w: seq<Hop> | GoalRoute(g, false, w)
      ensures Cost(w) >= 6
    {
      RetryCosts(g, w);
    }
  }

  lemma RetryCosts(g: Graph, w: seq<Hop>)
    requires g == RetryLoop() && GoalRoute(g, false, w)
    ensures Cost(w) >= 6
  {
    PlainNames();
    RetryEdges("s");
    RetryEdges("a");
    RetryEdges("b");
    var t :| Goal(g, t) && Route(g, false, w, "s", t);
    assert t == "z" || t == RETURN;
    hide WeightedEdges, Counted, Fallible, RetryLoop, Route, Cost, GoalRoute, Goal, Plain;
    var rest := OnlyWayOut(g, false, w, "s", t, WeightedEdge("a", 0, 0));
    var rest' := OnlyWayOut(g, false, rest, "a", t, WeightedEdge("b", 5, 5));
    var e, end := SpendsFirst(g, false, rest', "b", t);
  }
}
