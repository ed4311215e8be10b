/** When the search of Budget cannot overflow, in terms of the graph. */
module OverflowGuards {
  import opened Names
  import opened FsmGraph
  import opened Budget

  // ------------------------------------------------------- before the nearest goal

  /** `w` is a cheapest route to `u`, a node on this side of every goal that the search can select. */
  ghost predicate Near(g: Graph, enforce: bool, w: seq<Hop>, u: Name) {
    Cheapest(g, enforce, w, u) && Cost(w) < MAX_INT && !Goal(g, u)
  }

  ghost predicate NoGoalBelow(g: Graph, enforce: bool, cost: int) {
    forall v :: GoalRoute(g, enforce, v) ==> cost <= Cost(v)
  }

  /** For each node no farther than the nearest goal, its least cost plus each permitted edge is in range. */
  ghost predicate Guarded(g: Graph, enforce: bool) {
    forall u, w :: Near(g, enforce, w, u) && NoGoalBelow(g, enforce, Cost(w)) ==>
                     Fits(g, enforce, u, Cost(w), WeightedEdges(u, g))
  }

  lemma {:induction false} GuardedFrom(g: Graph, enforce: bool, l: Labels, visited: set<Name>, via: Routes)
    requires Guarded(g, enforce) && Sound(g, enforce, l, visited, via) && l.dist.Keys <= Universe(g)
    ensures AllFit(g, enforce, SearchFrom(g, enforce, l, visited).visits)
    decreases Universe(g) - visited
  {
    hide WeightedEdges, Sound, Universe, RelaxEdges, IsNext, Fits, AllFit, Guarded;
    NoVisits(g, enforce);
    var next := Next(l.dist, visited);
    if next.Some? && !Goal(g, next.value) {
      var u := next.value;
      NextFacts(l.dist, visited, u);
      var l1 := After(g, enforce, l, u);
      RelaxStaysInUniverse(g, enforce, l, u, l.dist[u], WeightedEdges(u, g));
      GuardedVisit(g, enforce, l, visited, via, u);
      var via' := VisitKeepsSound(g, enforce, l, visited, via, u);
      GuardedFrom(g, enforce, l1, visited + {u}, via');
      AllFitSplit(g, enforce, Visit(u, l.dist[u]), SearchFrom(g, enforce, l1, visited + {u}).visits);
    }
  }

  lemma GuardedVisit(g: Graph, enforce: bool, l: Labels, visited: set<Name>, via: Routes, u: Name)
    requires Guarded(g, enforce) && Sound(g, enforce, l, visited, via) && IsNext(l.dist, visited, u) && !Goal(g, u)
    ensures Fits(g, enforce, u, l.dist[u], WeightedEdges(u, g))
  {
    hide WeightedEdges, Sound, IsNext, Fits, Route, Cost, GoalRoute;
    NextFacts(l.dist, visited, u);
    SoundIsLabelled(g, enforce, l, visited, via);
    LabelIsCost(g, enforce, l, visited, via, u);
    forall v | Route(g, enforce, v, g.initialState, u)
      ensures l.dist[u] <= Cost(v)
    {
      NextIsNearest(g, enforce, l, visited, via, u, v, u);
    }
    forall v | GoalRoute(g, enforce, v)
      ensures l.dist[u] <= Cost(v)
    {
      ArrivalIsOptimal(g, enforce, l, visited, via, u, v);
    }
    assert Near(g, enforce, via[u], u);
  }

  /** The guard is enough. */
  lemma GuardSuffices(g: Graph, enforce: bool)
    requires Guarded(g, enforce)
    ensures NoOverflow(g, enforce)
  {
    hide Sound, Universe, AllFit, SearchFrom, Guarded;
    StartSound(g, enforce);
    InitialInUniverse(g);
    GuardedFrom(g, enforce, Start(g), {}, map[g.initialState := []]);
  }

  /** And it is needed for every node strictly nearer than each goal. */
  lemma GuardNeeded(g: Graph, enforce: bool, w: seq<Hop>, u: Name)
    requires NoOverflow(g, enforce) && Near(g, enforce, w, u) && NoGoalBelow(g, enforce, Cost(w) + 1)
    ensures Fits(g, enforce, u, Cost(w), WeightedEdges(u, g))
  {
    hide WeightedEdges, Fits, Route, Cost, Search, Labelled, Settled, Ordered, Less;
    var visited, via := SearchEnds(g, enforce);
    var v := Search(g, enforce);
    LabelledStart(g, enforce, v.labels, visited, via);
    var n := OpenLabelOnRoute(g, enforce, v.labels, visited, w, u);
    if n !in visited {
      assert Candidate(v.labels.dist, visited, n);
      SearchExact(g, enforce);
    }
    LabelIsCost(g, enforce, v.labels, visited, via, n);
    assert Visited(v.visits, u, Cost(w));
  }

  // ---------------------------------------------------- the cost ceiling of a graph

  function Total(g: Graph, order: seq<Name>, within: set<Name>): (t: int)
    requires forall n :: n in order ==> n in g.steps
    ensures t >= 0
  {
    if order == [] then 0
    else (if order[0] in within then Ceiling(g.steps[order[0]]) else 0) + Total(g, order[1..], within)
  }

  lemma {:induction false} TotalMonotone(g: Graph, order: seq<Name>, a: set<Name>, b: set<Name>)
    requires forall n :: n in order ==> n in g.steps
    requires a <= b
    ensures Total(g, order, a) <= Total(g, order, b)
  {
    if order != [] {
      TotalMonotone(g, order[1..], a, b);
    }
  }

  lemma {:induction false} TotalAdds(g: Graph, order: seq<Name>, a: set<Name>, u: Name)
    requires forall n :: n in order ==> n in g.steps
    requires u in order && u !in a
    ensures Total(g, order, a) + Ceiling(g.steps[u]) <= Total(g, order, a + {u})
  {
    if order[0] == u {
      TotalMonotone(g, order[1..], a, a + {u});
    } else {
      TotalAdds(g, order[1..], a, u);
    }
  }

  /** What one search can add up at most: every step's ceiling once. */
  ghost function CostCeiling(g: Graph): int
    requires OrderListsSteps(g)
  {
    Total(g, g.stepOrder, g.steps.Keys)
  }

  lemma {:induction false} TotalOutside(g: Graph, order: seq<Name>, a: set<Name>)
    requires forall n :: n in order ==> n in g.steps
    ensures Total(g, order, a) <= Total(g, order, g.steps.Keys)
  {
    if order != [] {
      TotalOutside(g, order[1..], a);
    }
  }

  /** No label is more than the ceilings of the visited steps add up to. */
  ghost predicate Bounded(g: Graph, l: Labels, visited: set<Name>)
    requires OrderListsSteps(g)
  {
    forall n :: n in l.dist ==> 0 <= l.dist[n] <= Total(g, g.stepOrder, visited)
  }

  lemma BoundedVisit(g: Graph, enforce: bool, l: Labels, visited: set<Name>, u: Name)
    requires OrderListsSteps(g) && CostCeiling(g) <= MAX_INT && Bounded(g, l, visited) && u in l.dist && u !in visited
    ensures forall e :: e in WeightedEdges(u, g) ==>
                          0 <= l.dist[u] + e.stepCost <= Total(g, g.stepOrder, visited + {u}) <= MAX_INT
    ensures Bounded(g, l, visited + {u})
  {
    hide WeightedEdges, Total;
    TotalMonotone(g, g.stepOrder, visited, visited + {u});
    TotalOutside(g, g.stepOrder, visited + {u});
    if u in g.steps {
      assert u in g.stepOrder;
      TotalAdds(g, g.stepOrder, visited, u);
    }
    forall e | e in WeightedEdges(u, g)
      ensures 0 <= l.dist[u] + e.stepCost <= Total(g, g.stepOrder, visited + {u})
    {
      EdgeCosts(u, g, e);
    }
  }

  lemma {:induction false} BoundedRelax(g: Graph, enforce: bool, l: Labels, visited: set<Name>, u: Name, d: int,
                                        edges: seq<WeightedEdge>)
    requires OrderListsSteps(g) && Bounded(g, l, visited)
    requires forall e :: e in edges ==> 0 <= d + e.stepCost <= Total(g, g.stepOrder, visited) <= MAX_INT
    ensures Bounded(g, RelaxEdges(l, u, d, g, enforce, edges), visited)
    decreases |edges|
  {
    hide Total, OrderListsSteps;
    if edges != [] {
      var init := edges[..|edges| - 1];
      assert forall x :: x in init ==> x in edges;
      BoundedRelax(g, enforce, l, visited, u, d, init);
    }
  }

  lemma {:induction false} BoundedFrom(g: Graph, enforce: bool, l: Labels, visited: set<Name>)
    requires OrderListsSteps(g) && CostCeiling(g) <= MAX_INT && Bounded(g, l, visited) && l.dist.Keys <= Universe(g)
    ensures AllFit(g, enforce, SearchFrom(g, enforce, l, visited).visits)
    ensures forall n :: n in SearchFrom(g, enforce, l, visited).labels.dist ==>
                          SearchFrom(g, enforce, l, visited).labels.dist[n] <= CostCeiling(g)
    decreases Universe(g) - visited
  {
    hide WeightedEdges, Universe, RelaxEdges, IsNext, AllFit, Total;
    NoVisits(g, enforce);
    TotalOutside(g, g.stepOrder, visited);
    var next := Next(l.dist, visited);
    if next.Some? && !Goal(g, next.value) {
      var u := next.value;
      NextFacts(l.dist, visited, u);
      var l1 := After(g, enforce, l, u);
      RelaxStaysInUniverse(g, enforce, l, u, l.dist[u], WeightedEdges(u, g));
      BoundedVisit(g, enforce, l, visited, u);
      BoundedRelax(g, enforce, l, visited + {u}, u, l.dist[u], WeightedEdges(u, g));
      BoundedFrom(g, enforce, l1, visited + {u});
      AllFitSplit(g, enforce, Visit(u, l.dist[u]), SearchFrom(g, enforce, l1, visited + {u}).visits);
    }
  }

  /** Step counts that add up, each step once, to at most math.MaxInt cannot overflow the search. */
  lemma CeilingSuffices(g: Graph, enforce: bool)
    requires OrderListsSteps(g) && CostCeiling(g) <= MAX_INT
    ensures NoOverflow(g, enforce)
    ensures forall n :: n in Search(g, enforce).labels.dist ==> Search(g, enforce).labels.dist[n] <= CostCeiling(g)
  {
    hide Universe, AllFit, SearchFrom, CostCeiling, OrderListsSteps, Total;
    InitialInUniverse(g);
    TotalUp(g);
    BoundedFrom(g, enforce, Start(g), {});
  }

  lemma TotalUp(g: Graph)
    requires OrderListsSteps(g)
    ensures Bounded(g, Start(g), {})
  {
  }

  /** Below math.MaxInt, they also leave no route out of range. */
  lemma CeilingReaches(g: Graph, enforce: bool, w: seq<Hop>)
    requires OrderListsSteps(g) && CostCeiling(g) < MAX_INT && GoalRoute(g, enforce, w)
    ensures exists v :: GoalRoute(g, enforce, v) && Cost(v) < MAX_INT
  {
    hide NoOverflow, Sound, Search, CostCeiling, GoalRoute, Cost, OrderListsSteps, IsNext;
    CeilingSuffices(g, enforce);
    SearchExact(g, enforce);
    var visited, via := SearchEnds(g, enforce);
    if Search(g, enforce).Exhausted? {
      var n := ExhaustedMeansOutOfRange(g, enforce, Search(g, enforce).labels, visited, via, w);
      assert false;
    }
  }
}
