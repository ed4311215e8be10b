/** Step-budget and visit-bound feasibility: the two-mode Dijkstra search of
    shortestStepPathToTarget and the diagnostics built on it. */
module Budget {
  import opened Names
  import opened FsmGraph
  import opened Paths

  // ------------------------------------------------------------------ routes

  /** One transition taken: the node left and the weighted edge followed. */
  datatype Hop = Hop(from: Name, edge: WeightedEdge)

  /** Edges that cost more visits than the step allows are left out when the bound is enforced. */
  predicate Skipped(g: Graph, enforce: bool, u: Name, e: WeightedEdge) {
    enforce && u in g.steps && g.steps[u].maxVisits > 0 && e.visitCost > g.steps[u].maxVisits
  }

  ghost predicate Permitted(g: Graph, enforce: bool, h: Hop) {
    h.edge in WeightedEdges(h.from, g) && !Skipped(g, enforce, h.from, h.edge)
  }

  /** `w` leads from `a` to `b` over permitted transitions. */
  ghost predicate Route(g: Graph, enforce: bool, w: seq<Hop>, a: Name, b: Name) {
    if w == [] then a == b
    else
      var h := w[|w| - 1];
      Permitted(g, enforce, h) && h.edge.to == b && Route(g, enforce, w[..|w| - 1], a, h.from)
  }

  /** Steps spent along a route. */
  ghost function Cost(w: seq<Hop>): int {
    if w == [] then 0 else Cost(w[..|w| - 1]) + w[|w| - 1].edge.stepCost
  }

  /** The nodes a route from `a` passes, both ends included. */
  ghost function Nodes(w: seq<Hop>, a: Name): seq<Name> {
    if w == [] then [a] else Nodes(w[..|w| - 1], a) + [w[|w| - 1].edge.to]
  }

  predicate Goal(g: Graph, n: Name) {
    n == g.targetState || n == RETURN
  }

  /** A route from the initial state to the target state or out of the scope. */
  ghost predicate GoalRoute(g: Graph, enforce: bool, w: seq<Hop>) {
    exists t :: Goal(g, t) && Route(g, enforce, w, g.initialState, t)
  }

  /** Every edge of a step comes from one of its outcomes. */
  lemma EdgeOutcome(g: Graph, u: Name, e: WeightedEdge) returns (o: Outcome)
    requires u in g.steps && e in WeightedEdges(u, g)
    ensures (e.stepCost, e.visitCost) == StepOutcomeCosts(g.steps[u], o)
  {
    hide StepOutcomes, StepOutcomeCosts;
    o :| o in StepOutcomes(g.steps[u]) && (e.stepCost, e.visitCost) == StepOutcomeCosts(g.steps[u], o);
  }

  lemma FreeEdgeCosts(g: Graph, u: Name, e: WeightedEdge)
    requires u !in g.steps && e in WeightedEdges(u, g)
    ensures e.stepCost == 0 && e.visitCost == 0
  {
    hide MapValues, FreeEdges;
  }

  lemma EdgeCosts(u: Name, g: Graph, e: WeightedEdge)
    requires e in WeightedEdges(u, g)
    ensures 0 <= e.stepCost <= e.visitCost <= MAX_INT
    ensures u !in g.steps ==> e.stepCost == 0
    ensures u in g.steps ==> 1 <= e.stepCost <= Ceiling(g.steps[u])
  {
    hide WeightedEdges;
    if u in g.steps {
      var o := EdgeOutcome(g, u, e);
    } else {
      FreeEdgeCosts(g, u, e);
    }
  }

  lemma {:induction false} CostNonNegative(g: Graph, enforce: bool, w: seq<Hop>, a: Name, b: Name)
    requires Route(g, enforce, w, a, b)
    ensures Cost(w) >= 0
  {
    hide WeightedEdges;
    if w != [] {
      var h := w[|w| - 1];
      CostNonNegative(g, enforce, w[..|w| - 1], a, h.from);
      EdgeCosts(h.from, g, h.edge);
    }
  }

  /** The most steps any one outcome of the step costs. */
  function Ceiling(step: Step): (c: int)
    ensures c >= 1
  {
    if StaticCount(step.count).Some? then step.count.value
    else if StaticCount(step.forEach).Some? then step.forEach.value
    else 1
  }

  // ------------------------------------------------------------ labels and relaxation

  datatype Labels = Labels(dist: map<Name, int>, parent: map<Name, Name>)

  /** Addition of 64-bit ints that cannot fall below the range, as Go computes it. */
  function Add64(x: int, y: int): int {
    if x + y > MAX_INT then x + y - 0x1_0000_0000_0000_0000 else x + y
  }

  function RelaxEdge(l: Labels, u: Name, bestDist: int, e: WeightedEdge): Labels {
    var nd := Add64(bestDist, e.stepCost);
    if e.to !in l.dist || nd < l.dist[e.to] then Labels(l.dist[e.to := nd], l.parent[e.to := u]) else l
  }

  function RelaxEdges(l: Labels, u: Name, bestDist: int, g: Graph, enforce: bool, edges: seq<WeightedEdge>): Labels
    decreases |edges|
  {
    if edges == [] then l
    else
      var before := RelaxEdges(l, u, bestDist, g, enforce, edges[..|edges| - 1]);
      var e := edges[|edges| - 1];
      if Skipped(g, enforce, u, e) then before else RelaxEdge(before, u, bestDist, e)
  }

  method RelaxDijkstraEdges(u: Name, bestDist: int, g: Graph, enforce: bool, l0: Labels) returns (l: Labels)
    ensures l == RelaxEdges(l0, u, bestDist, g, enforce, WeightedEdges(u, g))
  {
    hide WeightedEdges, RelaxEdge;
    l := l0;
    var edges := WeightedEdges(u, g);
    for i := 0 to |edges|
      invariant l == RelaxEdges(l0, u, bestDist, g, enforce, edges[..i])
    {
      assert edges[..i + 1][..i] == edges[..i];
      if !Skipped(g, enforce, u, edges[i]) {
        l := RelaxEdge(l, u, bestDist, edges[i]);
      }
    }
    assert edges[..|edges|] == edges;
  }

  // ---------------------------------------------------------------- node selection

  predicate Candidate(dist: map<Name, int>, visited: set<Name>, n: Name) {
    n in dist && n !in visited && dist[n] < MAX_INT
  }

  predicate Before(dist: map<Name, int>, a: Name, b: Name)
    requires a in dist && b in dist
  {
    dist[a] < dist[b] || (dist[a] == dist[b] && Less(a, b))
  }

  /** The unvisited node that comes first by (distance, name). */
  ghost predicate IsNext(dist: map<Name, int>, visited: set<Name>, n: Name) {
    && Candidate(dist, visited, n)
    && forall m :: Candidate(dist, visited, m) && m != n ==> Before(dist, n, m)
  }

  lemma NextUnique(dist: map<Name, int>, visited: set<Name>, a: Name, b: Name)
    requires IsNext(dist, visited, a) && IsNext(dist, visited, b)
    ensures a == b
  {
    LessExactlyOne(a, b);
  }

  /** Whatever order the distance map is read in, the same node comes out: the unique first
      candidate, or the empty name when no candidate is left. */
  method NextUnvisitedDijkstraNode(dist: map<Name, int>, visited: set<Name>) returns (bestNode: Name, bestDist: int)
    requires "" !in dist
    ensures bestNode == "" ==> forall m :: !Candidate(dist, visited, m)
    ensures bestNode != "" ==> IsNext(dist, visited, bestNode) && bestDist == dist[bestNode]
  {
    hide Less;
    bestNode, bestDist := "", MAX_INT;
    var todo := dist.Keys;
    while todo != {}
      invariant todo <= dist.Keys
      invariant if bestNode == "" then bestDist == MAX_INT
                else Candidate(dist, visited, bestNode) && bestNode !in todo && bestDist == dist[bestNode]
      invariant forall m :: Candidate(dist, visited, m) && m !in todo && m != bestNode ==>
                              bestNode != "" && Before(dist, bestNode, m)
      decreases todo
    {
      var node :| node in todo;
      var d := dist[node];
      if bestNode != "" {
        LessExactlyOne(node, bestNode);
      } else {
        NothingBelowEmpty(node);
      }
      if node !in visited && (d < bestDist || (d == bestDist && Less(node, bestNode))) {
        forall m | Candidate(dist, visited, m) && m !in todo
          ensures Before(dist, node, m)
        {
          if m != bestNode && dist[m] == dist[bestNode] == d {
            LessTransitive(node, bestNode, m);
          }
        }
        bestNode, bestDist := node, d;
      }
      todo := todo - {node};
    }
  }

  lemma NothingBelowEmpty(a: Name)
    ensures !Less(a, "")
  {
  }

  // --------------------------------------------------------- what every label means

  /** `w` is a route behind the label `d` of `n`, with only visited nodes as stopovers. */
  ghost predicate RouteBehind(g: Graph, enforce: bool, d: int, visited: set<Name>, w: seq<Hop>, n: Name) {
    && Route(g, enforce, w, g.initialState, n)
    && Cost(w) == d
    && (forall h :: h in w ==> h.from in visited)
  }

  /** The route `w` to a node is the route `before` to its parent `p` and one hop more. */
  ghost predicate OneHopMore(w: seq<Hop>, before: seq<Hop>, p: Name) {
    w != [] && w[..|w| - 1] == before && w[|w| - 1].from == p
  }

  type Routes = map<Name, seq<Hop>>

  /** `via` is the route behind each label, and follows the parent pointers. */
  ghost predicate Labelled(g: Graph, enforce: bool, l: Labels, visited: set<Name>, via: Routes) {
    && g.initialState in l.dist && l.dist[g.initialState] == 0
    && via.Keys == l.dist.Keys && via[g.initialState] == [] && l.parent.Keys == l.dist.Keys - {g.initialState}
    && (forall n :: n in via ==> 0 <= l.dist[n] && RouteBehind(g, enforce, l.dist[n], visited, via[n], n))
    && (forall n :: n in l.parent ==> ParentBehind(l, visited, via, n))
  }

  ghost predicate ParentBehind(l: Labels, visited: set<Name>, via: Routes, n: Name)
    requires n in l.parent && n in via
  {
    l.parent[n] in visited && l.parent[n] in via && OneHopMore(via[n], via[l.parent[n]], l.parent[n])
  }

  /** Visited nodes are labelled, are not goals, and are no farther than any node still open. */
  ghost predicate Ordered(g: Graph, l: Labels, visited: set<Name>) {
    && (forall v :: v in visited ==> v in l.dist && !Goal(g, v))
    && (forall v, n :: v in visited && n in l.dist && n !in visited ==> l.dist[v] <= l.dist[n])
  }

  /** Every permitted transition out of a visited node has been relaxed. */
  ghost predicate Settled(g: Graph, enforce: bool, l: Labels, visited: set<Name>) {
    forall v, e :: v in visited && v in l.dist && e in WeightedEdges(v, g) && !Skipped(g, enforce, v, e) ==>
                     e.to in l.dist && l.dist[e.to] <= l.dist[v] + e.stepCost
  }

  /** Any route to a node outside `visited` passes an open label that costs no more. */
  lemma {:induction false} OpenLabelOnRoute(g: Graph, enforce: bool, l: Labels, visited: set<Name>, w: seq<Hop>,
                                            b: Name)
    returns (n: Name)
    requires Settled(g, enforce, l, visited)
    requires g.initialState in l.dist && l.dist[g.initialState] == 0
    requires Route(g, enforce, w, g.initialState, b)
    ensures n in l.dist && l.dist[n] <= Cost(w) && (n !in visited || n == b)
  {
    hide WeightedEdges;
    if w == [] {
      n := b;
    } else {
      var h := w[|w| - 1];
      n := OpenLabelOnRoute(g, enforce, l, visited, w[..|w| - 1], h.from);
      EdgeCosts(h.from, g, h.edge);
      if n in visited {
        n := b;
      }
    }
  }

  /** The labels when `u` has just been marked visited. */
  lemma VisitKeepsLabels(g: Graph, enforce: bool, l: Labels, visited: set<Name>, via: Routes, u: Name)
    requires Labelled(g, enforce, l, visited, via)
    ensures Labelled(g, enforce, l, visited + {u}, via)
  {
    hide Route, Cost, OneHopMore;
  }

  ghost function ViaAfter(l: Labels, via: Routes, u: Name, bestDist: int, e: WeightedEdge): Routes
    requires u in via
  {
    if e.to !in l.dist || bestDist + e.stepCost < l.dist[e.to] then via[e.to := via[u] + [Hop(u, e)]] else via
  }

  lemma RouteExtends(g: Graph, enforce: bool, w: seq<Hop>, a: Name, h: Hop)
    requires Route(g, enforce, w, a, h.from) && Permitted(g, enforce, h)
    ensures Route(g, enforce, w + [h], a, h.edge.to) && Cost(w + [h]) == Cost(w) + h.edge.stepCost
  {
    hide WeightedEdges;
    assert (w + [h])[..|w|] == w;
  }

  lemma HopBehind(g: Graph, enforce: bool, d: int, visited: set<Name>, w: seq<Hop>, u: Name, e: WeightedEdge)
    requires RouteBehind(g, enforce, d, visited, w, u) && u in visited && Permitted(g, enforce, Hop(u, e))
    ensures RouteBehind(g, enforce, d + e.stepCost, visited, w + [Hop(u, e)], e.to)
    ensures OneHopMore(w + [Hop(u, e)], w, u)
  {
    hide Route, Cost, Permitted;
    RouteExtends(g, enforce, w, g.initialState, Hop(u, e));
  }

  /** Relaxing one edge of a visited node `u` that is farthest among the visited keeps every label honest
      and touches no visited node, as long as the sum stays within 64 bits. */
  lemma RelaxEdgeKeeps(g: Graph, enforce: bool, l: Labels, visited: set<Name>, via: Routes, u: Name, e: WeightedEdge)
    requires Labelled(g, enforce, l, visited, via) && u in visited && u in l.dist && e.stepCost >= 0
    requires forall v :: v in visited ==> v in l.dist && l.dist[v] <= l.dist[u]
    requires l.dist[u] + e.stepCost <= MAX_INT && Permitted(g, enforce, Hop(u, e))
    ensures var l', via' := RelaxEdge(l, u, l.dist[u], e), ViaAfter(l, via, u, l.dist[u], e);
            && Labelled(g, enforce, l', visited, via')
            && Lowered(l, l', visited, l.dist[u])
            && e.to in l'.dist && l'.dist[e.to] <= l.dist[u] + e.stepCost
  {
    hide Permitted, RouteBehind, OneHopMore;
    HopBehind(g, enforce, l.dist[u], visited, via[u], u, e);
  }

  /** `l` is `l0` with some labels outside `visited` lowered or added, none below `floor`. */
  ghost predicate Lowered(l0: Labels, l: Labels, visited: set<Name>, floor: int) {
    && l0.dist.Keys <= l.dist.Keys
    && (forall n :: n in l0.dist ==> l.dist[n] <= l0.dist[n])
    && (forall n :: n in visited && n in l0.dist ==> l.dist[n] == l0.dist[n])
    && (forall n :: n in l.dist && (n !in l0.dist || l.dist[n] < l0.dist[n]) ==> l.dist[n] >= floor)
  }

  /** Relaxing `edges` from distance `d` stays within 64 bits: the guard the code does not have. */
  ghost predicate Fits(g: Graph, enforce: bool, u: Name, d: int, edges: seq<WeightedEdge>) {
    forall e :: e in edges && !Skipped(g, enforce, u, e) ==> d + e.stepCost <= MAX_INT
  }

  lemma {:induction false} RelaxEdgesKeep(g: Graph, enforce: bool, l0: Labels, visited: set<Name>, via0: Routes,
                                          u: Name, edges: seq<WeightedEdge>)
    returns (via: Routes)
    requires Labelled(g, enforce, l0, visited, via0) && u in visited && u in l0.dist
    requires forall v :: v in visited ==> v in l0.dist && l0.dist[v] <= l0.dist[u]
    requires Fits(g, enforce, u, l0.dist[u], edges) && forall e :: e in edges ==> e in WeightedEdges(u, g)
    ensures var l := RelaxEdges(l0, u, l0.dist[u], g, enforce, edges);
            && Labelled(g, enforce, l, visited, via)
            && Lowered(l0, l, visited, l0.dist[u])
            && (forall e :: e in edges && !Skipped(g, enforce, u, e) ==>
                              e.to in l.dist && l.dist[e.to] <= l0.dist[u] + e.stepCost)
    decreases |edges|
  {
    hide Labelled, WeightedEdges, RelaxEdge;
    if edges == [] {
      via := via0;
    } else {
      var init, e := edges[..|edges| - 1], edges[|edges| - 1];
      assert forall x :: x in edges <==> x in init || x == e;
      var viaMid := RelaxEdgesKeep(g, enforce, l0, visited, via0, u, init);
      var mid := RelaxEdges(l0, u, l0.dist[u], g, enforce, init);
      if Skipped(g, enforce, u, e) {
        via := viaMid;
      } else {
        LabelledKeys(g, enforce, mid, visited, viaMid);
        EdgeCosts(u, g, e);
        RelaxEdgeKeeps(g, enforce, mid, visited, viaMid, u, e);
        via := ViaAfter(mid, viaMid, u, l0.dist[u], e);
      }
    }
  }

  lemma LabelledKeys(g: Graph, enforce: bool, l: Labels, visited: set<Name>, via: Routes)
    requires Labelled(g, enforce, l, visited, via)
    ensures via.Keys == l.dist.Keys
  {
  }

  /** The loop invariant of the search. */
  ghost predicate Sound(g: Graph, enforce: bool, l: Labels, visited: set<Name>, via: Routes) {
    Labelled(g, enforce, l, visited, via) && Ordered(g, l, visited) && Settled(g, enforce, l, visited)
  }

  /** Visiting the next node and relaxing its edges within 64 bits keeps the invariant. */
  lemma VisitKeepsSound(g: Graph, enforce: bool, l: Labels, visited: set<Name>, via0: Routes, u: Name)
    returns (via: Routes)
    requires Sound(g, enforce, l, visited, via0) && IsNext(l.dist, visited, u) && !Goal(g, u)
    requires Fits(g, enforce, u, l.dist[u], WeightedEdges(u, g))
    ensures Sound(g, enforce, RelaxEdges(l, u, l.dist[u], g, enforce, WeightedEdges(u, g)), visited + {u}, via)
    ensures Lowered(l, RelaxEdges(l, u, l.dist[u], g, enforce, WeightedEdges(u, g)), visited + {u}, l.dist[u])
  {
    hide Labelled, WeightedEdges, Less, Fits;
    VisitKeepsLabels(g, enforce, l, visited, via0, u);
    via := RelaxEdgesKeep(g, enforce, l, visited + {u}, via0, u, WeightedEdges(u, g));
    VisitKeepsOrder(g, enforce, l, RelaxEdges(l, u, l.dist[u], g, enforce, WeightedEdges(u, g)), visited, u);
  }

  lemma VisitKeepsOrder(g: Graph, enforce: bool, l0: Labels, l: Labels, visited: set<Name>, u: Name)
    requires Ordered(g, l0, visited) && Settled(g, enforce, l0, visited)
    requires IsNext(l0.dist, visited, u) && !Goal(g, u)
    requires Lowered(l0, l, visited + {u}, l0.dist[u])
    requires forall e :: e in WeightedEdges(u, g) && !Skipped(g, enforce, u, e) ==>
                           e.to in l.dist && l.dist[e.to] <= l0.dist[u] + e.stepCost
    ensures Ordered(g, l, visited + {u}) && Settled(g, enforce, l, visited + {u})
  {
    hide WeightedEdges, Less;
    forall n | n in l0.dist && n !in visited
      ensures l0.dist[u] <= l0.dist[n]
    {
      assert Candidate(l0.dist, visited, n) || l0.dist[n] >= MAX_INT;
    }
    assert forall v :: v in visited ==> l.dist[v] == l0.dist[v] <= l0.dist[u];
  }

  // ----------------------------------------------------- the search as a function

  ghost function Start(g: Graph): Labels {
    Labels(map[g.initialState := 0], map[])
  }

  lemma StartSound(g: Graph, enforce: bool)
    ensures Sound(g, enforce, Start(g), {}, map[g.initialState := []])
  {
    hide WeightedEdges;
    var via: Routes := map[g.initialState := []];
    assert Route(g, enforce, [], g.initialState, g.initialState) && Cost([]) == 0;
  }

  /** Every name a label can carry. */
  ghost function Universe(g: Graph): set<Name> {
    {g.initialState} + set u, e | u in Declared(g) && e in WeightedEdges(u, g) :: e.to
  }

  lemma EdgeInUniverse(g: Graph, u: Name, e: WeightedEdge)
    requires e in WeightedEdges(u, g)
    ensures e.to in Universe(g)
  {
    hide WeightedEdges;
    assert u in Declared(g) by {
      WeightedEdgesDeclared(g, u);
    }
  }

  lemma WeightedEdgesDeclared(g: Graph, u: Name)
    ensures WeightedEdges(u, g) != [] ==> u in Declared(g)
  {
  }

  lemma {:induction false} RelaxStaysInUniverse(g: Graph, enforce: bool, l: Labels, u: Name, bestDist: int,
                                                edges: seq<WeightedEdge>)
    requires l.dist.Keys <= Universe(g) && forall e :: e in edges ==> e in WeightedEdges(u, g)
    ensures RelaxEdges(l, u, bestDist, g, enforce, edges).dist.Keys <= Universe(g)
    decreases |edges|
  {
    hide WeightedEdges, Universe;
    if edges != [] {
      var e := edges[|edges| - 1];
      RelaxStaysInUniverse(g, enforce, l, u, bestDist, edges[..|edges| - 1]);
      EdgeInUniverse(g, u, e);
    }
  }

  /** A node marked visited, and its label at that moment. */
  datatype Visit = Visit(node: Name, dist: int)

  /** How a search went: the visits in order, the labels it ends with and the goal it arrives at, if any. */
  datatype Verdict =
    | Exhausted(visits: seq<Visit>, labels: Labels)
    | Arrived(visits: seq<Visit>, labels: Labels, goal: Name, steps: int)

  /** The node to visit next, if any is left. */
  ghost function Next(dist: map<Name, int>, visited: set<Name>): (n: Option<Name>)
    ensures n.Some? ==> IsNext(dist, visited, n.value)
  {
    if n :| IsNext(dist, visited, n) then Some(n) else None
  }

  lemma NextIs(dist: map<Name, int>, visited: set<Name>, n: Name)
    requires IsNext(dist, visited, n)
    ensures Next(dist, visited) == Some(n)
  {
    NextUnique(dist, visited, n, Next(dist, visited).value);
  }

  lemma NextFacts(dist: map<Name, int>, visited: set<Name>, n: Name)
    requires IsNext(dist, visited, n)
    ensures n in dist && n !in visited && dist[n] < MAX_INT
  {
  }

  /** Of any candidates one comes first. */
  lemma {:induction false} FirstCandidate(dist: map<Name, int>, visited: set<Name>, within: set<Name>)
    returns (n: Name)
    requires exists m :: m in within && Candidate(dist, visited, m)
    ensures n in within && Candidate(dist, visited, n)
    ensures forall m :: m in within && Candidate(dist, visited, m) && m != n ==> Before(dist, n, m)
    decreases within
  {
    hide Less;
    var x :| x in within && Candidate(dist, visited, x);
    var rest := within - {x};
    n := x;
    if exists m :: m in rest && Candidate(dist, visited, m) {
      var r := FirstCandidate(dist, visited, rest);
      LessExactlyOne(x, r);
      if Before(dist, r, x) {
        n := r;
      } else {
        forall m | m in rest && Candidate(dist, visited, m)
          ensures Before(dist, x, m)
        {
          if m != r && dist[x] == dist[r] == dist[m] {
            LessTransitive(x, r, m);
          }
        }
      }
    }
  }

  lemma NextExists(dist: map<Name, int>, visited: set<Name>)
    ensures Next(dist, visited).Some? <==> exists m :: Candidate(dist, visited, m)
  {
    hide Less;
    if m :| Candidate(dist, visited, m) {
      assert m in dist.Keys;
      var n := FirstCandidate(dist, visited, dist.Keys);
      assert IsNext(dist, visited, n);
    }
  }

  ghost function After(g: Graph, enforce: bool, l: Labels, u: Name): Labels
    requires u in l.dist
  {
    RelaxEdges(l, u, l.dist[u], g, enforce, WeightedEdges(u, g))
  }

  ghost function Preceded(visits: seq<Visit>, v: Verdict): Verdict {
    v.(visits := visits + v.visits)
  }

  /** The search as a function of its labels. It depends on nothing but the graph, so the order in
      which a map happens to be read cannot show in the result. */
  ghost function SearchFrom(g: Graph, enforce: bool, l: Labels, visited: set<Name>): (v: Verdict)
    requires l.dist.Keys <= Universe(g)
    decreases Universe(g) - visited
  {
    var next := Next(l.dist, visited);
    if next.None? then Exhausted([], l)
    else
      var u := next.value;
      if Goal(g, u) then Arrived([], l, u, l.dist[u])
      else
        RelaxStaysInUniverse(g, enforce, l, u, l.dist[u], WeightedEdges(u, g));
        assert u in Universe(g) - visited;
        Preceded([Visit(u, l.dist[u])], SearchFrom(g, enforce, After(g, enforce, l, u), visited + {u}))
  }

  lemma InitialInUniverse(g: Graph)
    ensures g.initialState in Universe(g)
  {
  }

  ghost function Search(g: Graph, enforce: bool): Verdict {
    InitialInUniverse(g);
    SearchFrom(g, enforce, Start(g), {})
  }

  // --------------------------------------------------------- a search that does not wrap

  ghost predicate AllFit(g: Graph, enforce: bool, visits: seq<Visit>) {
    forall s :: s in visits ==> Fits(g, enforce, s.node, s.dist, WeightedEdges(s.node, g))
  }

  /** No edge the search relaxes takes the sum past 64 bits: for every node it visits, its distance plus the
      cost of each permitted edge is in range. */
  ghost predicate NoOverflow(g: Graph, enforce: bool) {
    AllFit(g, enforce, Search(g, enforce).visits)
  }

  ghost predicate Visited(visits: seq<Visit>, n: Name, d: int) {
    Visit(n, d) in visits
  }

  /** How a search without overflow ends: the invariant still holds, and either nothing is left to visit or
      a goal comes next. */
  ghost predicate Ends(g: Graph, enforce: bool, v: Verdict, visited: set<Name>, via: Routes) {
    && Sound(g, enforce, v.labels, visited, via)
    && (v.Exhausted? ==> forall m :: !Candidate(v.labels.dist, visited, m))
    && (v.Arrived? ==> Goal(g, v.goal) && IsNext(v.labels.dist, visited, v.goal) && v.steps == v.labels.dist[v.goal])
  }

  /** The visits are the nodes newly visited, each at the label it ends with. */
  ghost predicate Records(v: Verdict, before: set<Name>, after: set<Name>) {
    && before <= after <= v.labels.dist.Keys + before
    && (forall n, d :: Visited(v.visits, n, d) ==> n in after && n in v.labels.dist && v.labels.dist[n] == d)
    && (forall n :: n in after - before ==> n in v.labels.dist && Visited(v.visits, n, v.labels.dist[n]))
  }

  lemma RecordsMore(rest: Verdict, before: set<Name>, after: set<Name>, u: Name, d: int)
    requires Records(rest, before + {u}, after)
    requires u in rest.labels.dist && rest.labels.dist[u] == d
    ensures Records(Preceded([Visit(u, d)], rest), before, after)
  {
    var v := Preceded([Visit(u, d)], rest);
    assert forall n, e :: Visited(v.visits, n, e) <==> Visited(rest.visits, n, e) || (n == u && e == d);
  }

  lemma AllFitSplit(g: Graph, enforce: bool, s: Visit, rest: seq<Visit>)
    ensures AllFit(g, enforce, [s] + rest) <==>
            Fits(g, enforce, s.node, s.dist, WeightedEdges(s.node, g)) && AllFit(g, enforce, rest)
  {
    hide Fits, WeightedEdges;
    assert s in [s] + rest;
    assert forall x :: x in rest ==> x in [s] + rest;
  }

  lemma {:induction false} SearchFromEnds(g: Graph, enforce: bool, l: Labels, visited: set<Name>, via: Routes)
    returns (visited': set<Name>, via': Routes)
    requires Sound(g, enforce, l, visited, via) && l.dist.Keys <= Universe(g)
    requires AllFit(g, enforce, SearchFrom(g, enforce, l, visited).visits)
    ensures Ends(g, enforce, SearchFrom(g, enforce, l, visited), visited', via')
    ensures Records(SearchFrom(g, enforce, l, visited), visited, visited')
    ensures KeepsVisited(l, SearchFrom(g, enforce, l, visited).labels, visited)
    decreases Universe(g) - visited
  {
    hide WeightedEdges, Sound, Universe, RelaxEdges, IsNext, Fits, AllFit, Records;
    var next := Next(l.dist, visited);
    visited', via' := visited, via;
    if next.None? {
      NextExists(l.dist, visited);
      NothingRecorded(SearchFrom(g, enforce, l, visited), visited);
    } else {
      var u := next.value;
      NextFacts(l.dist, visited, u);
      if Goal(g, u) {
        NothingRecorded(SearchFrom(g, enforce, l, visited), visited);
      } else {
        var l1 := After(g, enforce, l, u);
        RelaxStaysInUniverse(g, enforce, l, u, l.dist[u], WeightedEdges(u, g));
        var rest := SearchFrom(g, enforce, l1, visited + {u});
        AllFitSplit(g, enforce, Visit(u, l.dist[u]), rest.visits);
        var viaMid := VisitKeepsSound(g, enforce, l, visited, via, u);
        visited', via' := SearchFromEnds(g, enforce, l1, visited + {u}, viaMid);
        RecordsMore(rest, visited, visited', u, l.dist[u]);
      }
    }
  }

  ghost predicate KeepsVisited(l0: Labels, l: Labels, visited: set<Name>) {
    forall n :: n in visited && n in l0.dist ==> n in l.dist && l.dist[n] == l0.dist[n]
  }

  lemma NothingRecorded(v: Verdict, visited: set<Name>)
    requires v.visits == []
    ensures Records(v, visited, visited)
  {
  }

  /** The end of a search without overflow. */
  lemma SearchEnds(g: Graph, enforce: bool) returns (visited: set<Name>, via: Routes)
    requires NoOverflow(g, enforce)
    ensures Ends(g, enforce, Search(g, enforce), visited, via) && Records(Search(g, enforce), {}, visited)
  {
    hide Sound, Universe, AllFit, Ends, Records, WeightedEdges, SearchFrom;
    StartSound(g, enforce);
    InitialInUniverse(g);
    visited, via := SearchFromEnds(g, enforce, Start(g), {}, map[g.initialState := []]);
  }

  // ---------------------------------------------------------------- what it proves

  /** Cost(w) is the least of any route to `n`. */
  ghost predicate Cheapest(g: Graph, enforce: bool, w: seq<Hop>, n: Name) {
    && Route(g, enforce, w, g.initialState, n)
    && forall v :: Route(g, enforce, v, g.initialState, n) ==> Cost(w) <= Cost(v)
  }

  /** The next node's label is no more than any route to a node outside `visited` costs. */
  lemma NextIsNearest(g: Graph, enforce: bool, l: Labels, visited: set<Name>, via: Routes, u: Name, w: seq<Hop>,
                      b: Name)
    requires Sound(g, enforce, l, visited, via) && IsNext(l.dist, visited, u)
    requires Route(g, enforce, w, g.initialState, b) && b !in visited
    ensures l.dist[u] <= Cost(w)
  {
    hide RouteBehind, Route, Less, WeightedEdges;
    var n := OpenLabelOnRoute(g, enforce, l, visited, w, b);
    assert Candidate(l.dist, visited, n) || l.dist[n] >= MAX_INT;
  }

  lemma GoalNotVisited(g: Graph, enforce: bool, l: Labels, visited: set<Name>, via: Routes, w: seq<Hop>)
    returns (t: Name)
    requires Sound(g, enforce, l, visited, via) && GoalRoute(g, enforce, w)
    ensures Goal(g, t) && Route(g, enforce, w, g.initialState, t) && t !in visited
  {
    hide Labelled, Settled, Route;
    t :| Goal(g, t) && Route(g, enforce, w, g.initialState, t);
  }

  /** What arriving at the next node `u`, a goal, proves about the graph. */
  lemma ArrivalIsOptimal(g: Graph, enforce: bool, l: Labels, visited: set<Name>, via: Routes, u: Name, w: seq<Hop>)
    requires Sound(g, enforce, l, visited, via)
    requires IsNext(l.dist, visited, u) && GoalRoute(g, enforce, w)
    ensures l.dist[u] <= Cost(w)
  {
    hide Sound, Route, IsNext;
    var t := GoalNotVisited(g, enforce, l, visited, via, w);
    NextIsNearest(g, enforce, l, visited, via, u, w, t);
  }

  /** What running out of candidates proves about the graph. */
  lemma ExhaustedMeansOutOfRange(g: Graph, enforce: bool, l: Labels, visited: set<Name>, via: Routes, w: seq<Hop>)
    returns (n: Name)
    requires Sound(g, enforce, l, visited, via)
    requires (forall m :: !Candidate(l.dist, visited, m)) && GoalRoute(g, enforce, w)
    ensures n in l.dist && MAX_INT <= l.dist[n] <= Cost(w)
  {
    hide Route, Less, WeightedEdges, Labelled, GoalRoute;
    var t := GoalNotVisited(g, enforce, l, visited, via, w);
    LabelledStart(g, enforce, l, visited, via);
    n := OpenLabelOnRoute(g, enforce, l, visited, w, t);
    assert !Candidate(l.dist, visited, n);
  }

  lemma LabelledStart(g: Graph, enforce: bool, l: Labels, visited: set<Name>, via: Routes)
    requires Labelled(g, enforce, l, visited, via)
    ensures g.initialState in l.dist && l.dist[g.initialState] == 0
  {
  }

  /** What the result of a search says about all routes. */
  ghost predicate Exact(g: Graph, enforce: bool, v: Verdict) {
    match v
    case Exhausted(_, _) => forall w :: GoalRoute(g, enforce, w) ==> Cost(w) >= MAX_INT
    case Arrived(_, _, goal, steps) =>
      && steps < MAX_INT
      && (exists w :: GoalRoute(g, enforce, w) && Cost(w) == steps)
      && (forall w :: GoalRoute(g, enforce, w) ==> steps <= Cost(w))
  }

  lemma LabelIsCost(g: Graph, enforce: bool, l: Labels, visited: set<Name>, via: Routes, n: Name)
    requires Labelled(g, enforce, l, visited, via) && n in l.dist
    ensures n in via && Route(g, enforce, via[n], g.initialState, n) && Cost(via[n]) == l.dist[n]
    ensures forall h :: h in via[n] ==> h.from in visited
  {
    hide Route, Cost, OneHopMore;
    assert RouteBehind(g, enforce, l.dist[n], visited, via[n], n);
  }

  /** The search is exact: it arrives with the least cost of any route to a goal, or no such route costs less
      than math.MaxInt. */
  lemma SearchExact(g: Graph, enforce: bool)
    requires NoOverflow(g, enforce)
    ensures Exact(g, enforce, Search(g, enforce))
  {
    hide NoOverflow, Labelled, Ordered, Settled, Route, Cost, Search, IsNext, Goal;
    var visited, via := SearchEnds(g, enforce);
    var v := Search(g, enforce);
    if v.Exhausted? {
      forall w | GoalRoute(g, enforce, w)
        ensures Cost(w) >= MAX_INT
      {
        var n := ExhaustedMeansOutOfRange(g, enforce, v.labels, visited, via, w);
      }
    } else {
      NextFacts(v.labels.dist, visited, v.goal);
      LabelIsCost(g, enforce, v.labels, visited, via, v.goal);
      assert GoalRoute(g, enforce, via[v.goal]);
      forall w | GoalRoute(g, enforce, w)
        ensures v.steps <= Cost(w)
      {
        ArrivalIsOptimal(g, enforce, v.labels, visited, via, v.goal, w);
      }
    }
  }

  /** Every node is visited at its least cost. */
  lemma VisitedAtLeastCost(g: Graph, enforce: bool, n: Name, d: int) returns (w: seq<Hop>)
    requires NoOverflow(g, enforce) && Visited(Search(g, enforce).visits, n, d)
    ensures Cheapest(g, enforce, w, n) && Cost(w) == d && !Goal(g, n)
  {
    hide NoOverflow, Labelled, Route, Cost, Search, IsNext, Goal, Settled, Candidate;
    var visited, via := SearchEnds(g, enforce);
    var l := Search(g, enforce).labels;
    LabelIsCost(g, enforce, l, visited, via, n);
    LabelledStart(g, enforce, l, visited, via);
    w := via[n];
    forall v | Route(g, enforce, v, g.initialState, n)
      ensures Cost(w) <= Cost(v)
    {
      var m := OpenLabelOnRoute(g, enforce, l, visited, v, n);
    }
  }

  // ------------------------------------------------------- labels and parents, exactly

  /** The label is the cost of a real route. */
  ghost predicate HonestAt(g: Graph, enforce: bool, l: Labels, n: Name)
    requires n in l.dist
  {
    exists w :: Route(g, enforce, w, g.initialState, n) && Cost(w) == l.dist[n]
  }

  ghost predicate Honest(g: Graph, enforce: bool, l: Labels) {
    forall n :: n in l.dist ==> HonestAt(g, enforce, l, n)
  }

  /** Labels are only ever lowered. */
  ghost predicate NoHigher(l0: Labels, l: Labels) {
    forall n :: n in l0.dist ==> n in l.dist && l.dist[n] <= l0.dist[n]
  }

  lemma {:induction false} RelaxLowers(g: Graph, enforce: bool, l: Labels, u: Name, d: int, edges: seq<WeightedEdge>)
    ensures NoHigher(l, RelaxEdges(l, u, d, g, enforce, edges))
    decreases |edges|
  {
    if edges != [] {
      RelaxLowers(g, enforce, l, u, d, edges[..|edges| - 1]);
    }
  }

  lemma {:induction false} SearchLowers(g: Graph, enforce: bool, l: Labels, visited: set<Name>)
    requires l.dist.Keys <= Universe(g)
    ensures NoHigher(l, SearchFrom(g, enforce, l, visited).labels)
    decreases Universe(g) - visited
  {
    hide WeightedEdges, Universe, RelaxEdges, IsNext;
    var next := Next(l.dist, visited);
    if next.Some? && !Goal(g, next.value) {
      var u := next.value;
      NextFacts(l.dist, visited, u);
      RelaxStaysInUniverse(g, enforce, l, u, l.dist[u], WeightedEdges(u, g));
      RelaxLowers(g, enforce, l, u, l.dist[u], WeightedEdges(u, g));
      SearchLowers(g, enforce, After(g, enforce, l, u), visited + {u});
    }
  }

  ghost predicate Negative(l: Labels) {
    exists n :: n in l.dist && l.dist[n] < 0
  }

  /** An edge that overflows leaves a negative label behind. */
  lemma {:induction false} OverflowWrites(g: Graph, enforce: bool, l: Labels, u: Name, d: int, edges: seq<WeightedEdge>)
    requires 0 <= d < MAX_INT && (forall n :: n in l.dist ==> l.dist[n] >= 0)
    requires !Fits(g, enforce, u, d, edges) && forall e :: e in edges ==> 0 <= e.stepCost <= MAX_INT
    ensures Negative(RelaxEdges(l, u, d, g, enforce, edges))
    decreases |edges|
  {
    var init, e := edges[..|edges| - 1], edges[|edges| - 1];
    assert forall x :: x in edges <==> x in init || x == e;
    var mid := RelaxEdges(l, u, d, g, enforce, init);
    if Fits(g, enforce, u, d, init) {
      FittingStaysUp(g, enforce, l, u, d, init);
      assert Add64(d, e.stepCost) < 0;
      assert e.to in RelaxEdge(mid, u, d, e).dist;
    } else {
      OverflowWrites(g, enforce, l, u, d, init);
      var n :| n in mid.dist && mid.dist[n] < 0;
      assert n in RelaxEdge(mid, u, d, e).dist;
    }
  }

  lemma {:induction false} FittingStaysUp(g: Graph, enforce: bool, l: Labels, u: Name, d: int, edges: seq<WeightedEdge>)
    requires d >= 0 && (forall n :: n in l.dist ==> l.dist[n] >= 0)
    requires Fits(g, enforce, u, d, edges) && forall e :: e in edges ==> e.stepCost >= 0
    ensures !Negative(RelaxEdges(l, u, d, g, enforce, edges))
    decreases |edges|
  {
    if edges != [] {
      var init := edges[..|edges| - 1];
      assert forall x :: x in init ==> x in edges;
      FittingStaysUp(g, enforce, l, u, d, init);
    }
  }

  lemma {:induction false} OverflowFrom(g: Graph, enforce: bool, l: Labels, visited: set<Name>, via: Routes)
    requires Sound(g, enforce, l, visited, via) && l.dist.Keys <= Universe(g)
    requires !AllFit(g, enforce, SearchFrom(g, enforce, l, visited).visits)
    ensures Negative(SearchFrom(g, enforce, l, visited).labels)
    decreases Universe(g) - visited
  {
    hide WeightedEdges, Sound, Universe, RelaxEdges, IsNext, Fits, AllFit;
    var next := Next(l.dist, visited);
    NoVisits(g, enforce);
    var u := next.value;
    NextFacts(l.dist, visited, u);
    var l1 := After(g, enforce, l, u);
    RelaxStaysInUniverse(g, enforce, l, u, l.dist[u], WeightedEdges(u, g));
    AllFitSplit(g, enforce, Visit(u, l.dist[u]), SearchFrom(g, enforce, l1, visited + {u}).visits);
    if Fits(g, enforce, u, l.dist[u], WeightedEdges(u, g)) {
      var via' := VisitKeepsSound(g, enforce, l, visited, via, u);
      OverflowFrom(g, enforce, l1, visited + {u}, via');
    } else {
      EdgesInRange(g, u);
      LabelsUp(g, enforce, l, visited, via);
      OverflowWrites(g, enforce, l, u, l.dist[u], WeightedEdges(u, g));
      SearchLowers(g, enforce, l1, visited + {u});
    }
  }

  lemma NoVisits(g: Graph, enforce: bool)
    ensures AllFit(g, enforce, [])
  {
  }

  lemma EdgesInRange(g: Graph, u: Name)
    ensures forall e :: e in WeightedEdges(u, g) ==> 0 <= e.stepCost <= MAX_INT
  {
    hide WeightedEdges;
    forall e | e in WeightedEdges(u, g)
      ensures 0 <= e.stepCost <= MAX_INT
    {
      EdgeCosts(u, g, e);
    }
  }

  lemma LabelsUp(g: Graph, enforce: bool, l: Labels, visited: set<Name>, via: Routes)
    requires Sound(g, enforce, l, visited, via)
    ensures forall n :: n in l.dist ==> l.dist[n] >= 0
  {
    hide Ordered, Settled, RouteBehind;
  }

  /** Every label the search writes is the cost of a real route exactly when no edge it relaxes overflows: the first
      overflow leaves a negative label, and no route costs less than nothing. */
  lemma LabelsHonestIff(g: Graph, enforce: bool)
    ensures Honest(g, enforce, Search(g, enforce).labels) <==> NoOverflow(g, enforce)
  {
    hide Sound, Universe, AllFit, Route, Cost, WeightedEdges, SearchFrom;
    var l := Search(g, enforce).labels;
    if NoOverflow(g, enforce) {
      var visited, via := SearchEnds(g, enforce);
      forall n | n in l.dist
        ensures HonestAt(g, enforce, l, n)
      {
        SoundIsLabelled(g, enforce, l, visited, via);
        LabelIsCost(g, enforce, l, visited, via, n);
      }
    } else {
      StartSound(g, enforce);
      InitialInUniverse(g);
      OverflowFrom(g, enforce, Start(g), {}, map[g.initialState := []]);
      var n :| n in l.dist && l.dist[n] < 0;
      if HonestAt(g, enforce, l, n) {
        var w :| Route(g, enforce, w, g.initialState, n) && Cost(w) == l.dist[n];
        CostNonNegative(g, enforce, w, g.initialState, n);
      }
    }
  }

  lemma SoundIsLabelled(g: Graph, enforce: bool, l: Labels, visited: set<Name>, via: Routes)
    requires Sound(g, enforce, l, visited, via)
    ensures Labelled(g, enforce, l, visited, via)
  {
  }

  lemma LabelledLeadsBack(g: Graph, enforce: bool, l: Labels, visited: set<Name>, via: Routes, n: Name)
    requires Labelled(g, enforce, l, visited, via) && n in l.dist
    ensures LeadsBack(l.parent, g.initialState, n)
  {
    hide RouteBehind;
    var rank := map n | n in via :: |via[n]|;
    RankedLeadsBack(l.parent, rank, g.initialState, n);
  }

  /** Without overflow the parent pointers lead back from every label, zero-cost edges or not. */
  lemma ParentsLeadBack(g: Graph, enforce: bool, n: Name)
    requires NoOverflow(g, enforce) && n in Search(g, enforce).labels.dist
    ensures LeadsBack(Search(g, enforce).labels.parent, g.initialState, n)
  {
    hide Sound, NoOverflow, Search;
    var visited, via := SearchEnds(g, enforce);
    SoundIsLabelled(g, enforce, Search(g, enforce).labels, visited, via);
    LabelledLeadsBack(g, enforce, Search(g, enforce).labels, visited, via, n);
  }

  // ---------------------------------------------------------------- the reported path

  /** The path a diagnostic shows: leaving the scope counts as reaching the target state. */
  function Shown(g: Graph, path: seq<Name>): seq<Name> {
    if |path| > 0 && path[|path| - 1] == RETURN then path[|path| - 1 := g.targetState] else path
  }

  /** `w` is the route behind a reported path: cheapest, and not past a goal before its end. */
  ghost predicate Reported(g: Graph, enforce: bool, w: seq<Hop>, minSteps: int, minPath: seq<Name>) {
    && GoalRoute(g, enforce, w)
    && Cost(w) == minSteps
    && Shown(g, Nodes(w, g.initialState)) == minPath
    && forall h :: h in w ==> !Goal(g, h.from)
  }

  lemma {:induction false} ParentsFollowRoute(g: Graph, enforce: bool, l: Labels, visited: set<Name>, via: Routes,
                                              path: seq<Name>, n: Name)
    requires Labelled(g, enforce, l, visited, via) && n in l.dist
    requires FollowsParents(l.parent, path, g.initialState, n)
    ensures path == Nodes(via[n], g.initialState)
    decreases |path|
  {
    hide RouteBehind, Nodes, OneHopMore, Route, Cost;
    NoHops(g.initialState);
    if |path| > 1 {
      LongPathLeavesStart(l.parent, path, g.initialState, n);
    }
    if n != g.initialState {
      var k := |path| - 2;
      assert path[k + 1] == n && l.parent[n] == path[k];
      FollowsPrefix(l.parent, path, g.initialState, n, k);
      ParentsFollowRoute(g, enforce, l, visited, via, path[..k + 1], path[k]);
      assert path == path[..k + 1] + [n];
      assert ParentBehind(l, visited, via, n);
      LabelIsCost(g, enforce, l, visited, via, n);
      LastHop(g, enforce, via[n], via[path[k]], path[k], n);
    }
  }

  lemma NoHops(a: Name)
    ensures Nodes([], a) == [a]
  {
  }

  lemma LastHop(g: Graph, enforce: bool, w: seq<Hop>, before: seq<Hop>, p: Name, n: Name)
    requires OneHopMore(w, before, p) && Route(g, enforce, w, g.initialState, n)
    ensures Nodes(w, g.initialState) == Nodes(before, g.initialState) + [n]
  {
    hide WeightedEdges, Permitted;
  }

  /** The path the parents describe is the path of a cheapest route. */
  lemma SearchReports(g: Graph, enforce: bool, path: seq<Name>) returns (w: seq<Hop>)
    requires NoOverflow(g, enforce) && Search(g, enforce).Arrived?
    requires FollowsParents(Search(g, enforce).labels.parent, path, g.initialState, Search(g, enforce).goal)
    ensures Reported(g, enforce, w, Search(g, enforce).steps, Shown(g, path))
  {
    hide NoOverflow, Labelled, Settled, Route, Cost, Search, Candidate, Before, FollowsParents;
    var visited, via := SearchEnds(g, enforce);
    var v := Search(g, enforce);
    NextFacts(v.labels.dist, visited, v.goal);
    LabelIsCost(g, enforce, v.labels, visited, via, v.goal);
    ParentsFollowRoute(g, enforce, v.labels, visited, via, path, v.goal);
    w := via[v.goal];
    assert GoalRoute(g, enforce, w);
  }

  // ------------------------------------------------------------------ the code's loop

  /** Identifiers are not empty: the search uses the empty name for "none". */
  ghost predicate Named(g: Graph) {
    g.initialState != "" && forall u, e :: e in WeightedEdges(u, g) ==> e.to != ""
  }

  /** The pointers of the search lead back from the goal it arrives at, so reconstructing the path ends. */
  ghost predicate Traceable(g: Graph, enforce: bool) {
    var v := Search(g, enforce);
    v.Arrived? ==> LeadsBack(v.labels.parent, g.initialState, v.goal)
  }

  lemma {:induction false} ArrivedLabelled(g: Graph, enforce: bool, l: Labels, visited: set<Name>)
    requires l.dist.Keys <= Universe(g)
    ensures var v := SearchFrom(g, enforce, l, visited); v.Arrived? ==> v.goal in v.labels.dist
    decreases Universe(g) - visited
  {
    hide WeightedEdges, Universe, RelaxEdges, IsNext;
    var next := Next(l.dist, visited);
    if next.Some? {
      var u := next.value;
      NextFacts(l.dist, visited, u);
      if !Goal(g, u) {
        RelaxStaysInUniverse(g, enforce, l, u, l.dist[u], WeightedEdges(u, g));
        ArrivedLabelled(g, enforce, After(g, enforce, l, u), visited + {u});
      }
    }
  }

  lemma NoOverflowTraceable(g: Graph, enforce: bool)
    requires NoOverflow(g, enforce)
    ensures Traceable(g, enforce)
  {
    hide NoOverflow, SearchFrom, Universe;
    InitialInUniverse(g);
    ArrivedLabelled(g, enforce, Start(g), {});
    if Search(g, enforce).Arrived? {
      ParentsLeadBack(g, enforce, Search(g, enforce).goal);
    }
  }

  lemma NamedUniverse(g: Graph)
    requires Named(g)
    ensures "" !in Universe(g)
  {
    hide WeightedEdges;
  }

  lemma ShownOnlyAtReturn(g: Graph, path: seq<Name>, u: Name)
    requires |path| > 0 && path[|path| - 1] == u
    ensures Shown(g, path) == if u == RETURN then path[|path| - 1 := g.targetState] else path
  {
  }

  lemma PrecededTwice(done: seq<Visit>, s: Visit, v: Verdict)
    ensures Preceded(done, Preceded([s], v)) == Preceded(done + [s], v)
  {
    assert done + ([s] + v.visits) == (done + [s]) + v.visits;
  }

  /** Dijkstra from the initial state to the target state or out of the scope. The loop computes the search and
      the path its parents describe. When nothing overflows that is a cheapest route to a goal, and
      not finding one means that none costs less than math.MaxInt. */
  method ShortestStepPathToTarget(g: Graph, enforceMaxVisits: bool)
    returns (minSteps: int, minPath: seq<Name>, found: bool)
    requires Named(g) && Traceable(g, enforceMaxVisits)
    ensures found <==> Search(g, enforceMaxVisits).Arrived?
    ensures !found ==> minSteps == 0 && minPath == []
    ensures found ==> var v := Search(g, enforceMaxVisits);
                      && v.steps == minSteps
                      && exists p :: FollowsParents(v.labels.parent, p, g.initialState, v.goal) &&
                          minPath == Shown(g, p)
    ensures NoOverflow(g, enforceMaxVisits) ==> Exact(g, enforceMaxVisits, Search(g, enforceMaxVisits))
    ensures NoOverflow(g, enforceMaxVisits) && found ==>
              minSteps < MAX_INT && exists w :: Reported(g, enforceMaxVisits, w, minSteps, minPath)
  {
    hide WeightedEdges, Universe, RelaxEdges, Reported, IsNext, NoOverflow, Named, FollowsParents, Exact;
    var l := Labels(map[g.initialState := 0], map[]);
    var visited: set<Name> := {};
    ghost var done: seq<Visit> := [];
    InitialInUniverse(g);
    NamedUniverse(g);
    if NoOverflow(g, enforceMaxVisits) {
      SearchExact(g, enforceMaxVisits);
    }
    while true
      invariant l.dist.Keys <= Universe(g)
      invariant Preceded(done, SearchFrom(g, enforceMaxVisits, l, visited)) == Search(g, enforceMaxVisits)
      decreases Universe(g) - visited
    {
      var u, bestDist := NextUnvisitedDijkstraNode(l.dist, visited);
      if u == "" {
        NextExists(l.dist, visited);
        return 0, [], false;
      }
      NextIs(l.dist, visited, u);
      NextFacts(l.dist, visited, u);
      if u == g.targetState || u == RETURN {
        minPath := FinalizeTargetPath(l.parent, g, u, enforceMaxVisits);
        return bestDist, minPath, true;
      }
      RelaxStaysInUniverse(g, enforceMaxVisits, l, u, bestDist, WeightedEdges(u, g));
      PrecededTwice(done, Visit(u, bestDist), SearchFrom(g, enforceMaxVisits, After(g, enforceMaxVisits, l, u),
          visited + {u}));
      done := done + [Visit(u, bestDist)];
      visited := visited + {u};
      l := RelaxDijkstraEdges(u, bestDist, g, enforceMaxVisits, l);
    }
  }

  method FinalizeTargetPath(parent: map<Name, Name>, g: Graph, u: Name, ghost enforce: bool) returns (path: seq<Name>)
    requires LeadsBack(parent, g.initialState, u)
    requires Search(g, enforce).Arrived? && Search(g, enforce).labels.parent == parent && Search(g, enforce).goal == u
    ensures exists p :: FollowsParents(parent, p, g.initialState, u) && path == Shown(g, p)
    ensures NoOverflow(g, enforce) ==> Search(g, enforce).steps < MAX_INT
    ensures NoOverflow(g, enforce) ==> exists w :: Reported(g, enforce, w, Search(g, enforce).steps, path)
  {
    hide NoOverflow, Reported, Search;
    path := ReconstructPath(parent, g.initialState, u);
    ShownOnlyAtReturn(g, path, u);
    if NoOverflow(g, enforce) {
      SearchExact(g, enforce);
      ghost var w := SearchReports(g, enforce, path);
    }
    if u == RETURN && |path| > 0 && path[|path| - 1] == RETURN {
      path := path[|path| - 1 := g.targetState];
    }
  }
}
