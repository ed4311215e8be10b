/** The compiled workflow graph (workflow/schema.go) and the two enumerators that
    read its transitions: `NodeTargets` for topology, `WeightedEdges` for cost. */
module FsmGraph {
  import opened Names
  import opened Walks

  /** math.MaxInt on a 64-bit host. */
  const MAX_INT: int := 0x7FFF_FFFF_FFFF_FFFF

  /** Go's int on such a host. */
  type Int64 = x: int | -MAX_INT - 1 <= x <= MAX_INT

  datatype Outcome = Outcome(name: Name, next: Name, fallback: bool)

  /** `count`, `forEach` and `parallel` hold what the expression folds to at compile
      time: None when it is absent, reads a run-time variable or does not fold.
      `iterates` says that one of these or a while condition is declared. */
  datatype Step = Step(
    outcomes: map<Name, Outcome>,
    defaultOutcome: Option<Outcome>,
    onFailure: string,
    maxVisits: Int64,
    count: Option<Int64>,
    forEach: Option<Int64>,
    parallel: Option<Int64>,
    isWhile: bool,
    iterates: bool)

  datatype Switch = Switch(conditions: seq<Name>, defaultNext: Name)

  /** `needs` is the state's `requires` attribute; empty when not declared. */
  datatype State = State(terminal: bool, needs: string)

  datatype Graph = Graph(
    initialState: Name,
    targetState: Name,
    maxTotalSteps: Int64,
    steps: map<Name, Step>,
    stepOrder: seq<Name>,
    switches: map<Name, Switch>,
    waits: map<Name, map<Name, Name>>,
    approvals: map<Name, map<Name, Name>>,
    states: map<Name, State>)

  // ------------------------------------------------- transitions as they are declared

  ghost predicate DeclaresOutcome(step: Step, o: Outcome) {
    (exists k :: k in step.outcomes && step.outcomes[k] == o) || step.defaultOutcome == Some(o)
  }

  ghost predicate StepLeadsTo(step: Step, v: Name) {
    || (exists k :: k in step.outcomes && step.outcomes[k].next == v)
    || (step.defaultOutcome.Some? && step.defaultOutcome.value.next == v)
  }

  ghost predicate SwitchLeadsTo(sw: Switch, v: Name) {
    v in sw.conditions || (v == sw.defaultNext && v != "")
  }

  /** A wait or an approval leads where any of its outcomes does. */
  ghost predicate PauseLeadsTo(outcomes: map<Name, Name>, v: Name) {
    exists k :: k in outcomes && outcomes[k] == v
  }

  /** `v` is among what node `u` names as its next node: `return` included, `_continue` left out. */
  ghost predicate Transition(g: Graph, u: Name, v: Name) {
    if u in g.steps then v != CONTINUE && StepLeadsTo(g.steps[u], v)
    else if u in g.switches then SwitchLeadsTo(g.switches[u], v)
    else if u in g.waits then PauseLeadsTo(g.waits[u], v)
    else u in g.approvals && PauseLeadsTo(g.approvals[u], v)
  }

  /** The transitions that stay in the scope. A wait or an approval can only name nodes. */
  ghost predicate Onward(g: Graph, u: Name, v: Name) {
    Transition(g, u, v) && (u in g.steps || u in g.switches ==> v != RETURN)
  }

  predicate Onwards(v: Name) {
    v != CONTINUE && v != RETURN
  }

  ghost function StepMoves(g: Graph): set<(Name, Name)> {
    (set u, k | u in g.steps && k in g.steps[u].outcomes && Onwards(g.steps[u].outcomes[k].next) ::
       (u, g.steps[u].outcomes[k].next))
    + (set u | u in g.steps && g.steps[u].defaultOutcome.Some? && Onwards(g.steps[u].defaultOutcome.value.next) ::
         (u, g.steps[u].defaultOutcome.value.next))
  }

  ghost function SwitchMoves(g: Graph): set<(Name, Name)> {
    (set u, v | u in g.switches && u !in g.steps && v in g.switches[u].conditions && v != RETURN :: (u, v))
    + (set u | u in g.switches && u !in g.steps && g.switches[u].defaultNext != "" &&
         g.switches[u].defaultNext != RETURN :: (u, g.switches[u].defaultNext))
  }

  ghost function PauseMoves(g: Graph): set<(Name, Name)> {
    (set u, k | u in g.waits && u !in g.steps && u !in g.switches && k in g.waits[u] :: (u, g.waits[u][k]))
    + (set u, k | u in g.approvals && u !in g.steps && u !in g.switches && u !in g.waits && k in g.approvals[u] ::
         (u, g.approvals[u][k]))
  }

  /** The edges of the graph: every declared transition that stays in the scope. */
  ghost function Edges(g: Graph): set<(Name, Name)> {
    StepMoves(g) + SwitchMoves(g) + PauseMoves(g)
  }

  /** They are what the declarations say. */
  lemma EdgesDeclared(g: Graph, u: Name, v: Name)
    ensures (u, v) in Edges(g) <==> Onward(g, u, v)
  {
    assert (u, v) in StepMoves(g) <==> u in g.steps && Onwards(v) && StepLeadsTo(g.steps[u], v);
    assert (u, v) in SwitchMoves(g) <==> u !in g.steps && u in g.switches && v != RETURN
                                         && SwitchLeadsTo(g.switches[u], v);
    assert (u, v) in PauseMoves(g) <==> u !in g.steps && u !in g.switches && Onward(g, u, v);
  }

  // ---------------------------------------------------------------- topology

  function Values<V>(m: map<Name, V>, keys: seq<Name>): (r: seq<V>)
    requires forall k :: k in keys ==> k in m
    ensures |r| == |keys| && forall i :: 0 <= i < |r| ==> r[i] == m[keys[i]]
  {
    if keys == [] then [] else [m[keys[0]]] + Values(m, keys[1..])
  }

  /** The values of a map, sorted by key. */
  function MapValues<V>(m: map<Name, V>): (r: seq<V>)
    ensures forall k :: k in m ==> m[k] in r
    ensures forall v :: v in r ==> exists k :: k in m && m[k] == v
  {
    var keys := SortedKeys(m.Keys);
    var r := Values(m, keys);
    assert forall k :: k in m ==> m[k] in r by {
      forall k | k in m
        ensures m[k] in r
      {
        var i :| 0 <= i < |keys| && keys[i] == k;
        assert r[i] == m[k];
      }
    }
    r
  }

  /** One value per key, in the order of the keys. */
  lemma MapValuesInKeyOrder<V>(m: map<Name, V>, i: nat)
    requires i < |m|
    ensures |MapValues(m)| == |SortedKeys(m.Keys)| == |m|
    ensures SortedKeys(m.Keys)[i] in m && MapValues(m)[i] == m[SortedKeys(m.Keys)[i]]
  {
    hide SortedKeys;
    var keys := SortedKeys(m.Keys);
    assert |m.Keys| == |m| && keys[i] in keys;
  }

  lemma SingletonValues<V>(k: Name, v: V)
    ensures MapValues(map[k := v]) == [v]
  {
    var m := map[k := v];
    var keys := SortedKeys(m.Keys);
    assert m.Keys == {k} && |keys| == 1 && k in keys;
    assert keys == [k];
  }

  /** A step's outcomes by name, then its default outcome. */
  function StepOutcomes(step: Step): seq<Outcome> {
    MapValues(step.outcomes) + if step.defaultOutcome.Some? then [step.defaultOutcome.value] else []
  }

  predicate LeadsTo(outcomes: seq<Outcome>, v: Name) {
    exists o :: o in outcomes && o.next == v
  }

  function OutcomeTargets(outcomes: seq<Outcome>): (r: seq<Name>)
    ensures forall v :: v in r <==> v != CONTINUE && v != RETURN && LeadsTo(outcomes, v)
  {
    if outcomes == [] then []
    else
      var o := outcomes[0];
      (if o.next != CONTINUE && o.next != RETURN then [o.next] else []) + OutcomeTargets(outcomes[1..])
  }

  /** Targets come in the order of the outcomes, one for each outcome that stays in the scope. */
  lemma {:induction false} OutcomeTargetsInOrder(before: seq<Outcome>, o: Outcome)
    ensures OutcomeTargets(before + [o]) ==
            OutcomeTargets(before) + if o.next != CONTINUE && o.next != RETURN then [o.next] else []
  {
    if before == [] {
      assert before + [o] == [o] && [o][1..] == [];
    } else {
      OutcomeTargetsInOrder(before[1..], o);
      assert (before + [o])[1..] == before[1..] + [o];
    }
  }

  function WithoutReturn(nexts: seq<Name>): (r: seq<Name>)
    ensures forall v :: v in r <==> v != RETURN && v in nexts
  {
    if nexts == [] then []
    else (if nexts[0] != RETURN then [nexts[0]] else []) + WithoutReturn(nexts[1..])
  }

  function SwitchTargets(sw: Switch): seq<Name> {
    WithoutReturn(sw.conditions) +
    if sw.defaultNext != "" && sw.defaultNext != RETURN then [sw.defaultNext] else []
  }

  /** Every node the named node can transition to, in a fixed order. */
  function NodeTargets(name: Name, g: Graph): seq<Name> {
    if name in g.steps then OutcomeTargets(StepOutcomes(g.steps[name]))
    else if name in g.switches then SwitchTargets(g.switches[name])
    else if name in g.waits then MapValues(g.waits[name])
    else if name in g.approvals then MapValues(g.approvals[name])
    else []
  }

  /** Does the node have a direct transition out of the scope? */
  predicate NodeHasReturnEdge(name: Name, g: Graph) {
    || (name in g.steps && LeadsTo(StepOutcomes(g.steps[name]), RETURN))
    || (name in g.switches && (RETURN in g.switches[name].conditions || g.switches[name].defaultNext == RETURN))
  }

  function Declared(g: Graph): set<Name> {
    g.steps.Keys + g.switches.Keys + g.waits.Keys + g.approvals.Keys + g.states.Keys
  }

  lemma StepOutcomesDeclared(step: Step)
    ensures forall o :: o in StepOutcomes(step) <==> DeclaresOutcome(step, o)
    ensures forall v :: LeadsTo(StepOutcomes(step), v) <==> StepLeadsTo(step, v)
  {
    hide MapValues;
    forall v
      ensures LeadsTo(StepOutcomes(step), v) <==> StepLeadsTo(step, v)
    {
      if k :| k in step.outcomes && step.outcomes[k].next == v {
        assert step.outcomes[k] in StepOutcomes(step);
      }
      if step.defaultOutcome.Some? && step.defaultOutcome.value.next == v {
        assert step.defaultOutcome.value in StepOutcomes(step);
      }
    }
  }

  /** Outcomes come by name, the default last. */
  lemma StepOutcomesInOrder(step: Step, i: nat)
    requires i < |step.outcomes|
    ensures |StepOutcomes(step)| == |step.outcomes| + if step.defaultOutcome.Some? then 1 else 0
    ensures SortedKeys(step.outcomes.Keys)[i] in step.outcomes
    ensures StepOutcomes(step)[i] == step.outcomes[SortedKeys(step.outcomes.Keys)[i]]
  {
    hide MapValues, SortedKeys;
    MapValuesInKeyOrder(step.outcomes, i);
  }

  /** The topology view lists exactly the declared transitions that stay in the scope. */
  lemma TargetsDeclared(u: Name, g: Graph, v: Name)
    ensures v in NodeTargets(u, g) <==> Onward(g, u, v)
  {
    hide MapValues, StepOutcomes;
    if u in g.steps {
      StepOutcomesDeclared(g.steps[u]);
    }
  }

  lemma EdgesIff(g: Graph)
    ensures forall u, v :: (u, v) in Edges(g) <==> v in NodeTargets(u, g)
  {
    hide NodeTargets, Onward, Edges;
    forall u, v
      ensures (u, v) in Edges(g) <==> v in NodeTargets(u, g)
    {
      EdgesDeclared(g, u, v);
      TargetsDeclared(u, g, v);
    }
  }

  /** The node declares a transition to `return`. */
  lemma ReturnEdgeIff(u: Name, g: Graph)
    requires !(u in g.steps && u in g.switches)
    ensures NodeHasReturnEdge(u, g) <==> (u in g.steps || u in g.switches) && Transition(g, u, RETURN)
  {
    assert |RETURN| == 6 && |CONTINUE| == 9;
    if u in g.steps {
      StepOutcomesDeclared(g.steps[u]);
    }
  }

  /** A declared state the run may stop in: terminal, or waiting for a requirement. */
  predicate ExitState(name: Name, g: Graph) {
    name in g.states && (g.states[name].terminal || g.states[name].needs != "")
  }

  /** A node at which a run can leave the workflow. */
  predicate Exit(name: Name, g: Graph) {
    ExitState(name, g) || NodeHasReturnEdge(name, g)
  }

  // ------------------------------------------------------------------- costs

  datatype WeightedEdge = WeightedEdge(to: Name, stepCost: int, visitCost: int)

  function StaticCount(folded: Option<Int64>): Option<Int64> {
    if folded.Some? && folded.value >= 1 then folded else None
  }

  predicate TakesAllIterations(step: Step, o: Outcome) {
    || o.name == "all_succeeded"
    || (o.name == "any_failed" && (step.onFailure == "continue" || step.onFailure == "ignore"))
  }

  /** Least (steps, visits) spent by running the step and taking the outcome. */
  function StepOutcomeCosts(step: Step, o: Outcome): (c: (int, int))
    ensures 1 <= c.0 <= c.1 <= MAX_INT
  {
    if !TakesAllIterations(step, o) then (1, 1)
    else if StaticCount(step.count).Some? then (step.count.value, step.count.value)
    else if StaticCount(step.forEach).Some? then (step.forEach.value, step.forEach.value)
    else if StaticCount(step.parallel).Some? then (1, step.parallel.value)
    else (1, 1)
  }

  function OutcomeEdges(step: Step, outcomes: seq<Outcome>): (r: seq<WeightedEdge>)
    ensures forall o :: o in outcomes && o.next != CONTINUE ==>
                        WeightedEdge(o.next, StepOutcomeCosts(step, o).0, StepOutcomeCosts(step, o).1) in r
    ensures forall e :: e in r ==>
                        exists o :: o in outcomes && o.next == e.to && o.next != CONTINUE
                                    && (e.stepCost, e.visitCost) == StepOutcomeCosts(step, o)
  {
    if outcomes == [] then []
    else
      var o := outcomes[0];
      var c := StepOutcomeCosts(step, o);
      (if o.next != CONTINUE then [WeightedEdge(o.next, c.0, c.1)] else []) + OutcomeEdges(step, outcomes[1..])
  }

  function OutcomeEdge(step: Step, o: Outcome): seq<WeightedEdge> {
    var c := StepOutcomeCosts(step, o);
    if o.next != CONTINUE then [WeightedEdge(o.next, c.0, c.1)] else []
  }

  lemma OutcomeEdgesFirst(step: Step, outcomes: seq<Outcome>)
    ensures OutcomeEdges(step, outcomes) ==
            if outcomes == [] then [] else OutcomeEdge(step, outcomes[0]) + OutcomeEdges(step, outcomes[1..])
  {
    hide StepOutcomeCosts;
  }

  /** Edges come in the order of the outcomes, one for each that is not `_continue`. */
  lemma {:induction false} OutcomeEdgesInOrder(step: Step, before: seq<Outcome>, o: Outcome)
    ensures OutcomeEdges(step, before + [o]) == OutcomeEdges(step, before) + OutcomeEdge(step, o)
  {
    hide OutcomeEdges, OutcomeEdge;
    OutcomeEdgesFirst(step, before + [o]);
    OutcomeEdgesFirst(step, before);
    OutcomeEdgesFirst(step, []);
    if before == [] {
      assert (before + [o])[1..] == [];
    } else {
      OutcomeEdgesInOrder(step, before[1..], o);
      assert (before + [o])[1..] == before[1..] + [o];
    }
  }

  function FreeEdges(targets: seq<Name>): (r: seq<WeightedEdge>)
    ensures |r| == |targets| && forall i :: 0 <= i < |r| ==> r[i] == WeightedEdge(targets[i], 0, 0)
  {
    if targets == [] then [] else [WeightedEdge(targets[0], 0, 0)] + FreeEdges(targets[1..])
  }

  /** Every transition out of a node, with its static step and visit cost. */
  function WeightedEdges(u: Name, g: Graph): seq<WeightedEdge> {
    if u in g.steps then OutcomeEdges(g.steps[u], StepOutcomes(g.steps[u]))
    else if u in g.switches then
      var sw := g.switches[u];
      FreeEdges(sw.conditions) + if sw.defaultNext != "" then FreeEdges([sw.defaultNext]) else []
    else if u in g.waits then FreeEdges(MapValues(g.waits[u]))
    else if u in g.approvals then FreeEdges(MapValues(g.approvals[u]))
    else []
  }

  // ------------------------------------------------------- prices as they are declared

  /** The outcome is taken only when every iteration has run. */
  ghost predicate EndsIteration(step: Step, outcome: Name) {
    outcome == "all_succeeded" || (outcome == "any_failed" && step.onFailure in {"continue", "ignore"})
  }

  /** The step is known to run `n` times, one after the other: a count goes before a collection. */
  ghost predicate Serial(step: Step, n: int) {
    n >= 1 && (step.count == Some(n) || (step.forEach == Some(n) && forall m :: step.count == Some(m) ==> m < 1))
  }

  /** The step is known to run `n` times at once. */
  ghost predicate AtOnce(step: Step, n: int) {
    n >= 1 && step.parallel == Some(n) && forall m :: !Serial(step, m)
  }

  /** What an outcome costs: a serial iteration as many steps and visits as it has turns, a parallel one as many
      visits but one step, and anything else one of each. */
  ghost predicate Costs(step: Step, outcome: Name, steps: int, visits: int) {
    || (EndsIteration(step, outcome) && Serial(step, visits) && steps == visits)
    || (EndsIteration(step, outcome) && AtOnce(step, visits) && steps == 1)
    || ((EndsIteration(step, outcome) ==> forall n :: !Serial(step, n) && !AtOnce(step, n)) && steps == visits == 1)
  }

  /** Some declared outcome leads there at that price. */
  ghost predicate StepPrices(step: Step, e: WeightedEdge) {
    exists o :: DeclaresOutcome(step, o) && o.next == e.to && Costs(step, o.name, e.stepCost, e.visitCost)
  }

  /** A declared transition and its price; only steps cost anything. */
  ghost predicate Priced(g: Graph, u: Name, e: WeightedEdge) {
    if u in g.steps then e.to != CONTINUE && StepPrices(g.steps[u], e)
    else Transition(g, u, e.to) && e.stepCost == e.visitCost == 0
  }

  lemma CostsDeclared(step: Step, o: Outcome, steps: int, visits: int)
    ensures Costs(step, o.name, steps, visits) <==> StepOutcomeCosts(step, o) == (steps, visits)
  {
    assert StaticCount(step.count).Some? ==> Serial(step, step.count.value);
    assert StaticCount(step.count).None? && StaticCount(step.forEach).Some? ==> Serial(step, step.forEach.value);
    assert StaticCount(step.count).None? && StaticCount(step.forEach).None? ==> forall n :: !Serial(step, n);
    assert StaticCount(step.count).None? && StaticCount(step.forEach).None? && StaticCount(step.parallel).Some? ==>
             AtOnce(step, step.parallel.value);
  }

  /** The cost view lists exactly the declared transitions, each at its declared price. */
  lemma EdgesPriced(u: Name, g: Graph, e: WeightedEdge)
    ensures e in WeightedEdges(u, g) <==> Priced(g, u, e)
  {
    hide MapValues, StepOutcomes, StepOutcomeCosts, Costs;
    if u in g.steps {
      StepEdgesPriced(g.steps[u], e);
    } else if u in g.switches {
      FreeEdgesAre(g.switches[u].conditions, e);
      FreeEdgesAre([g.switches[u].defaultNext], e);
    } else if u in g.waits {
      FreeEdgesAre(MapValues(g.waits[u]), e);
    } else if u in g.approvals {
      FreeEdgesAre(MapValues(g.approvals[u]), e);
    }
  }

  lemma StepEdgesPriced(step: Step, e: WeightedEdge)
    ensures e in OutcomeEdges(step, StepOutcomes(step)) <==>
            e.to != CONTINUE && StepPrices(step, e)
  {
    hide StepOutcomes, StepOutcomeCosts, Costs, DeclaresOutcome;
    StepOutcomesDeclared(step);
    forall o: Outcome
      ensures Costs(step, o.name, e.stepCost, e.visitCost) <==> StepOutcomeCosts(step, o) == (e.stepCost, e.visitCost)
    {
      CostsDeclared(step, o, e.stepCost, e.visitCost);
    }
  }

  lemma FreeEdgesAre(targets: seq<Name>, e: WeightedEdge)
    ensures e in FreeEdges(targets) <==> e.to in targets && e.stepCost == e.visitCost == 0
  {
    if e.to in targets {
      var i :| 0 <= i < |targets| && targets[i] == e.to;
      assert FreeEdges(targets)[i] == WeightedEdge(e.to, 0, 0);
    }
  }

  // -------------------------------------------------- the two views compared

  ghost function EdgeEnds(u: Name, g: Graph): set<Name> {
    set e | e in WeightedEdges(u, g) :: e.to
  }

  ghost predicate ViewsAgreeAt(u: Name, g: Graph) {
    && EdgeEnds(u, g) - {RETURN} == (set v | v in NodeTargets(u, g))
    && (RETURN in EdgeEnds(u, g) <==> NodeHasReturnEdge(u, g))
  }

  /** A wait or approval that names `return` as an ordinary node. */
  predicate PausesIntoReturn(u: Name, g: Graph) {
    && u !in g.steps && u !in g.switches
    && if u in g.waits then RETURN in g.waits[u].Values
       else u in g.approvals && RETURN in g.approvals[u].Values
  }

  lemma OutcomeEdgeEnds(step: Step, os: seq<Outcome>, v: Name)
    ensures v in (set e | e in OutcomeEdges(step, os) :: e.to) <==> v != CONTINUE && LeadsTo(os, v)
  {
    if v != CONTINUE && LeadsTo(os, v) {
      var o :| o in os && o.next == v;
      var e := WeightedEdge(v, StepOutcomeCosts(step, o).0, StepOutcomeCosts(step, o).1);
      assert e in OutcomeEdges(step, os) && e.to == v;
    }
  }

  lemma StepViews(u: Name, g: Graph)
    requires u in g.steps && u !in g.switches
    ensures ViewsAgreeAt(u, g)
  {
    hide StepOutcomes, OutcomeEdges, LeadsTo;
    forall v
      ensures v in EdgeEnds(u, g) <==> v != CONTINUE && LeadsTo(StepOutcomes(g.steps[u]), v)
    {
      OutcomeEdgeEnds(g.steps[u], StepOutcomes(g.steps[u]), v);
    }
  }

  lemma FreeEdgeEnds(targets: seq<Name>)
    ensures (set e | e in FreeEdges(targets) :: e.to) == (set v | v in targets)
  {
    var es := FreeEdges(targets);
    forall v | v in targets
      ensures v in (set e | e in es :: e.to)
    {
      var i :| 0 <= i < |targets| && targets[i] == v;
      assert es[i] in es && es[i].to == v;
    }
  }

  lemma SwitchViews(u: Name, g: Graph)
    requires u !in g.steps && u in g.switches
    ensures ViewsAgreeAt(u, g)
  {
    var sw := g.switches[u];
    var tail := if sw.defaultNext != "" then [sw.defaultNext] else [];
    FreeEdgeEnds(sw.conditions);
    FreeEdgeEnds(tail);
    assert WeightedEdges(u, g) == FreeEdges(sw.conditions) + FreeEdges(tail);
    assert EdgeEnds(u, g) == (set e | e in FreeEdges(sw.conditions) :: e.to) + (set e | e in FreeEdges(tail) :: e.to);
  }

  lemma PauseViews(u: Name, g: Graph)
    requires u !in g.steps && u !in g.switches
    ensures ViewsAgreeAt(u, g) <==> !PausesIntoReturn(u, g)
  {
    hide FreeEdges, MapValues;
    var m := if u in g.waits then g.waits[u] else if u in g.approvals then g.approvals[u] else map[];
    var targets := NodeTargets(u, g);
    FreeEdgeEnds(targets);
    assert WeightedEdges(u, g) == FreeEdges(targets);
    assert EdgeEnds(u, g) == (set v | v in targets);
    assert forall v :: v in targets <==> v in m.Values;
  }

  /** On a node that is not both a step and a switch, the cost view and the topology
      view agree exactly when the node is not a wait or approval pointing at `return`. */
  lemma EdgeViewsAgree(u: Name, g: Graph)
    requires !(u in g.steps && u in g.switches)
    ensures ViewsAgreeAt(u, g) <==> !PausesIntoReturn(u, g)
  {
    hide ViewsAgreeAt;
    if u in g.steps {
      StepViews(u, g);
    } else if u in g.switches {
      SwitchViews(u, g);
    } else {
      PauseViews(u, g);
    }
  }

  /** How the views relate at any such node: they name the same targets other than `return`, and the cost view has a
      transition to `return` for a return edge or for a wait or approval that leads there. */
  lemma EndsAndTargets(u: Name, g: Graph)
    requires !(u in g.steps && u in g.switches)
    ensures forall v :: v != RETURN ==> (v in EdgeEnds(u, g) <==> v in NodeTargets(u, g))
    ensures RETURN in EdgeEnds(u, g) <==> NodeHasReturnEdge(u, g) || PausesIntoReturn(u, g)
    ensures RETURN in NodeTargets(u, g) <==> PausesIntoReturn(u, g)
  {
    hide WeightedEdges;
    EdgeViewsAgree(u, g);
    if ViewsAgreeAt(u, g) {
      hide NodeTargets, NodeHasReturnEdge, PausesIntoReturn, EdgeEnds;
      assert forall v :: v in NodeTargets(u, g) <==> v in EdgeEnds(u, g) - {RETURN};
    } else {
      PauseEnds(u, g);
    }
  }

  lemma PauseEnds(u: Name, g: Graph)
    requires PausesIntoReturn(u, g)
    ensures forall v :: v in EdgeEnds(u, g) <==> v in NodeTargets(u, g)
    ensures RETURN in NodeTargets(u, g) && !NodeHasReturnEdge(u, g)
  {
    hide FreeEdges, MapValues;
    FreeEdgeEnds(NodeTargets(u, g));
    assert WeightedEdges(u, g) == FreeEdges(NodeTargets(u, g));
  }

  // ------------------------------------------------------------ well-formedness

  ghost predicate NamesDisjoint(g: Graph) {
    g.steps.Keys !! g.switches.Keys !! g.waits.Keys !! g.approvals.Keys !! g.states.Keys
  }

  ghost predicate OrderListsSteps(g: Graph) {
    Distinct(g.stepOrder) && (set n | n in g.stepOrder) == g.steps.Keys
  }

  /** What resolveTransitions checks: every name used as a target is declared. */
  ghost predicate TransitionsResolve(g: Graph) {
    && g.initialState in Declared(g)
    && (g.targetState != "" ==> g.targetState in Declared(g))
    && (g.targetState in g.states ==> g.states[g.targetState].terminal)
    && forall u, v :: u in Declared(g) && v in NodeTargets(u, g) ==> v in Declared(g)
  }

  /** The state of a graph when checkReachability runs on it. No node has an empty name: that is no identifier. */
  ghost predicate Compiled(g: Graph) {
    NamesDisjoint(g) && OrderListsSteps(g) && TransitionsResolve(g) && "" !in Declared(g)
  }

  /** At top level `return` is reserved as well. */
  ghost predicate WellFormed(g: Graph) {
    Compiled(g) && RETURN !in Declared(g)
  }

  lemma WellFormedViewsAgree(u: Name, g: Graph)
    requires WellFormed(g)
    ensures ViewsAgreeAt(u, g)
  {
    EdgeViewsAgree(u, g);
  }

  /** A sub-workflow body may declare a state called `return`, because reserved names are
      only refused at top level. A wait that leads to it splits the two views. */
  lemma ReturnStateSplitsViews(g: Graph)
    requires g == Graph("pause", "done", 0, map[], [], map[], map["pause" := map["go" := RETURN]], map[],
                        map[RETURN := State(true, ""), "done" := State(true, "")])
    ensures Compiled(g)
    ensures !ViewsAgreeAt("pause", g)
    ensures RETURN in EdgeEnds("pause", g) && !NodeHasReturnEdge("pause", g)
  {
    hide MapValues, FreeEdges;
    SingletonValues("go", RETURN);
    assert NodeTargets("pause", g) == [RETURN];
    FreeEdgeEnds([RETURN]);
    assert RETURN in [RETURN];
    assert forall u :: u != "pause" ==> NodeTargets(u, g) == [];
    assert |RETURN| == 6 && |"pause"| == 5 && |"done"| == 4;
  }
}
