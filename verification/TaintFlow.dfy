/** Secret taint (workflow/compile_taint.go and markTaintedLocals in
    workflow/compile_secret_bindings.go): two sweeps repeated to a fixed point. */
module TaintFlow {
  import opened Names
  import opened Walks
  import opened FsmGraph
  import Locals

  /** `x` is a source, or reachable from one. */
  ghost predicate TaintedBy(E: set<(Name, Name)>, sources: set<Name>, x: Name) {
    exists a :: a in sources && Reach(E, a, x)
  }

  /** Everything marked so far is a source or reachable from one, and no source is missing. */
  ghost predicate Sound(E: set<(Name, Name)>, sources: set<Name>, tainted: set<Name>) {
    sources <= tainted && forall x :: x in tainted ==> TaintedBy(E, sources, x)
  }

  lemma SourcesSound(E: set<(Name, Name)>, sources: set<Name>)
    ensures Sound(E, sources, sources)
  {
    forall x | x in sources
      ensures TaintedBy(E, sources, x)
    {
      ReachRefl(E, x);
    }
  }

  lemma MarkSound(E: set<(Name, Name)>, sources: set<Name>, tainted: set<Name>, p: Name, x: Name)
    requires Sound(E, sources, tainted) && p in tainted && (p, x) in E
    ensures Sound(E, sources, tainted + {x})
  {
    var a :| a in sources && Reach(E, a, p);
    ReachExtend(E, a, p, x);
  }

  /** A sound set that no edge leaves is exactly what the sources reach. */
  lemma SoundAndClosed(E: set<(Name, Name)>, sources: set<Name>, tainted: set<Name>)
    requires Sound(E, sources, tainted) && Closed(E, tainted)
    ensures forall x :: x in tainted <==> TaintedBy(E, sources, x)
  {
    forall x | TaintedBy(E, sources, x)
      ensures x in tainted
    {
      var a :| a in sources && Reach(E, a, x);
      ClosedContainsReach(E, tainted, a, x);
    }
  }

  // --------------------------------------------------------------------- steps

  /** What a step exposes to secrets. Each expression is given by whether it refers to a tainted origin. */
  datatype Exposure = Exposure(secretInputs: seq<bool>, inputs: seq<bool>, adapterHasSecrets: bool)

  ghost predicate Seed(e: Exposure) {
    true in e.secretInputs || true in e.inputs || e.adapterHasSecrets
  }

  /** An outcome of step `a`, or its default, leads to step `b`. */
  ghost predicate StepEdge(g: Graph, a: Name, b: Name) {
    a in g.steps && b in g.steps && Onward(g, a, b)
  }

  /** The steps the order lists; a listed name that is no step is passed over. */
  ghost function Listed(g: Graph): set<Name> {
    set a | a in g.stepOrder && a in g.steps
  }

  ghost function Flow(g: Graph): (E: set<(Name, Name)>)
    ensures forall a, b :: (a, b) in E <==> a in Listed(g) && b in Listed(g) && StepEdge(g, a, b)
  {
    set a, b | a in Listed(g) && b in Listed(g) && StepEdge(g, a, b) :: (a, b)
  }

  ghost function Seeds(g: Graph, exposure: map<Name, Exposure>): set<Name>
    requires exposure.Keys == g.steps.Keys
  {
    set a | a in Listed(g) && Seed(exposure[a])
  }

  type Predecessors = map<Name, seq<Name>>

  predicate Recorded(preds: Predecessors, a: Name, b: Name) {
    b in preds && a in preds[b]
  }

  function Record(preds: Predecessors, a: Name, b: Name): (r: Predecessors)
    ensures forall x, y :: Recorded(r, x, y) <==> Recorded(preds, x, y) || (x == a && y == b)
  {
    preds[b := (if b in preds then preds[b] else []) + [a]]
  }

  /** `preds` after the first `n` steps of the order and the outcomes `done` of `a`. */
  ghost predicate Collected(g: Graph, preds: Predecessors, n: nat, a: Name, done: seq<Outcome>)
    requires n <= |g.stepOrder|
  {
    forall x, b :: Recorded(preds, x, b) <==>
                   || (x in g.stepOrder[..n] && StepEdge(g, x, b))
                   || (x == a && ToStep(g, b) && LeadsTo(done, b))
  }

  method BuildPredecessors(g: Graph) returns (preds: Predecessors)
    ensures forall a, b :: Recorded(preds, a, b) <==> a in Listed(g) && StepEdge(g, a, b)
  {
    hide StepOutcomes;
    preds := map[];
    for n := 0 to |g.stepOrder|
      invariant forall x, b :: Recorded(preds, x, b) <==> x in g.stepOrder[..n] && StepEdge(g, x, b)
    {
      var name := g.stepOrder[n];
      assert g.stepOrder[..n + 1] == g.stepOrder[..n] + [name];
      if name in g.steps {
        preds := AddOutcomes(g, preds, n, name);
        StepOutcomesDeclared(g.steps[name]);
      }
    }
    assert g.stepOrder[..|g.stepOrder|] == g.stepOrder;
  }

  predicate ToStep(g: Graph, target: Name) {
    target != CONTINUE && target != RETURN && target in g.steps
  }

  method AddOutcomes(g: Graph, before: Predecessors, ghost n: nat, name: Name) returns (preds: Predecessors)
    requires name in g.steps && n <= |g.stepOrder|
    requires Collected(g, before, n, name, [])
    ensures Collected(g, preds, n, name, StepOutcomes(g.steps[name]))
  {
    hide StepOutcomes, Collected, Recorded, Record;
    preds := before;
    var outcomes := StepOutcomes(g.steps[name]);
    assert outcomes[..0] == [];
    for k := 0 to |outcomes|
      invariant Collected(g, preds, n, name, outcomes[..k])
    {
      var target := outcomes[k].next;
      assert outcomes[..k + 1] == outcomes[..k] + [outcomes[k]];
      CollectOne(g, preds, n, name, outcomes[..k], outcomes[k]);
      if ToStep(g, target) {
        preds := Record(preds, name, target);
      }
    }
    assert outcomes[..|outcomes|] == outcomes;
  }

  lemma CollectOne(g: Graph, preds: Predecessors, n: nat, a: Name, done: seq<Outcome>, o: Outcome)
    requires a in g.steps && n <= |g.stepOrder| && Collected(g, preds, n, a, done)
    ensures Collected(g, if ToStep(g, o.next) then Record(preds, a, o.next) else preds, n, a, done + [o])
  {
    hide LeadsTo, Recorded, Record, StepOutcomes;
    LeadsToOneMore(done, o);
  }

  lemma LeadsToOneMore(done: seq<Outcome>, o: Outcome)
    ensures forall b :: LeadsTo(done + [o], b) <==> LeadsTo(done, b) || o.next == b
  {
    forall b
      ensures LeadsTo(done + [o], b) <==> LeadsTo(done, b) || o.next == b
    {
      if o.next == b {
        assert o in done + [o];
      } else if LeadsTo(done, b) {
        var p :| p in done && p.next == b;
        assert p in done + [o];
      }
    }
  }

  /** Phase 1: the steps that refer to a tainted origin themselves. */
  method MarkSeeds(g: Graph, exposure: map<Name, Exposure>, before: set<Name>) returns (tainted: set<Name>)
    requires exposure.Keys == g.steps.Keys
    ensures tainted == before + Seeds(g, exposure)
  {
    tainted := before;
    for n := 0 to |g.stepOrder|
      invariant tainted == before + set a | a in Listed(g) && a in g.stepOrder[..n] && Seed(exposure[a])
    {
      var name := g.stepOrder[n];
      assert g.stepOrder[..n + 1] == g.stepOrder[..n] + [name];
      if name in g.steps {
        var seed := Exposed(exposure[name]);
        if seed {
          tainted := tainted + {name};
        }
      }
    }
    assert g.stepOrder[..|g.stepOrder|] == g.stepOrder;
  }

  method Exposed(e: Exposure) returns (seed: bool)
    ensures seed <==> Seed(e)
  {
    seed := false;
    for i := 0 to |e.secretInputs|
      invariant !seed && true !in e.secretInputs[..i]
    {
      if e.secretInputs[i] {
        seed := true;
        break;
      }
      assert e.secretInputs[..i + 1] == e.secretInputs[..i] + [false];
    }
    assert e.secretInputs[..|e.secretInputs|] == e.secretInputs;
    ghost var direct := seed;
    for i := 0 to |e.inputs|
      invariant seed <==> direct || true in e.inputs[..i]
    {
      assert e.inputs[..i + 1] == e.inputs[..i] + [e.inputs[i]];
      if e.inputs[i] {
        seed := true;
      }
    }
    assert e.inputs[..|e.inputs|] == e.inputs;
    if e.adapterHasSecrets {
      seed := true;
    }
  }

  method AnyTainted(names: seq<Name>, tainted: set<Name>) returns (found: Option<Name>)
    ensures found.Some? ==> found.value in names && found.value in tainted
    ensures found.None? ==> forall p :: p in names ==> p !in tainted
  {
    for i := 0 to |names|
      invariant forall j :: 0 <= j < i ==> names[j] !in tainted
    {
      if names[i] in tainted {
        return Some(names[i]);
      }
    }
    return None;
  }

  /** One sweep over the order; `changed` is false only when the marks were already closed. */
  method SweepSteps(g: Graph, preds: Predecessors, ghost sources: set<Name>, before: set<Name>)
    returns (tainted: set<Name>, changed: bool)
    requires forall a, b :: Recorded(preds, a, b) <==> a in Listed(g) && StepEdge(g, a, b)
    requires Sound(Flow(g), sources, before)
    ensures Sound(Flow(g), sources, tainted) && before <= tainted
    ensures changed ==> Listed(g) - tainted < Listed(g) - before
    ensures !changed ==> tainted == before && Closed(Flow(g), tainted)
  {
    hide StepEdge, Sound;
    tainted, changed := before, false;
    for n := 0 to |g.stepOrder|
      invariant Sound(Flow(g), sources, tainted) && before <= tainted
      invariant changed ==> Listed(g) - tainted < Listed(g) - before
      invariant !changed ==> tainted == before
      invariant !changed ==> forall a, i :: 0 <= i < n && (a, g.stepOrder[i]) in Flow(g) && a in tainted ==>
                                              g.stepOrder[i] in tainted
    {
      var name := g.stepOrder[n];
      if name in g.steps && name !in tainted {
        var hit := AnyTainted(if name in preds then preds[name] else [], tainted);
        if hit.Some? {
          assert Recorded(preds, hit.value, name);
          MarkSound(Flow(g), sources, tainted, hit.value, name);
          assert name in Listed(g) - tainted;
          tainted, changed := tainted + {name}, true;
        }
      }
    }
  }

  /** After both phases a step is tainted exactly when it was already, is a seed, or is
      reachable from such a step over outcomes that lead straight from step to step. */
  method TaintPass(g: Graph, exposure: map<Name, Exposure>, before: set<Name>) returns (tainted: set<Name>)
    requires exposure.Keys == g.steps.Keys
    ensures forall x :: x in tainted <==> TaintedBy(Flow(g), before + Seeds(g, exposure), x)
  {
    hide StepEdge, Sound;
    var preds := BuildPredecessors(g);
    tainted := MarkSeeds(g, exposure, before);
    ghost var sources := tainted;
    SourcesSound(Flow(g), sources);
    var changed := true;
    while changed
      invariant Sound(Flow(g), sources, tainted)
      invariant !changed ==> Closed(Flow(g), tainted)
      decreases Listed(g) - tainted, changed
    {
      tainted, changed := SweepSteps(g, preds, sources, tainted);
    }
    SoundAndClosed(Flow(g), sources, tainted);
  }

  // -------------------------------------------------------------------- locals

  /** A local's value: whether it names a secret variable or data block itself, and its traversals. */
  datatype Value = Value(secret: bool, traversals: seq<Locals.Traversal>)

  /** The local a traversal names, if it is declared. */
  function LocalRef(locals: map<Name, Option<Value>>, t: Locals.Traversal): Option<Name> {
    if t.attr.Some? && t.root == "local" && t.attr.value in locals then t.attr else None
  }

  /** `local.a` occurs in the value of local `b`. */
  ghost predicate RefersTo(locals: map<Name, Option<Value>>, a: Name, b: Name) {
    b in locals && locals[b].Some? && Locals.Traversal("local", Some(a)) in locals[b].value.traversals
  }

  ghost function LocalFlow(locals: map<Name, Option<Value>>): (E: set<(Name, Name)>)
    ensures forall a, b :: (a, b) in E <==> a in locals && b in locals && RefersTo(locals, a, b)
  {
    set a, b | a in locals && b in locals && RefersTo(locals, a, b) :: (a, b)
  }

  /** The references taint follows are those locals are ordered by. */
  lemma SameReferences(locals: map<Name, Option<Value>>, names: seq<Name>, idx: map<Name, nat>,
                       exprs: seq<Option<seq<Locals.Traversal>>>, i: nat, j: nat)
    requires |exprs| == |names| && i < |names| && j < |names| && Distinct(names)
    requires forall k :: 0 <= k < |names| ==> names[k] in locals && names[k] in idx && idx[names[k]] == k
    requires forall x :: x in idx ==> idx[x] < |names| && names[idx[x]] == x
    requires forall k :: 0 <= k < |names| ==>
                           exprs[k] == if locals[names[k]].Some? then Some(locals[names[k]].value.traversals) else None
    ensures (names[j], names[i]) in LocalFlow(locals) <==> (i, j) in Locals.Deps(idx, exprs)
  {
    if (names[j], names[i]) in LocalFlow(locals) {
      assert Locals.Traversal("local", Some(names[j])) in exprs[i].value && idx[names[j]] == j;
    }
  }

  ghost function SecretLocals(locals: map<Name, Option<Value>>): set<Name> {
    set a | a in locals && locals[a].Some? && locals[a].value.secret
  }

  /** The value of `name` is secret or refers to a marked local. */
  ghost predicate Due(locals: map<Name, Option<Value>>, name: Name, tainted: set<Name>) {
    name in SecretLocals(locals) || exists a :: a in tainted && (a, name) in LocalFlow(locals)
  }

  lemma ReferenceAt(locals: map<Name, Option<Value>>, a: Name, b: Name) returns (j: nat)
    requires (a, b) in LocalFlow(locals)
    ensures locals[b].Some? && j < |locals[b].value.traversals|
    ensures LocalRef(locals, locals[b].value.traversals[j]) == Some(a)
  {
    j :| 0 <= j < |locals[b].value.traversals|
         && locals[b].value.traversals[j] == Locals.Traversal("local", Some(a));
  }

  method TaintLocal(locals: map<Name, Option<Value>>, name: Name, tainted: set<Name>) returns (r: bool)
    requires name in locals
    ensures r <==> Due(locals, name, tainted)
  {
    if locals[name].None? {
      return false;
    }
    var value := locals[name].value;
    if value.secret {
      return true;
    }
    for i := 0 to |value.traversals|
      invariant forall j :: 0 <= j < i && LocalRef(locals, value.traversals[j]).Some? ==>
          LocalRef(locals, value.traversals[j]).value !in tainted
    {
      var dep := LocalRef(locals, value.traversals[i]);
      assert dep.Some? ==> value.traversals[i] == Locals.Traversal("local", Some(dep.value));
      if dep.Some? && dep.value in tainted {
        assert RefersTo(locals, dep.value, name);
        return true;
      }
    }
    forall a | (a, name) in LocalFlow(locals)
      ensures a !in tainted
    {
      var j := ReferenceAt(locals, a, name);
    }
    return false;
  }

  /** One sweep, visiting the locals in whatever order the map yields them. */
  method SweepLocals(locals: map<Name, Option<Value>>, ghost sources: set<Name>, before: set<Name>)
    returns (tainted: set<Name>, changed: bool)
    requires SecretLocals(locals) <= sources && Marked(locals, sources, before)
    ensures Marked(locals, sources, tainted) && before <= tainted
    ensures changed ==> locals.Keys - tainted < locals.Keys - before
    ensures !changed ==> tainted == before && Settled(locals, tainted, locals.Keys)
  {
    hide RefersTo;
    tainted, changed := before, false;
    var rest := locals.Keys;
    while rest != {}
      invariant rest <= locals.Keys
      invariant Marked(locals, sources, tainted) && before <= tainted
      invariant changed ==> locals.Keys - tainted < locals.Keys - before
      invariant !changed ==> tainted == before && Settled(locals, tainted, locals.Keys - rest)
      decreases rest
    {
      var name :| name in rest;
      rest := rest - {name};
      if name !in tainted {
        var hit := TaintLocal(locals, name, tainted);
        if hit {
          MarkLocal(locals, sources, tainted, name);
          assert name in locals.Keys - tainted;
          tainted, changed := tainted + {name}, true;
        }
      }
    }
  }

  /** Everything marked is secret, was marked before, or refers to such a local in one or more steps. */
  ghost predicate Marked(locals: map<Name, Option<Value>>, sources: set<Name>, tainted: set<Name>) {
    forall x :: x in tainted ==> TaintedBy(LocalFlow(locals), sources, x)
  }

  ghost predicate Settled(locals: map<Name, Option<Value>>, tainted: set<Name>, visited: set<Name>) {
    forall x :: x in visited && x !in tainted ==> !Due(locals, x, tainted)
  }

  lemma MarkLocal(locals: map<Name, Option<Value>>, sources: set<Name>, tainted: set<Name>, name: Name)
    requires SecretLocals(locals) <= sources && Marked(locals, sources, tainted) && Due(locals, name, tainted)
    ensures Marked(locals, sources, tainted + {name})
  {
    if name in SecretLocals(locals) {
      ReachRefl(LocalFlow(locals), name);
    } else {
      var p :| p in tainted && (p, name) in LocalFlow(locals);
      var a :| a in sources && Reach(LocalFlow(locals), a, p);
      ReachExtend(LocalFlow(locals), a, p, name);
    }
  }

  /** Marks that no local is due to join contain every secret local and are closed. */
  lemma SettledIsClosed(locals: map<Name, Option<Value>>, tainted: set<Name>)
    requires Settled(locals, tainted, locals.Keys)
    ensures SecretLocals(locals) <= tainted && Closed(LocalFlow(locals), tainted)
  {
    forall x | x in locals && (x in SecretLocals(locals) || exists a :: a in tainted && (a, x) in LocalFlow(locals))
      ensures x in tainted
    {
      assert Due(locals, x, tainted);
    }
  }

  /** Whatever order the locals are visited in, a local ends tainted exactly when it was already, is secret, or
      refers, in one or more steps, to such a local. */
  method MarkTaintedLocals(locals: map<Name, Option<Value>>, before: set<Name>) returns (tainted: set<Name>)
    ensures forall x :: x in tainted <==> TaintedBy(LocalFlow(locals), before + SecretLocals(locals), x)
  {
    hide RefersTo;
    tainted := before;
    ghost var sources := before + SecretLocals(locals);
    SourcesSound(LocalFlow(locals), sources);
    var changed := true;
    while changed
      invariant Marked(locals, sources, tainted) && before <= tainted
      invariant !changed ==> Settled(locals, tainted, locals.Keys)
      decreases locals.Keys - tainted, changed
    {
      tainted, changed := SweepLocals(locals, sources, tainted);
    }
    SettledIsClosed(locals, tainted);
    SoundAndClosed(LocalFlow(locals), sources, tainted);
  }
}
