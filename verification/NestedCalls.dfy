/** Which tool call clears which registration (internal/adapterhost/tool_call.go): each nested call registers its
    request id when it starts and clears that id when it settles, on its own goroutine. */
module NestedCalls {
  import opened Names
  import P = PauseProtocol

  /** One nested tool call. */
  type Caller = nat

  /** `calls` holds the request id of every call that was started and `done` those that have settled. `registrant` and
      `clearedBy` are history: the call that made each registration, and the call that cleared it. */
  datatype State = State(
    registry: P.State,
    calls: map<Caller, Name>,
    done: set<Caller>,
    registrant: map<nat, Caller>,
    clearedBy: map<nat, Caller>)

  /** A new call registering, a call settling, or any step of the registry that no call takes. */
  datatype Action =
    | Start(caller: Caller, id: Name, target: Name)
    | Settle(caller: Caller)
    | Other(step: P.Action)

  ghost predicate Running(s: State, c: Caller) {
    c in s.calls && c !in s.done
  }

  ghost predicate Enabled(s: State, a: Action) {
    match a
    case Start(c, _, _) => c !in s.calls
    case Settle(c) => Running(s, c)
    case Other(step) => !step.Register? && !step.Clear? && P.Enabled(s.registry, step)
  }

  /** The step of the registry an action takes. */
  ghost function Step(s: State, a: Action): P.Action
    requires Enabled(s, a)
  {
    match a
    case Start(_, id, target) => P.Register(id, target, true)
    case Settle(c) => P.Clear(s.calls[c])
    case Other(step) => step
  }

  /** A refused call never starts; one with a pending id starts without a registration of its own. */
  ghost function Apply(s: State, a: Action): State
    requires Enabled(s, a)
  {
    var t := s.(registry := P.Apply(s.registry, Step(s, a)));
    match a
    case Start(c, id, target) =>
      if id in s.registry.pending then t.(calls := s.calls[c := id])
      else if s.registry.gate then t
      else t.(calls := s.calls[c := id], registrant := s.registrant[|s.registry.issued| := c])
    case Settle(c) =>
      var id := s.calls[c];
      if id !in s.registry.pending then t.(done := s.done + {c})
      else t.(done := s.done + {c}, clearedBy := s.clearedBy[s.registry.pending[id].serial := c])
    case Other(_) => t
  }

  const INITIAL := State(P.Init, map[], {}, map[], map[])

  ghost predicate Run(s: State, actions: seq<Action>, t: State)
    decreases |actions|
  {
    if actions == [] then s == t
    else Enabled(s, actions[0]) && Run(Apply(s, actions[0]), actions[1..], t)
  }

  // ------------------------------------------------------------------------ the invariant

  /** Every registration has a registrant, which is in progress while the registration is pending; and every
      registration cleared was cleared by some call. */
  ghost predicate Inv(s: State) {
    && P.Inv(s.registry) && s.done <= s.calls.Keys
    && (forall n: nat :: n < |s.registry.issued| <==> n in s.registrant)
    && (forall id :: id in s.registry.pending ==> Belongs(s, id))
    && s.clearedBy.Keys == s.registry.cleared
  }

  ghost predicate Belongs(s: State, id: Name)
    requires id in s.registry.pending
  {
    var n := s.registry.pending[id].serial;
    n in s.registrant && Running(s, s.registrant[n]) && s.calls[s.registrant[n]] == id
  }

  lemma PendingNotCleared(s: State, id: Name)
    requires Inv(s) && id in s.registry.pending
    ensures s.registry.pending[id].serial !in s.clearedBy
  {
    var r := s.registry;
    assert r.pending[id] in P.Calls(r) && r.pending[id].serial in P.Serials(P.Calls(r));
  }

  lemma InitialInv()
    ensures Inv(INITIAL)
  {
    P.InitInv();
  }

  lemma RegisterIs(r: P.State, id: Name, target: Name)
    ensures var t := P.Apply(r, P.Register(id, target, true)); var call := P.Call(|r.issued|, id, target, true);
            && t.cleared == r.cleared
            && (id in r.pending || r.gate ==> t == r)
            && (id !in r.pending && !r.gate ==> t.issued == r.issued + [call] && t.pending == r.pending[id := call])
  {
  }

  lemma ClearIs(r: P.State, id: Name)
    ensures var t := P.Apply(r, P.Clear(id));
            && t.issued == r.issued
            && (id !in r.pending ==> t == r)
            && (id in r.pending ==> t.pending == r.pending - {id} && t.cleared == r.cleared + {r.pending[id].serial})
  {
  }

  lemma StepKeepsInv(s: State, a: Action)
    requires Inv(s) && Enabled(s, a)
    ensures Inv(Apply(s, a))
  {
    hide P.Inv, P.Apply, Apply;
    RegistryKeeps(s, a);
    match a
    case Start(c, id, target) => StartKeeps(s, c, id, target);
    case Settle(c) => SettleKeeps(s, c);
    case Other(step) => OtherStepKeeps(s, step);
  }

  lemma RegistryKeeps(s: State, a: Action)
    requires P.Inv(s.registry) && Enabled(s, a)
    ensures P.Inv(Apply(s, a).registry)
  {
    hide P.Inv, P.Apply;
    P.StepKeepsInv(s.registry, Step(s, a));
  }

  lemma StartKeeps(s: State, c: Caller, id: Name, target: Name)
    requires Inv(s) && c !in s.calls && P.Inv(Apply(s, Start(c, id, target)).registry)
    ensures Inv(Apply(s, Start(c, id, target)))
  {
    hide P.Inv, P.Apply;
    RegisterIs(s.registry, id, target);
    var t := Apply(s, Start(c, id, target));
    assert |s.registry.issued| !in s.registrant;
    forall x | x in t.registry.pending
      ensures Belongs(t, x)
    {
      if x in s.registry.pending {
        assert Belongs(s, x);
      }
    }
  }

  lemma SettleKeeps(s: State, c: Caller)
    requires Inv(s) && Running(s, c) && P.Inv(Apply(s, Settle(c)).registry)
    ensures Inv(Apply(s, Settle(c)))
  {
    hide P.Inv, P.Apply;
    ClearIs(s.registry, s.calls[c]);
    var t := Apply(s, Settle(c));
    forall x | x in t.registry.pending
      ensures Belongs(t, x)
    {
      assert Belongs(s, x) && x != s.calls[c];
    }
  }

  lemma OtherStepKeeps(s: State, step: P.Action)
    requires Inv(s) && Enabled(s, Other(step)) && P.Inv(Apply(s, Other(step)).registry)
    ensures Inv(Apply(s, Other(step)))
  {
    hide P.Inv, P.Apply;
    OtherKeeps(s.registry, step);
    var t := Apply(s, Other(step));
    forall x | x in t.registry.pending
      ensures Belongs(t, x)
    {
      assert Belongs(s, x);
    }
  }

  lemma OtherKeeps(r: P.State, step: P.Action)
    requires P.Enabled(r, step) && !step.Register? && !step.Clear?
    ensures P.Apply(r, step).issued == r.issued && P.Apply(r, step).cleared == r.cleared
    ensures forall id :: id in P.Apply(r, step).pending ==>
                           id in r.pending && P.Apply(r, step).pending[id] == r.pending[id]
  {
  }

  lemma {:induction false} RunKeepsInv(s: State, actions: seq<Action>, t: State)
    requires Inv(s) && Run(s, actions, t)
    ensures Inv(t)
    decreases |actions|
  {
    hide Inv, Enabled, Apply;
    if actions != [] {
      StepKeepsInv(s, actions[0]);
      RunKeepsInv(Apply(s, actions[0]), actions[1..], t);
    }
  }

  /** Every run of calls is a run of the registry, so all that holds of those holds here. */
  lemma {:induction false} RegistryRuns(s: State, actions: seq<Action>, t: State) returns (steps: seq<P.Action>)
    requires Run(s, actions, t)
    ensures P.Run(s.registry, steps, t.registry)
    decreases |actions|
  {
    if actions == [] {
      steps := [];
    } else {
      var rest := RegistryRuns(Apply(s, actions[0]), actions[1..], t);
      steps := [Step(s, actions[0])] + rest;
      assert steps[1..] == rest && P.Enabled(s.registry, steps[0]);
    }
  }

  // ------------------------------------------------------------------ who clears what

  /** Every registration cleared so far was cleared by the call that made it. */
  ghost predicate OwnClears(s: State) {
    forall n :: n in s.clearedBy ==> n in s.registrant && s.clearedBy[n] == s.registrant[n]
  }

  ghost predicate Has(registrant: map<nat, Caller>, n: nat, c: Caller) {
    n in registrant && registrant[n] == c
  }

  /** A call that settles finds its own registration under its id, or none. */
  ghost predicate FindsOwn(s: State, a: Action)
    requires Enabled(s, a)
  {
    a.Settle? && s.calls[a.caller] in s.registry.pending ==>
      Has(s.registrant, s.registry.pending[s.calls[a.caller]].serial, a.caller)
  }

  ghost predicate AllFindOwn(s: State, actions: seq<Action>)
    decreases |actions|
  {
    actions == [] || (Enabled(s, actions[0]) && FindsOwn(s, actions[0])
                      && AllFindOwn(Apply(s, actions[0]), actions[1..]))
  }

  lemma StepOwn(s: State, a: Action)
    requires Inv(s) && Enabled(s, a)
    ensures OwnClears(Apply(s, a)) <==> OwnClears(s) && FindsOwn(s, a)
  {
    hide P.Inv, P.Apply;
    var t := Apply(s, a);
    if a.Settle? && s.calls[a.caller] in s.registry.pending {
      var n := s.registry.pending[s.calls[a.caller]].serial;
      PendingNotCleared(s, s.calls[a.caller]);
      assert Belongs(s, s.calls[a.caller]);
      assert t.clearedBy[n] == a.caller;
      forall m | m in s.clearedBy
        ensures m in t.clearedBy && t.clearedBy[m] == s.clearedBy[m]
      {
      }
    } else if a.Start? {
      assert forall n :: n in s.clearedBy ==> n in s.registrant && n < |s.registry.issued| by {
        ClearedIssued(s);
      }
    }
  }

  lemma ClearedIssued(s: State)
    requires Inv(s)
    ensures forall n :: n in s.clearedBy ==> n < |s.registry.issued| && n in s.registrant
  {
    forall n | n in s.clearedBy
      ensures n < |s.registry.issued|
    {
      var r := s.registry;
      assert n in r.cleared + r.abandoned + r.discarded + P.Serials(P.Calls(r));
    }
  }

  /** Over all runs, registrations are cleared by their own calls only, exactly when every call that settles finds its
      own registration or none. */
  lemma OwnCallsIff(actions: seq<Action>, t: State)
    requires Run(INITIAL, actions, t)
    ensures OwnClears(t) <==> AllFindOwn(INITIAL, actions)
  {
    InitialInv();
    OwnCallsFrom(INITIAL, actions, t);
  }

  lemma {:induction false} OwnCallsFrom(s: State, actions: seq<Action>, t: State)
    requires Inv(s) && Run(s, actions, t)
    ensures OwnClears(t) <==> OwnClears(s) && AllFindOwn(s, actions)
    decreases |actions|
  {
    hide Inv, OwnClears, Apply, Enabled, FindsOwn;
    if actions != [] {
      StepKeepsInv(s, actions[0]);
      StepOwn(s, actions[0]);
      OwnCallsFrom(Apply(s, actions[0]), actions[1..], t);
    }
  }

  // ------------------------------------------------------------- distinct ids in flight

  /** `d` is in progress under the id of `c`, which is pending. */
  ghost predicate SharesId(s: State, c: Caller, d: Caller)
    requires Running(s, c)
  {
    Running(s, d) && s.calls[c] == s.calls[d] && s.calls[c] in s.registry.pending
  }

  /** Whichever call settles next finds its own registration, exactly when no two calls in progress share an id that
      is pending. */
  lemma SettlesOwnIff(actions: seq<Action>, s: State)
    requires Run(INITIAL, actions, s)
    ensures (forall c :: Running(s, c) ==> FindsOwn(s, Settle(c))) <==>
            forall c, d :: Running(s, c) && SharesId(s, c, d) ==> c == d
  {
    InitialInv();
    RunKeepsInv(INITIAL, actions, s);
    hide P.Inv, Run;
    if forall c :: Running(s, c) ==> FindsOwn(s, Settle(c)) {
      forall c, d | Running(s, c) && SharesId(s, c, d)
        ensures c == d
      {
        assert FindsOwn(s, Settle(c)) && FindsOwn(s, Settle(d));
      }
    } else {
      var c :| Running(s, c) && !FindsOwn(s, Settle(c));
      var id := s.calls[c];
      assert Belongs(s, id);
      assert SharesId(s, c, s.registrant[s.registry.pending[id].serial]);
    }
  }

  /** The correlation contract: no call starts under the id of a call in progress. */
  ghost predicate FreshStart(s: State, a: Action) {
    a.Start? ==> forall c :: Running(s, c) ==> s.calls[c] != a.id
  }

  ghost predicate Correlated(s: State, actions: seq<Action>)
    decreases |actions|
  {
    actions == [] || (Enabled(s, actions[0]) && FreshStart(s, actions[0])
                      && Correlated(Apply(s, actions[0]), actions[1..]))
  }

  ghost predicate Drops(a: Action) {
    a.Other? && (a.step.CloseSession? || a.step.Restore?)
  }

  /** No step drops registrations other than by settling. */
  ghost predicate NoneDropped(actions: seq<Action>) {
    forall i :: 0 <= i < |actions| ==> !Drops(actions[i])
  }

  /** Calls in progress have different ids. */
  ghost predicate Orderly(s: State) {
    forall c, d :: Running(s, c) && Running(s, d) && s.calls[c] == s.calls[d] ==> c == d
  }

  /** Every call in progress has its registration pending. */
  ghost predicate AllRegistered(s: State) {
    forall c :: Running(s, c) ==> s.calls[c] in s.registry.pending
  }

  lemma StepOrderly(s: State, a: Action)
    requires Inv(s) && Enabled(s, a) && Orderly(s) && FreshStart(s, a)
    ensures Orderly(Apply(s, a)) && FindsOwn(s, a)
    ensures AllRegistered(s) && !Drops(a) ==> AllRegistered(Apply(s, a))
  {
    hide P.Inv, P.Apply;
    var t := Apply(s, a);
    match a
    case Start(c, id, target) =>
      RegisterIs(s.registry, id, target);
      assert forall d :: Running(t, d) ==> Running(s, d) || d == c;
    case Settle(c) =>
      ClearIs(s.registry, s.calls[c]);
      assert s.calls[c] in s.registry.pending ==> Belongs(s, s.calls[c]);
      assert forall d :: Running(t, d) ==> Running(s, d) && d != c;
    case Other(step) =>
      if !Drops(a) {
        OtherPending(s.registry, step);
      }
      assert forall d :: Running(t, d) ==> Running(s, d);
  }

  lemma OtherPending(r: P.State, step: P.Action)
    requires P.Enabled(r, step) && !step.Register? && !step.Clear? && !step.CloseSession? && !step.Restore?
    ensures P.Apply(r, step).pending == r.pending
  {
  }

  lemma {:induction false} CorrelatedFrom(s: State, actions: seq<Action>, t: State)
    requires Inv(s) && Orderly(s) && Run(s, actions, t) && Correlated(s, actions)
    ensures AllFindOwn(s, actions)
    ensures AllRegistered(s) && NoneDropped(actions) ==> AllRegistered(t)
    decreases |actions|
  {
    hide Inv, Orderly, Apply, Enabled, FindsOwn, FreshStart, AllRegistered, Drops;
    if actions != [] {
      StepKeepsInv(s, actions[0]);
      StepOrderly(s, actions[0]);
      CorrelatedFrom(Apply(s, actions[0]), actions[1..], t);
      if NoneDropped(actions) {
        assert forall i :: 0 <= i < |actions| - 1 ==> actions[1..][i] == actions[i + 1];
      }
    }
  }

  /** When no call starts under the id of a call in progress, each registration is cleared by its own call; unless the
      session closes or is restored, every call in progress is pending. */
  lemma RegistryMirrorsCalls(actions: seq<Action>, t: State)
    requires Run(INITIAL, actions, t) && Correlated(INITIAL, actions)
    ensures OwnClears(t)
    ensures NoneDropped(actions) ==> forall c :: Running(t, c) ==> t.calls[c] in t.registry.pending
  {
    InitialInv();
    hide Inv, Apply, Enabled;
    CorrelatedFrom(INITIAL, actions, t);
    OwnCallsIff(actions, t);
  }

  /** Over all runs, what is pending belongs to a call in progress under that id. */
  lemma PendingInProgress(actions: seq<Action>, t: State, id: Name) returns (c: Caller)
    requires Run(INITIAL, actions, t) && id in t.registry.pending
    ensures Running(t, c) && t.calls[c] == id && Has(t.registrant, t.registry.pending[id].serial, c)
  {
    InitialInv();
    RunKeepsInv(INITIAL, actions, t);
    assert Belongs(t, id);
    c := t.registrant[t.registry.pending[id].serial];
  }

  /** A second call under an id in flight is accepted and has no registration of its own. If it settles first, the first
      call's registration goes and its marker is closed, while that call is still in progress: a pause no longer waits
      for it. */
  lemma ReusedIdClearsAnother(id: Name, target: Name)
    ensures exists t :: Run(INITIAL, [Start(0, id, target), Start(1, id, target), Settle(1)], t)
                        && Running(t, 0) && t.registry.pending == map[] && t.registry.closed == [0]
                        && t.registrant == map[0 := 0] && t.clearedBy == map[0 := 1]
  {
    var s1 := Apply(INITIAL, Start(0, id, target));
    var s2 := Apply(s1, Start(1, id, target));
    var t := Apply(s2, Settle(1));
    var actions := [Start(0, id, target), Start(1, id, target), Settle(1)];
    assert actions[1..] == [Start(1, id, target), Settle(1)] && actions[1..][1..] == [Settle(1)];
    assert Run(t, [], t);
    assert Run(s2, [Settle(1)], t);
    assert Run(s1, actions[1..], t);
    assert Run(INITIAL, actions, t);
  }
}
