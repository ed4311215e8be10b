/** The pending tool-call registry and the pause drain of internal/adapterhost/permission_state.go,
    as a state machine. Each action is one critical section (or one cancel call); actions of any number of
    goroutines interleave freely, and the bounded waits of the drain are arbitrary delays between actions. */
module PauseProtocol {
  import opened Names
  import opened Walks

  /** One registration. `serial` stands for the identity of the heap entry; only calls registered with a
      cancel function also carry a settled marker. */
  datatype Call = Call(serial: nat, requestId: Name, target: Name, cancelable: bool)

  /** Where a drain stands, and which calls it has in hand. */
  datatype Phase =
    | Waiting
    | Canceling(todo: seq<Call>, stragglers: set<Call>)
    | Settling(stragglers: set<Call>)
    | Returned(result: set<Call>)

  /** `entry` and `held` are history: what was pending when the drain began, and whether the pause gate
      has been set ever since. */
  datatype Drain = Drain(phase: Phase, entry: set<Call>, held: bool)

  /** `issued`, `cleared`, `abandoned`, `discarded` and `closed` are history: every registration ever made,
      what became of it, and the settled markers closed so far. */
  datatype State = State(
    gate: bool,
    pending: map<Name, Call>,
    drains: map<nat, Drain>,
    canceled: set<nat>,
    issued: seq<Call>,
    cleared: set<nat>,
    abandoned: set<nat>,
    discarded: set<nat>,
    closed: seq<nat>)

  datatype Action =
    | Register(requestId: Name, target: Name, cancelable: bool)
    | Clear(requestId: Name)
    | CloseSession
    | Restore
    | SetGate
    | LiftGate
    | BeginDrain(thread: nat)
    | Snapshot(thread: nat, order: seq<Call>)
    | CancelNext(thread: nat)
    | EndDrain(thread: nat)

  const Init := State(false, map[], map[], {}, [], {}, {}, {}, [])

  // -------------------------------------------------------------------- actions

  function Calls(s: State): set<Call> {
    set k | k in s.pending :: s.pending[k]
  }

  function Serials(calls: set<Call>): set<nat> {
    set c | c in calls :: c.serial
  }

  /** registerPendingToolCall: a duplicate id is accepted and ignored, a new one is refused at a set gate. */
  function ApplyRegister(s: State, id: Name, target: Name, cancelable: bool): (r: (State, bool)) {
    if id in s.pending then (s, true)
    else if s.gate then (s, false)
    else
      var call := Call(|s.issued|, id, target, cancelable);
      (s.(pending := s.pending[id := call], issued := s.issued + [call]), true)
  }

  /** clearPendingToolCall: the entry goes, and its settled marker, if any and still open, is closed. */
  function ApplyClear(s: State, id: Name): State {
    if id !in s.pending then s
    else
      var call := s.pending[id];
      s.(pending := s.pending - {id}, cleared := s.cleared + {call.serial},
         closed := if call.cancelable && call.serial !in s.closed then s.closed + [call.serial] else s.closed)
  }

  function Unheld(drains: map<nat, Drain>): map<nat, Drain> {
    map t | t in drains :: drains[t].(held := false)
  }

  predicate Lists(order: seq<Call>, calls: set<Call>) {
    |order| == |calls| && (set c | c in order) == calls
  }

  predicate Enabled(s: State, a: Action) {
    match a
    case BeginDrain(t) => t !in s.drains
    case Snapshot(t, order) => t in s.drains && s.drains[t].phase.Waiting? && Lists(order, Calls(s))
    case CancelNext(t) => t in s.drains && s.drains[t].phase.Canceling?
    case EndDrain(t) => t in s.drains && s.drains[t].phase.Settling?
    case _ => true
  }

  function Apply(s: State, a: Action): State
    requires Enabled(s, a)
  {
    match a
    case Register(id, target, cancelable) => ApplyRegister(s, id, target, cancelable).0
    case Clear(id) => ApplyClear(s, id)
    // Stop: every call still pending is taken and audited as abandoned
    case CloseSession => s.(pending := map[], abandoned := s.abandoned + Serials(Calls(s)))
    case Restore => s.(pending := map[], discarded := s.discarded + Serials(Calls(s)))
    case SetGate => s.(gate := true)
    case LiftGate => s.(gate := false, drains := Unheld(s.drains))
    // awaitToolCallDrain: the snapshot at entry ...
    case BeginDrain(t) => s.(drains := s.drains[t := Drain(Waiting, Calls(s), s.gate)])
    // ... the snapshot after the wait, in map order ...
    case Snapshot(t, order) => s.(drains := s.drains[t := s.drains[t].(phase := Canceling(order, {}))])
    // ... each straggler canceled in turn, none meaning an early return ...
    case CancelNext(t) =>
      var p := s.drains[t].phase;
      if p.todo == [] then
        var next := if p.stragglers == {} then Returned({}) else Settling(p.stragglers);
        s.(drains := s.drains[t := s.drains[t].(phase := next)])
      else
        var call := p.todo[0];
        s.(canceled := if call.cancelable then s.canceled + {call.serial} else s.canceled,
           drains := s.drains[t := s.drains[t].(phase := Canceling(p.todo[1..], p.stragglers + {call}))])
    // ... and the snapshot after the settle grace, which is the result
    case EndDrain(t) => s.(drains := s.drains[t := s.drains[t].(phase := Returned(Calls(s)))])
  }

  ghost predicate Run(s: State, actions: seq<Action>, t: State)
    decreases |actions|
  {
    if actions == [] then s == t
    else Enabled(s, actions[0]) && Run(Apply(s, actions[0]), actions[1..], t)
  }

  // ------------------------------------------------------------------ the invariant

  /** Registrations are filed under their own id, with the serial they were issued under. */
  ghost predicate Filed(s: State) {
    && (forall k :: k in s.pending ==>
                      && s.pending[k].requestId == k && s.pending[k].serial < |s.issued|
                      && s.issued[s.pending[k].serial] == s.pending[k])
    && (forall i :: 0 <= i < |s.issued| ==> s.issued[i].serial == i)
  }

  /** Every registration has exactly one fate so far: settled, abandoned at close, discarded by a restore,
      or still pending. */
  ghost predicate OneFate(s: State) {
    Partition(|s.issued|, s.cleared, s.abandoned, s.discarded, Serials(Calls(s)))
  }

  /** The numbers below n, split four ways. */
  ghost predicate Partition(n: nat, a: set<nat>, b: set<nat>, c: set<nat>, d: set<nat>) {
    && a !! b !! c !! d
    && forall x: nat :: x < n <==> x in a + b + c + d
  }

  /** Moving some of the last part to another part keeps the split. */
  lemma MovePart(n: nat, a: set<nat>, b: set<nat>, c: set<nat>, d: set<nat>, m: set<nat>)
    requires Partition(n, a, b, c, d) && m <= d
    ensures Partition(n, a + m, b, c, d - m) && Partition(n, a, b + m, c, d - m) && Partition(n, a, b, c + m, d - m)
  {
    forall x: nat
      ensures x < n <==> x in a + b + c + d
    {
    }
    assert a + m + b + c + (d - m) == a + b + c + d;
    assert a + (b + m) + c + (d - m) == a + b + c + d;
    assert a + b + (c + m) + (d - m) == a + b + c + d;
  }

  /** Settled markers are closed once, for calls that settled and have one. */
  ghost predicate ClosedOnce(s: State) {
    && Distinct(s.closed)
    && forall n: nat :: n in s.closed <==> n in s.cleared && n < |s.issued| && s.issued[n].cancelable
  }

  /** While the gate has been held, a drain only ever deals with calls that were pending when it began,
      and those it has passed have been canceled. */
  ghost predicate DrainOk(s: State, d: Drain) {
    d.held ==>
      match d.phase
      case Waiting => s.gate && Calls(s) <= d.entry
      case Canceling(todo, stragglers) =>
        && s.gate && (forall c :: c in todo ==> c in d.entry) && stragglers <= d.entry
        && (forall c :: c in Calls(s) ==> c in todo || c in stragglers)
        && AllCanceled(s, stragglers)
      case Settling(stragglers) =>
        s.gate && Calls(s) <= stragglers <= d.entry && AllCanceled(s, stragglers)
      case Returned(result) => result <= d.entry && AllCanceled(s, result)
  }

  ghost predicate AllCanceled(s: State, calls: set<Call>) {
    forall c :: c in calls && c.cancelable ==> c.serial in s.canceled
  }

  ghost predicate Inv(s: State) {
    Filed(s) && OneFate(s) && ClosedOnce(s) && forall t :: t in s.drains ==> DrainOk(s, s.drains[t])
  }

  // ------------------------------------------------------------ every action keeps it

  lemma SerialsDistinct(s: State, a: Name, b: Name)
    requires Filed(s) && a in s.pending && b in s.pending && s.pending[a].serial == s.pending[b].serial
    ensures a == b
  {
  }

  lemma CallsAfterRegister(s: State, id: Name, call: Call)
    requires id !in s.pending
    ensures Calls(s.(pending := s.pending[id := call])) == Calls(s) + {call}
  {
    var t := s.(pending := s.pending[id := call]);
    forall c | c in Calls(s) + {call}
      ensures c in Calls(t)
    {
      if c == call {
        assert t.pending[id] == c;
      } else {
        var k :| k in s.pending && s.pending[k] == c;
        assert t.pending[k] == c;
      }
    }
  }

  lemma CallsAfterClear(s: State, id: Name)
    requires Filed(s) && id in s.pending
    ensures Calls(s.(pending := s.pending - {id})) == Calls(s) - {s.pending[id]}
    ensures Serials(Calls(s) - {s.pending[id]}) == Serials(Calls(s)) - {s.pending[id].serial}
    ensures s.pending[id].serial in Serials(Calls(s))
  {
    var t := s.(pending := s.pending - {id});
    var call := s.pending[id];
    forall c | c in Calls(s) - {call}
      ensures c in Calls(t)
    {
      var k :| k in s.pending && s.pending[k] == c;
      assert k in t.pending;
    }
    forall c | c in Calls(s) && c != call
      ensures c.serial != call.serial
    {
      var k :| k in s.pending && s.pending[k] == c;
    }
    assert call in Calls(s);
  }

  lemma RegisterKeeps(s: State, id: Name, target: Name, cancelable: bool)
    requires Inv(s)
    ensures Inv(ApplyRegister(s, id, target, cancelable).0)
  {
    hide DrainOk;
    var t := ApplyRegister(s, id, target, cancelable).0;
    if id !in s.pending && !s.gate {
      var call := Call(|s.issued|, id, target, cancelable);
      CallsAfterRegister(s, id, call);
      assert Calls(t) == Calls(s) + {call};
      assert Serials(Calls(t)) == Serials(Calls(s)) + {call.serial};
      RegisterFate(s, t, call);
      OpenGateDrains(s, t);
    }
  }

  lemma RegisterFate(s: State, t: State, call: Call)
    requires OneFate(s) && call.serial == |s.issued| && t.issued == s.issued + [call]
    requires Serials(Calls(t)) == Serials(Calls(s)) + {call.serial}
    requires t.cleared == s.cleared && t.abandoned == s.abandoned && t.discarded == s.discarded
    ensures OneFate(t)
  {
    hide Calls, Serials;
    var all := s.cleared + s.abandoned + s.discarded + Serials(Calls(s));
    assert call.serial !in all;
    assert t.cleared + t.abandoned + t.discarded + Serials(Calls(t)) == all + {call.serial};
  }

  /** A drain that has been held needs the gate; with the gate open only finished drains count as held. */
  lemma OpenGateDrains(s: State, t: State)
    requires !s.gate && !t.gate && t.drains == s.drains && t.canceled == s.canceled
    requires forall d :: d in s.drains ==> DrainOk(s, s.drains[d])
    ensures forall d :: d in t.drains ==> DrainOk(t, t.drains[d])
  {
  }

  /** Taking calls out of the registry never upsets a drain. */
  lemma FewerCallsDrains(s: State, t: State)
    requires t.gate == s.gate && t.drains == s.drains && t.canceled == s.canceled && Calls(t) <= Calls(s)
    requires forall d :: d in s.drains ==> DrainOk(s, s.drains[d])
    ensures forall d :: d in t.drains ==> DrainOk(t, t.drains[d])
  {
    hide Calls;
    forall d | d in t.drains
      ensures DrainOk(t, t.drains[d])
    {
      assert DrainOk(s, s.drains[d]);
    }
  }

  lemma ClearKeeps(s: State, id: Name)
    requires Inv(s)
    ensures Inv(ApplyClear(s, id))
  {
    hide DrainOk;
    var t := ApplyClear(s, id);
    if id in s.pending {
      CallsAfterClear(s, id);
      var call := s.pending[id];
      assert Calls(t) == Calls(s) - {call};
      ClearFate(s, t, call);
      assert call.serial !in s.closed;
      FewerCallsDrains(s, t);
    }
  }

  lemma ClearFate(s: State, t: State, call: Call)
    requires OneFate(s) && call.serial in Serials(Calls(s)) && t.issued == s.issued
    requires Serials(Calls(t)) == Serials(Calls(s)) - {call.serial}
    requires t.cleared == s.cleared + {call.serial} && t.abandoned == s.abandoned && t.discarded == s.discarded
    ensures OneFate(t)
    ensures call.serial !in s.cleared
  {
    MovePart(|s.issued|, s.cleared, s.abandoned, s.discarded, Serials(Calls(s)), {call.serial});
  }

  lemma NoCalls(t: State)
    requires t.pending == map[]
    ensures Calls(t) == {} && Serials(Calls(t)) == {}
  {
  }

  lemma CloseKeeps(s: State)
    requires Inv(s)
    ensures Inv(Apply(s, CloseSession)) && Inv(Apply(s, Restore))
  {
    hide DrainOk;
    var t, u := Apply(s, CloseSession), Apply(s, Restore);
    NoCalls(t);
    NoCalls(u);
    FewerCallsDrains(s, t);
    FewerCallsDrains(s, u);
    var all := Serials(Calls(s));
    MovePart(|s.issued|, s.cleared, s.abandoned, s.discarded, all, all);
    assert all - all == {};
  }

  lemma GateKeeps(s: State)
    requires Inv(s)
    ensures Inv(Apply(s, SetGate)) && Inv(Apply(s, LiftGate))
  {
    var t, u := Apply(s, SetGate), Apply(s, LiftGate);
    assert Calls(t) == Calls(s) && Calls(u) == Calls(s);
    SetGateDrains(s, t);
    LiftGateDrains(s, u);
  }

  lemma SetGateDrains(s: State, t: State)
    requires t.gate && t.drains == s.drains && t.canceled == s.canceled && Calls(t) == Calls(s)
    requires forall d :: d in s.drains ==> DrainOk(s, s.drains[d])
    ensures forall d :: d in t.drains ==> DrainOk(t, t.drains[d])
  {
    hide Calls;
    forall d | d in t.drains
      ensures DrainOk(t, t.drains[d])
    {
      assert DrainOk(s, s.drains[d]);
    }
  }

  lemma LiftGateDrains(s: State, t: State)
    requires t.drains == Unheld(s.drains) && t.canceled == s.canceled && Calls(t) == Calls(s)
    requires forall d :: d in s.drains ==> DrainOk(s, s.drains[d])
    ensures forall d :: d in t.drains ==> DrainOk(t, t.drains[d])
  {
    hide Calls;
    forall d | d in t.drains
      ensures DrainOk(t, t.drains[d])
    {
      assert DrainOk(s, s.drains[d]);
    }
  }

  /** The other drains do not notice one drain moving on or a call being canceled. */
  lemma OtherDrains(s: State, t: State, thread: nat)
    requires t.gate == s.gate && Calls(t) == Calls(s) && s.canceled <= t.canceled
    requires forall d :: d in t.drains && d != thread ==> d in s.drains && t.drains[d] == s.drains[d]
    requires forall d :: d in s.drains ==> DrainOk(s, s.drains[d])
    requires thread in t.drains ==> DrainOk(t, t.drains[thread])
    ensures forall d :: d in t.drains ==> DrainOk(t, t.drains[d])
  {
    hide Calls;
    forall d | d in t.drains
      ensures DrainOk(t, t.drains[d])
    {
      if d != thread {
        assert DrainOk(s, s.drains[d]);
      }
    }
  }

  lemma DrainStepKeeps(s: State, a: Action)
    requires Inv(s) && Enabled(s, a)
    requires a.BeginDrain? || a.Snapshot? || a.CancelNext? || a.EndDrain?
    ensures Inv(Apply(s, a))
  {
    hide Calls, Serials, DrainOk, Partition;
    var t := Apply(s, a);
    SamePending(s, t);
    DrainMoves(s, a);
    OtherDrains(s, t, a.thread);
  }

  lemma SamePending(s: State, t: State)
    requires s.pending == t.pending
    ensures Calls(s) == Calls(t)
  {
  }

  /** The drain that moves keeps its own promise. */
  lemma DrainMoves(s: State, a: Action)
    requires Enabled(s, a) && forall d :: d in s.drains ==> DrainOk(s, s.drains[d])
    requires a.BeginDrain? || a.Snapshot? || a.CancelNext? || a.EndDrain?
    ensures DrainOk(Apply(s, a), Apply(s, a).drains[a.thread])
  {
    var t := Apply(s, a);
    assert Calls(t) == Calls(s);
    match a
    case BeginDrain(n) =>
    case Snapshot(n, order) =>
      assert DrainOk(s, s.drains[n]);
    case CancelNext(n) =>
      assert DrainOk(s, s.drains[n]);
      var todo := s.drains[n].phase.todo;
      assert todo != [] ==> todo == [todo[0]] + todo[1..];
    case EndDrain(n) =>
      assert DrainOk(s, s.drains[n]);
  }

  lemma StepKeepsInv(s: State, a: Action)
    requires Inv(s) && Enabled(s, a)
    ensures Inv(Apply(s, a))
  {
    hide Inv;
    match a
    case Register(id, target, cancelable) => RegisterKeeps(s, id, target, cancelable);
    case Clear(id) => ClearKeeps(s, id);
    case CloseSession => CloseKeeps(s);
    case Restore => CloseKeeps(s);
    case SetGate => GateKeeps(s);
    case LiftGate => GateKeeps(s);
    case BeginDrain(_) => DrainStepKeeps(s, a);
    case Snapshot(_, _) => DrainStepKeeps(s, a);
    case CancelNext(_) => DrainStepKeeps(s, a);
    case EndDrain(_) => DrainStepKeeps(s, a);
  }

  /** The invariant holds after every run, whatever the interleaving. */
  lemma {:induction false} RunKeepsInv(s: State, actions: seq<Action>, t: State)
    requires Inv(s) && Run(s, actions, t)
    ensures Inv(t)
    decreases |actions|
  {
    hide Inv;
    if actions != [] {
      StepKeepsInv(s, actions[0]);
      RunKeepsInv(Apply(s, actions[0]), actions[1..], t);
    }
  }

  lemma InitInv()
    ensures Inv(Init)
  {
    NoCalls(Init);
  }

  // ------------------------------------------------------------- what runs guarantee

  /** Conservation: after any run, the registrations made are those settled, abandoned, discarded and pending. */
  lemma RegistrationsAreConserved(actions: seq<Action>, t: State)
    requires Run(Init, actions, t)
    ensures OneFate(t)
    ensures |t.issued| == |t.cleared| + |t.abandoned| + |t.discarded| + |t.pending|
  {
    hide Calls, Serials, Partition, Filed, ClosedOnce, DrainOk;
    InitInv();
    RunKeepsInv(Init, actions, t);
    PendingSize(t);
    PartitionSize(|t.issued|, t.cleared, t.abandoned, t.discarded, Serials(Calls(t)));
  }

  /** The three ways a registration ends. */
  datatype End = Settled | AtClose | AtRestore

  /** The action takes the pending registration out: a clear finds it, or the session closes or is restored. */
  ghost predicate Ends(s: State, a: Action, n: nat, how: End) {
    && n in Serials(Calls(s))
    && match how {
         case Settled => a.Clear? && a.requestId in s.pending && s.pending[a.requestId].serial == n
         case AtClose => a.CloseSession?
         case AtRestore => a.Restore?
       }
  }

  ghost predicate EndedBy(s: State, actions: seq<Action>, n: nat, how: End)
    decreases |actions|
  {
    && actions != [] && Enabled(s, actions[0])
    && (Ends(s, actions[0], n, how) || EndedBy(Apply(s, actions[0]), actions[1..], n, how))
  }

  ghost function Fate(s: State, how: End): set<nat> {
    match how
    case Settled => s.cleared
    case AtClose => s.abandoned
    case AtRestore => s.discarded
  }

  lemma PendingSerial(s: State, id: Name)
    requires id in s.pending
    ensures s.pending[id] in Calls(s) && s.pending[id].serial in Serials(Calls(s))
  {
    assert s.pending[id] in Calls(s);
  }

  lemma StepFate(s: State, a: Action, n: nat, how: End)
    requires Enabled(s, a)
    ensures n in Fate(Apply(s, a), how) <==> n in Fate(s, how) || Ends(s, a, n, how)
  {
    if a.Clear? && a.requestId in s.pending {
      PendingSerial(s, a.requestId);
    }
  }

  lemma {:induction false} FateFrom(s: State, actions: seq<Action>, t: State, n: nat, how: End)
    requires Run(s, actions, t)
    ensures n in Fate(t, how) <==> n in Fate(s, how) || EndedBy(s, actions, n, how)
    decreases |actions|
  {
    hide Fate, Ends, Apply, Enabled;
    if actions != [] {
      StepFate(s, actions[0], n, how);
      FateFrom(Apply(s, actions[0]), actions[1..], t, n, how);
    }
  }

  /** Over all runs a registration is settled exactly when a clear of its id found it, abandoned exactly when it was
      pending at some close, and discarded exactly when it was pending at some restore. */
  lemma FatesIff(actions: seq<Action>, t: State, n: nat)
    requires Run(Init, actions, t)
    ensures n in t.cleared <==> EndedBy(Init, actions, n, Settled)
    ensures n in t.abandoned <==> EndedBy(Init, actions, n, AtClose)
    ensures n in t.discarded <==> EndedBy(Init, actions, n, AtRestore)
  {
    hide EndedBy, Run;
    FateFrom(Init, actions, t, n, Settled);
    FateFrom(Init, actions, t, n, AtClose);
    FateFrom(Init, actions, t, n, AtRestore);
  }

  /** The action registers the call: nothing is pending under its id, and the gate is open. */
  ghost predicate Makes(s: State, a: Action, c: Call) {
    a == Register(c.requestId, c.target, c.cancelable) && c.requestId !in s.pending && !s.gate && c.serial == |s.issued|
  }

  ghost predicate Made(s: State, actions: seq<Action>, c: Call)
    decreases |actions|
  {
    && actions != [] && Enabled(s, actions[0])
    && (Makes(s, actions[0], c) || Made(Apply(s, actions[0]), actions[1..], c))
  }

  lemma StepIssues(s: State, a: Action, c: Call)
    requires Enabled(s, a)
    ensures c in Apply(s, a).issued <==> c in s.issued || Makes(s, a, c)
  {
  }

  lemma {:induction false} IssuedFrom(s: State, actions: seq<Action>, t: State, c: Call)
    requires Run(s, actions, t)
    ensures c in t.issued <==> c in s.issued || Made(s, actions, c)
    decreases |actions|
  {
    hide Makes, Apply, Enabled;
    if actions != [] {
      StepIssues(s, actions[0], c);
      IssuedFrom(Apply(s, actions[0]), actions[1..], t, c);
    }
  }

  /** Over all runs, the calls pending are exactly those registered, with an open gate and under an id not pending
      then, that nothing has ended since. */
  lemma PendingIff(actions: seq<Action>, t: State, c: Call)
    requires Run(Init, actions, t)
    ensures c in Calls(t) <==> Made(Init, actions, c) && forall how :: !EndedBy(Init, actions, c.serial, how)
  {
    InitInv();
    RunKeepsInv(Init, actions, t);
    hide EndedBy, Made, Run, DrainOk, ClosedOnce;
    IssuedFrom(Init, actions, t, c);
    FatesIff(actions, t, c.serial);
    PendingIsUnended(t, c);
    if c in Calls(t) {
      forall how
        ensures !EndedBy(Init, actions, c.serial, how)
      {
        match how {
          case Settled =>
          case AtClose =>
          case AtRestore =>
        }
      }
    }
  }

  lemma PendingIsUnended(t: State, c: Call)
    requires Filed(t) && OneFate(t)
    ensures c in Calls(t) <==> c in t.issued && c.serial !in t.cleared + t.abandoned + t.discarded
  {
    if c in Calls(t) {
      assert c.serial in Serials(Calls(t));
    }
    if c in t.issued && c.serial !in t.cleared + t.abandoned + t.discarded {
      var i :| 0 <= i < |t.issued| && t.issued[i] == c;
      assert c.serial in t.cleared + t.abandoned + t.discarded + Serials(Calls(t));
      var d :| d in Calls(t) && d.serial == c.serial;
    }
  }

  /** What is taken at one close or restore is never pending again, so no other close takes it too. */
  lemma EndedStaysEnded(before: seq<Action>, s: State, a: Action, after: seq<Action>, t: State)
    requires Run(Init, before, s) && (a.CloseSession? || a.Restore?) && Run(Apply(s, a), after, t)
    ensures Calls(s) !! Calls(t)
  {
    InitInv();
    RunKeepsInv(Init, before, s);
    StepKeepsInv(s, a);
    var u := Apply(s, a);
    RunKeepsInv(u, after, t);
    hide Run, Apply, DrainOk, ClosedOnce;
    forall c | c in Calls(s) && c in Calls(t)
      ensures false
    {
      var how := if a.CloseSession? then AtClose else AtRestore;
      assert c.serial in Serials(Calls(s)) && Ends(s, a, c.serial, how);
      StepFate(s, a, c.serial, how);
      FateFrom(u, after, t, c.serial, how);
      PendingIsUnended(t, c);
    }
  }

  /** A close or a restore leaves nothing pending, and what was pending is exactly what it adds to its list. */
  lemma CloseTakesAll(s: State)
    ensures var t := Apply(s, CloseSession);
            t.pending == map[] && t.abandoned == s.abandoned + Serials(Calls(s)) && t.discarded == s.discarded
    ensures var t := Apply(s, Restore);
            t.pending == map[] && t.discarded == s.discarded + Serials(Calls(s)) && t.abandoned == s.abandoned
  {
  }

  /** The gate is set exactly when it was set and has not been lifted since. */
  ghost predicate LeftSet(actions: seq<Action>, k: nat) {
    k < |actions| && actions[k].SetGate? && forall j :: k < j < |actions| ==> !actions[j].LiftGate?
  }

  lemma {:induction false} GateFrom(s: State, actions: seq<Action>, t: State)
    requires Run(s, actions, t)
    ensures t.gate <==> (s.gate && GateStays(actions)) || exists k :: LeftSet(actions, k)
    decreases |actions|
  {
    if actions != [] {
      var a, rest := actions[0], actions[1..];
      GateFrom(Apply(s, a), rest, t);
      assert forall j :: 0 < j < |actions| ==> actions[j] == rest[j - 1];
      assert GateStays(actions) <==> !a.LiftGate? && GateStays(rest) by {
        assert forall j :: 0 <= j < |rest| ==> rest[j] == actions[j + 1];
      }
      FirstOrLater(actions);
    }
  }

  lemma FirstOrLater(actions: seq<Action>)
    requires actions != []
    ensures (exists k :: LeftSet(actions, k)) <==>
            (actions[0].SetGate? && GateStays(actions[1..])) || exists k :: LeftSet(actions[1..], k)
  {
    var rest := actions[1..];
    assert forall j :: 0 < j < |actions| ==> actions[j] == rest[j - 1];
    assert forall j :: 0 <= j < |rest| ==> rest[j] == actions[j + 1];
    if k: nat :| LeftSet(actions, k) {
      if k > 0 {
        assert LeftSet(rest, k - 1);
      }
    }
    if k: nat :| LeftSet(rest, k) {
      assert LeftSet(actions, k + 1);
    }
    if actions[0].SetGate? && GateStays(rest) {
      assert LeftSet(actions, 0);
    }
  }

  lemma GateIff(actions: seq<Action>, t: State)
    requires Run(Init, actions, t)
    ensures t.gate <==> exists k :: LeftSet(actions, k)
  {
    hide LeftSet, Run;
    GateFrom(Init, actions, t);
  }

  lemma PartitionSize(n: nat, a: set<nat>, b: set<nat>, c: set<nat>, d: set<nat>)
    requires Partition(n, a, b, c, d)
    ensures |a| + |b| + |c| + |d| == n
  {
    assert Upto(n) == a + b + c + d;
    assert |a + b| == |a| + |b|;
    assert |a + b + c| == |a + b| + |c|;
  }

  ghost function Image(keys: set<Name>, f: map<Name, nat>): set<nat>
    requires keys <= f.Keys
  {
    set k | k in keys :: f[k]
  }

  lemma {:induction false} ImageSize(keys: set<Name>, f: map<Name, nat>)
    requires keys <= f.Keys && forall a, b :: a in keys && b in keys && f[a] == f[b] ==> a == b
    ensures |Image(keys, f)| == |keys|
    decreases keys
  {
    if keys != {} {
      var k :| k in keys;
      var rest := keys - {k};
      ImageSize(rest, f);
      assert Image(keys, f) == Image(rest, f) + {f[k]};
      assert f[k] !in Image(rest, f);
    }
  }

  lemma PendingSize(s: State)
    requires Filed(s)
    ensures |Serials(Calls(s))| == |s.pending|
  {
    var f := map k | k in s.pending :: s.pending[k].serial;
    forall a, b | a in s.pending && b in s.pending && f[a] == f[b]
      ensures a == b
    {
      SerialsDistinct(s, a, b);
    }
    ImageSize(s.pending.Keys, f);
    assert Serials(Calls(s)) == Image(s.pending.Keys, f) by {
      hide Filed;
      forall n | n in Image(s.pending.Keys, f)
        ensures n in Serials(Calls(s))
      {
        var k :| k in s.pending && f[k] == n;
        assert s.pending[k] in Calls(s);
      }
    }
  }

  /** No settled marker is ever closed twice, nor the guard against that needed: the marker of a pending call
      is open. Exactly the settled calls that have one are closed. */
  lemma MarkersAreClosedOnce(actions: seq<Action>, t: State)
    requires Run(Init, actions, t)
    ensures Distinct(t.closed)
    ensures forall n: nat :: n in t.closed <==> n in t.cleared && n < |t.issued| && t.issued[n].cancelable
    ensures forall id :: id in t.pending ==> t.pending[id].serial !in t.closed
  {
    InitInv();
    RunKeepsInv(Init, actions, t);
    forall id | id in t.pending
      ensures t.pending[id].serial !in t.closed
    {
      PendingNotClosed(t, id);
    }
  }

  /** The marker of a pending call is still open, so the guard against closing it twice never fires. */
  lemma PendingNotClosed(s: State, id: Name)
    requires Inv(s) && id in s.pending
    ensures s.pending[id].serial !in s.closed
  {
    CallsAfterClear(s, id);
  }

  ghost predicate GateStays(actions: seq<Action>) {
    forall i :: 0 <= i < |actions| ==> !actions[i].LiftGate?
  }

  lemma GatedStep(s: State, a: Action)
    requires Filed(s) && s.gate && Enabled(s, a) && !a.LiftGate?
    ensures var t := Apply(s, a);
            t.gate && t.issued == s.issued && t.pending.Keys <= s.pending.Keys && Calls(t) <= Calls(s)
  {
    if a.Clear? && a.requestId in s.pending {
      CallsAfterClear(s, a.requestId);
      assert Calls(Apply(s, a)) == Calls(s.(pending := s.pending - {a.requestId}));
    } else if a.CloseSession? || a.Restore? {
      NoCalls(Apply(s, a));
    } else {
      assert Apply(s, a).pending == s.pending;
    }
  }

  /** While the gate is set the registry only shrinks: nothing is issued, no key appears, no entry changes. */
  lemma {:induction false} GateFreezesRegistry(s: State, actions: seq<Action>, t: State)
    requires Inv(s) && s.gate && Run(s, actions, t) && GateStays(actions)
    ensures t.gate && t.issued == s.issued && t.pending.Keys <= s.pending.Keys && Calls(t) <= Calls(s)
    decreases |actions|
  {
    hide Calls, DrainOk, OneFate, ClosedOnce;
    if actions != [] {
      GatedStep(s, actions[0]);
      StepKeepsInv(s, actions[0]);
      GateFreezesRegistry(Apply(s, actions[0]), actions[1..], t);
    }
  }

  /** A drain's history does not change while the gate stays. */
  lemma {:induction false} DrainKeepsHistory(s: State, actions: seq<Action>, t: State, thread: nat)
    requires Run(s, actions, t) && GateStays(actions) && thread in s.drains
    ensures thread in t.drains && t.drains[thread].entry == s.drains[thread].entry
    ensures t.drains[thread].held == s.drains[thread].held
    decreases |actions|
  {
    hide Calls;
    if actions != [] {
      var u := Apply(s, actions[0]);
      assert thread in u.drains && u.drains[thread].entry == s.drains[thread].entry;
      DrainKeepsHistory(u, actions[1..], t, thread);
    }
  }

  /** A drain that begins in `s` with the gate set, and returns before it is lifted, returns only calls that
      were pending in `s`, each of them canceled if it can be. Everything else may interleave. */
  lemma DrainReturnsCanceledEntrants(before: seq<Action>, s: State, thread: nat, during: seq<Action>, t: State)
    requires Run(Init, before, s) && s.gate && thread !in s.drains
    requires Run(Apply(s, BeginDrain(thread)), during, t) && GateStays(during)
    requires thread in t.drains && t.drains[thread].phase.Returned?
    ensures t.drains[thread].phase.result <= Calls(s)
    ensures AllCanceled(t, t.drains[thread].phase.result)
  {
    hide Calls;
    InitInv();
    RunKeepsInv(Init, before, s);
    var u := Apply(s, BeginDrain(thread));
    StepKeepsInv(s, BeginDrain(thread));
    RunKeepsInv(u, during, t);
    DrainKeepsHistory(u, during, t, thread);
    assert DrainOk(t, t.drains[thread]);
  }

  /** The drain's next step cancels the call. */
  ghost predicate Cancels(s: State, a: Action, n: nat)
    requires Enabled(s, a)
  {
    a.CancelNext? && var todo := s.drains[a.thread].phase.todo; todo != [] && todo[0].cancelable && todo[0].serial == n
  }

  ghost predicate CanceledBy(s: State, actions: seq<Action>, n: nat)
    decreases |actions|
  {
    && actions != [] && Enabled(s, actions[0])
    && (Cancels(s, actions[0], n) || CanceledBy(Apply(s, actions[0]), actions[1..], n))
  }

  lemma StepCancels(s: State, a: Action, n: nat)
    requires Enabled(s, a)
    ensures n in Apply(s, a).canceled <==> n in s.canceled || Cancels(s, a, n)
  {
    hide Calls;
  }

  lemma {:induction false} CanceledFrom(s: State, actions: seq<Action>, t: State, n: nat)
    requires Run(s, actions, t)
    ensures n in t.canceled <==> n in s.canceled || CanceledBy(s, actions, n)
    decreases |actions|
  {
    hide Cancels, Apply, Enabled;
    if actions != [] {
      StepCancels(s, actions[0], n);
      CanceledFrom(Apply(s, actions[0]), actions[1..], t, n);
    }
  }

  /** Over all runs, a call has been canceled exactly when a drain took it up, and it could be. */
  lemma CanceledIff(actions: seq<Action>, t: State, n: nat)
    requires Run(Init, actions, t)
    ensures n in t.canceled <==> CanceledBy(Init, actions, n)
  {
    hide CanceledBy, Run;
    CanceledFrom(Init, actions, t, n);
  }

  /** The drain has nothing to cancel. */
  ghost predicate Idle(s: State, thread: nat) {
    thread in s.drains && (s.drains[thread].phase == Canceling([], {}) || s.drains[thread].phase == Returned({}))
  }

  lemma StepIdle(s: State, a: Action, thread: nat)
    requires Enabled(s, a) && Idle(s, thread)
    ensures Idle(Apply(s, a), thread)
  {
    hide Calls;
  }

  /** A drain that finds nothing pending at its second snapshot returns at once, with nothing. */
  lemma {:induction false} IdleDrainReturns(s: State, thread: nat, during: seq<Action>, t: State)
    requires Idle(s, thread) && Run(s, during, t)
    ensures Idle(t, thread)
    ensures s.drains[thread].phase.Canceling? && CancelNext(thread) in during ==> t.drains[thread].phase == Returned({})
    decreases |during|
  {
    hide Calls;
    if during != [] {
      var u := Apply(s, during[0]);
      StepIdle(s, during[0], thread);
      IdleDrainReturns(u, thread, during[1..], t);
      if during[0] == CancelNext(thread) {
        ReturnedStays(u, during[1..], t, thread, {});
      }
    }
  }

  /** What a drain has returned does not change. */
  lemma {:induction false} ReturnedStays(s: State, actions: seq<Action>, t: State, thread: nat, result: set<Call>)
    requires Run(s, actions, t) && thread in s.drains && s.drains[thread].phase == Returned(result)
    ensures thread in t.drains && t.drains[thread].phase == Returned(result)
    decreases |actions|
  {
    hide Calls;
    if actions != [] {
      ReturnedStays(Apply(s, actions[0]), actions[1..], t, thread, result);
    }
  }

  /** What is pending and was registered before is what was pending then. */
  lemma StepKeepsOld(s: State, a: Action, c: Call)
    requires Inv(s) && Enabled(s, a) && c in Calls(Apply(s, a)) && c.serial < |s.issued|
    ensures c in Calls(s)
  {
    hide DrainOk, ClosedOnce, OneFate;
    if a.Register? && a.requestId !in s.pending && !s.gate {
      CallsAfterRegister(s, a.requestId, Call(|s.issued|, a.requestId, a.target, a.cancelable));
      SamePending(s.(pending := Apply(s, a).pending), Apply(s, a));
    } else if a.Clear? && a.requestId in s.pending {
      CallsAfterClear(s, a.requestId);
      SamePending(s.(pending := s.pending - {a.requestId}), Apply(s, a));
    } else if !a.CloseSession? && !a.Restore? {
      SamePending(s, Apply(s, a));
    }
  }

  lemma {:induction false} RunKeepsOld(s: State, actions: seq<Action>, t: State, c: Call)
    requires Inv(s) && Run(s, actions, t) && c in Calls(t) && c.serial < |s.issued|
    ensures c in Calls(s)
    decreases |actions|
  {
    hide Inv, Calls, Apply, Enabled;
    if actions != [] {
      StepKeepsInv(s, actions[0]);
      MoreIssued(s, actions[0]);
      RunKeepsOld(Apply(s, actions[0]), actions[1..], t, c);
      StepKeepsOld(s, actions[0], c);
    }
  }

  lemma MoreIssued(s: State, a: Action)
    requires Enabled(s, a)
    ensures |Apply(s, a).issued| >= |s.issued|
  {
  }

  /** The drain has the call in hand: to be canceled, canceled, or in its result. */
  ghost predicate Handles(s: State, p: Phase, c: Call) {
    match p
    case Waiting => false
    case Canceling(todo, stragglers) => c in todo || (c in stragglers && Stopped(s, c))
    case Settling(stragglers) => c in stragglers && Stopped(s, c)
    case Returned(result) => c in result && Stopped(s, c)
  }

  ghost predicate Stopped(s: State, c: Call) {
    c.cancelable ==> c.serial in s.canceled
  }

  lemma StepHandles(s: State, a: Action, thread: nat, c: Call)
    requires Enabled(s, a) && thread in s.drains && Handles(s, s.drains[thread].phase, c) && c in Calls(s)
    ensures thread in Apply(s, a).drains && Handles(Apply(s, a), Apply(s, a).drains[thread].phase, c)
  {
    hide Calls;
  }

  lemma {:induction false} RunHandles(s: State, actions: seq<Action>, t: State, thread: nat, c: Call)
    requires Inv(s) && Run(s, actions, t) && c in Calls(t) && c.serial < |s.issued|
    requires thread in s.drains && Handles(s, s.drains[thread].phase, c)
    ensures thread in t.drains && Handles(t, t.drains[thread].phase, c)
    decreases |actions|
  {
    hide Inv, Calls, Apply, Enabled, Handles;
    RunKeepsOld(s, actions, t, c);
    if actions != [] {
      StepKeepsInv(s, actions[0]);
      MoreIssued(s, actions[0]);
      StepHandles(s, actions[0], thread, c);
      RunHandles(Apply(s, actions[0]), actions[1..], t, thread, c);
    }
  }

  /** A drain misses nothing: a call pending when it takes its second snapshot, and still pending when it has returned,
      is in its result and has been canceled if it can be; gate or no gate. */
  lemma DrainMissesNothing(before: seq<Action>, s: State, thread: nat, order: seq<Call>, during: seq<Action>, t: State,
                           c: Call)
    requires Run(Init, before, s) && Enabled(s, Snapshot(thread, order))
    requires Run(Apply(s, Snapshot(thread, order)), during, t) && c in Calls(s) && c in Calls(t)
    requires thread in t.drains && t.drains[thread].phase.Returned?
    ensures c in t.drains[thread].phase.result && Stopped(t, c)
  {
    InitInv();
    RunKeepsInv(Init, before, s);
    StepKeepsInv(s, Snapshot(thread, order));
    var u := Apply(s, Snapshot(thread, order));
    assert c in order by {
      assert c in Calls(s) && (set d | d in order) == Calls(s);
    }
    assert Handles(u, u.drains[thread].phase, c);
    assert c.serial < |s.issued|;
    hide Inv, Calls, Run;
    RunHandles(u, during, t, thread, c);
  }

  /** The guarantee needs the gate: lifted half-way, a drain can return a call registered after it began. */
  lemma LiftedGateLetsNewcomersIn(thread: nat, id: Name, target: Name)
    ensures var call := Call(0, id, target, true);
            var during := [LiftGate, Register(id, target, true), Snapshot(thread, [call]), CancelNext(thread),
                CancelNext(thread), EndDrain(thread)];
            var s := Apply(Init, SetGate);
            && s.gate && Calls(s) == {}
            && exists t :: Run(Apply(s, BeginDrain(thread)), during, t)
                           && thread in t.drains && t.drains[thread].phase == Returned({call})
  {
    var call := Call(0, id, target, true);
    var s0 := Apply(Apply(Init, SetGate), BeginDrain(thread));
    NoCalls(Apply(Init, SetGate));
    var s1 := Apply(s0, LiftGate);
    var s2 := Apply(s1, Register(id, target, true));
    CallsAfterRegister(s1, id, call);
    NoCalls(s1);
    SamePending(s1.(pending := s1.pending[id := call]), s2);
    var s3, s4, s5, s6 := DrainTakesAll(s2, thread, call);
    RunOf6(s0, s1, s2, s3, s4, s5, s6, LiftGate, Register(id, target, true), Snapshot(thread, [call]),
           CancelNext(thread), CancelNext(thread), EndDrain(thread));
  }

  /** A waiting drain left alone with one pending call cancels and returns it. */
  lemma DrainTakesAll(s: State, thread: nat, call: Call) returns (s3: State, s4: State, s5: State, s6: State)
    requires thread in s.drains && s.drains[thread].phase.Waiting? && Calls(s) == {call}
    ensures Enabled(s, Snapshot(thread, [call])) && s3 == Apply(s, Snapshot(thread, [call]))
    ensures Enabled(s3, CancelNext(thread)) && s4 == Apply(s3, CancelNext(thread))
    ensures Enabled(s4, CancelNext(thread)) && s5 == Apply(s4, CancelNext(thread))
    ensures Enabled(s5, EndDrain(thread)) && s6 == Apply(s5, EndDrain(thread))
    ensures thread in s6.drains && s6.drains[thread].phase == Returned({call})
  {
    hide Calls;
    assert Lists([call], {call});
    s3 := Apply(s, Snapshot(thread, [call]));
    s4 := Apply(s3, CancelNext(thread));
    s5 := Apply(s4, CancelNext(thread));
    s6 := Apply(s5, EndDrain(thread));
    SamePending(s, s5);
  }

  lemma RunOf6(s0: State, s1: State, s2: State, s3: State, s4: State, s5: State, s6: State,
               a0: Action, a1: Action, a2: Action, a3: Action, a4: Action, a5: Action)
    requires Enabled(s0, a0) && s1 == Apply(s0, a0)
    requires Enabled(s1, a1) && s2 == Apply(s1, a1)
    requires Enabled(s2, a2) && s3 == Apply(s2, a2)
    requires Enabled(s3, a3) && s4 == Apply(s3, a3)
    requires Enabled(s4, a4) && s5 == Apply(s4, a4)
    requires Enabled(s5, a5) && s6 == Apply(s5, a5)
    ensures Run(s0, [a0, a1, a2, a3, a4, a5], s6)
  {
    hide Apply, Enabled;
    assert Run(s6, [], s6);
    assert Run(s5, [a5], s6);
    assert [a4, a5][1..] == [a5];
    assert Run(s4, [a4, a5], s6);
    assert [a3, a4, a5][1..] == [a4, a5];
    assert Run(s3, [a3, a4, a5], s6);
    assert [a2, a3, a4, a5][1..] == [a3, a4, a5];
    assert Run(s2, [a2, a3, a4, a5], s6);
    assert [a1, a2, a3, a4, a5][1..] == [a2, a3, a4, a5];
    assert Run(s1, [a1, a2, a3, a4, a5], s6);
    assert [a0, a1, a2, a3, a4, a5][1..] == [a1, a2, a3, a4, a5];
  }
}