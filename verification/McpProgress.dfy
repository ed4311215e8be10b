/** Routing of MCP progress notifications to concurrent executes
    (cmd/criteria-adapter-mcp/bridge.go), over every interleaving of one session. */
module McpProgress {
  import opened Names

  // ------------------------------------------------------------------------ tokens

  const PREFIX := "criteria-"

  function Token(n: nat): string {
    PREFIX + FormatUint(n)
  }

  /** Different serial numbers give different tokens, and none is empty. */
  lemma TokenInjective(m: nat, n: nat)
    ensures Token(m) == Token(n) ==> m == n
    ensures Token(m) != ""
  {
    if Token(m) == Token(n) {
      assert Token(m)[|PREFIX|..] == FormatUint(m) && Token(n)[|PREFIX|..] == FormatUint(n);
      FormatInjective(m, n);
    }
  }

  // ------------------------------------------------------------------- one session's steps

  /** One Execute call. */
  type Id = nat

  datatype Phase = Minted | Registered | Settled

  /** A notification bound for an execute: by its token, or because no other execute was in flight. */
  datatype Delivery = Tokened(token: string, to: Id) | Untokened(to: Id, inFlight: set<Id>)

  /** `exec` is the session's registry. `serial` and `phase` remember every call's token number and how far it has come;
      `held` are the notifications looked up but not yet sent, `sent` those sent. */
  datatype State = State(
    execSeq: nat,
    exec: map<string, Id>,
    serial: map<Id, nat>,
    phase: map<Id, Phase>,
    held: seq<Delivery>,
    sent: seq<Delivery>)

  /** The counter step, the two locked steps, the locked lookup and the unlocked send. */
  datatype Action = Mint(id: Id) | Register(id: Id) | Unregister(id: Id) | Notify(token: string) | Send(k: nat)

  ghost predicate Enabled(s: State, a: Action) {
    match a
    case Mint(id) => id !in s.serial
    case Register(id) => id in s.serial && id in s.phase && s.phase[id].Minted?
    case Unregister(id) => id in s.serial && id in s.phase && s.phase[id].Registered?
    case Notify(_) => true
    case Send(k) => k < |s.held|
  }

  ghost function InFlight(s: State): set<Id> {
    set id | id in s.phase && s.phase[id].Registered?
  }

  ghost function Lookup(s: State, token: string): Option<Delivery> {
    if token != "" then
      if token in s.exec then Some(Tokened(token, s.exec[token])) else None
    else if |s.exec| == 1 then
      var t :| t in s.exec;
      Some(Untokened(s.exec[t], InFlight(s)))
    else None
  }

  ghost function Apply(s: State, a: Action): State
    requires Enabled(s, a)
  {
    match a
    case Mint(id) => s.(execSeq := s.execSeq + 1, serial := s.serial[id := s.execSeq + 1],
        phase := s.phase[id := Minted])
    case Register(id) => s.(exec := s.exec[Token(s.serial[id]) := id], phase := s.phase[id := Registered])
    case Unregister(id) => s.(exec := s.exec - {Token(s.serial[id])}, phase := s.phase[id := Settled])
    case Notify(token) =>
      var d := Lookup(s, token);
      if d.Some? then s.(held := s.held + [d.value]) else s
    case Send(k) => s.(held := s.held[..k] + s.held[k + 1..], sent := s.sent + [s.held[k]])
  }

  const INITIAL := State(0, map[], map[], map[], [], [])

  ghost predicate Run(s: State, actions: seq<Action>, t: State)
    decreases |actions|
  {
    if actions == [] then s == t
    else Enabled(s, actions[0]) && Run(Apply(s, actions[0]), actions[1..], t)
  }

  // -------------------------------------------------------------------------- invariant

  /** Serial numbers come from the counter and are not shared. */
  ghost predicate SerialsOk(s: State) {
    && s.phase.Keys == s.serial.Keys
    && (forall id :: id in s.serial ==> s.serial[id] <= s.execSeq)
    && (forall a, b :: a in s.serial && b in s.serial && s.serial[a] == s.serial[b] ==> a == b)
  }

  /** The registry holds exactly the executes in flight, each under its own token. */
  ghost predicate RegistryOk(s: State)
    requires SerialsOk(s)
  {
    Indexes(s.exec, InFlight(s), s.serial)
  }

  ghost predicate Indexes(exec: map<string, Id>, ids: set<Id>, serial: map<Id, nat>)
    requires ids <= serial.Keys
  {
    && (forall t :: t in exec ==> exec[t] in ids && t == Token(serial[exec[t]]))
    && (forall id :: id in ids ==> Token(serial[id]) in exec && exec[Token(serial[id])] == id)
  }

  ghost predicate TokensApart(serial: map<Id, nat>) {
    forall a, b :: a in serial && b in serial && Token(serial[a]) == Token(serial[b]) ==> a == b
  }

  lemma IndexAdd(exec: map<string, Id>, ids: set<Id>, serial: map<Id, nat>, id: Id)
    requires ids <= serial.Keys && id in serial && id !in ids && TokensApart(serial) && Indexes(exec, ids, serial)
    ensures Indexes(exec[Token(serial[id]) := id], ids + {id}, serial)
  {
    hide Token;
  }

  lemma IndexDrop(exec: map<string, Id>, ids: set<Id>, serial: map<Id, nat>, id: Id)
    requires ids <= serial.Keys && id in ids && TokensApart(serial) && Indexes(exec, ids, serial)
    ensures Indexes(exec - {Token(serial[id])}, ids - {id}, serial)
  {
    hide Token;
  }

  lemma IndexUnmoved(exec: map<string, Id>, ids: set<Id>, serial: map<Id, nat>, id: Id, n: nat)
    requires ids <= serial.Keys && id !in serial && Indexes(exec, ids, serial)
    ensures Indexes(exec, ids, serial[id := n])
  {
    hide Token;
  }

  /** A tokened notification goes to the execute that minted the token, an untokened one to the only execute
      in flight when it was looked up. */
  ghost predicate Attributed(s: State, d: Delivery) {
    match d
    case Tokened(token, to) => to in s.serial && token == Token(s.serial[to])
    case Untokened(to, inFlight) => inFlight == {to}
  }

  ghost predicate Inv(s: State) {
    && SerialsOk(s) && RegistryOk(s)
    && (forall d :: d in s.held || d in s.sent ==> Attributed(s, d))
  }

  lemma TokensDiffer(s: State)
    requires SerialsOk(s)
    ensures TokensApart(s.serial)
  {
    forall a, b | a in s.serial && b in s.serial && Token(s.serial[a]) == Token(s.serial[b])
      ensures a == b
    {
      TokenInjective(s.serial[a], s.serial[b]);
    }
  }

  lemma MintKeeps(s: State, id: Id)
    requires SerialsOk(s) && RegistryOk(s) && id !in s.serial
    ensures var t := Apply(s, Mint(id)); SerialsOk(t) && RegistryOk(t)
  {
    hide Token, Indexes;
    var t := Apply(s, Mint(id));
    assert InFlight(t) == InFlight(s);
    IndexUnmoved(s.exec, InFlight(s), s.serial, id, s.execSeq + 1);
  }

  lemma RegisterKeeps(s: State, id: Id)
    requires SerialsOk(s) && RegistryOk(s) && Enabled(s, Register(id))
    ensures var t := Apply(s, Register(id)); SerialsOk(t) && RegistryOk(t)
  {
    hide Token, Indexes, TokensApart;
    TokensDiffer(s);
    var t := Apply(s, Register(id));
    assert InFlight(t) == InFlight(s) + {id};
    IndexAdd(s.exec, InFlight(s), s.serial, id);
  }

  lemma UnregisterKeeps(s: State, id: Id)
    requires SerialsOk(s) && RegistryOk(s) && Enabled(s, Unregister(id))
    ensures var t := Apply(s, Unregister(id)); SerialsOk(t) && RegistryOk(t)
  {
    hide Token, Indexes, TokensApart;
    TokensDiffer(s);
    var t := Apply(s, Unregister(id));
    assert InFlight(t) == InFlight(s) - {id};
    IndexDrop(s.exec, InFlight(s), s.serial, id);
  }

  lemma RegistryStep(s: State, a: Action)
    requires SerialsOk(s) && RegistryOk(s) && Enabled(s, a)
    ensures SerialsOk(Apply(s, a)) && RegistryOk(Apply(s, a))
  {
    match a
    case Mint(id) => MintKeeps(s, id);
    case Register(id) => RegisterKeeps(s, id);
    case Unregister(id) => UnregisterKeeps(s, id);
    case Notify(token) => SameRegistry(s, Apply(s, a));
    case Send(k) => SameRegistry(s, Apply(s, a));
  }

  lemma SameRegistry(s: State, t: State)
    requires SerialsOk(s) && RegistryOk(s)
    requires t.execSeq == s.execSeq && t.exec == s.exec && t.serial == s.serial && t.phase == s.phase
    ensures SerialsOk(t) && RegistryOk(t)
  {
    hide Token;
    assert InFlight(t) == InFlight(s);
  }

  /** With one registry entry, the execute it names is the only one in flight. */
  lemma OnlyOneFlying(s: State, t: string)
    requires SerialsOk(s) && RegistryOk(s) && |s.exec| == 1 && t in s.exec
    ensures InFlight(s) == {s.exec[t]}
  {
    hide Token;
    assert s.exec.Keys == {t} by {
      assert |s.exec.Keys - {t}| == 0;
    }
    forall id | id in InFlight(s)
      ensures id == s.exec[t]
    {
      assert Token(s.serial[id]) in s.exec.Keys;
    }
  }

  lemma LookupAttributed(s: State, token: string)
    requires SerialsOk(s) && RegistryOk(s)
    ensures Lookup(s, token).Some? ==> Attributed(s, Lookup(s, token).value)
  {
    if token == "" && |s.exec| == 1 {
      var t :| t in s.exec;
      forall t | t in s.exec
        ensures InFlight(s) == {s.exec[t]}
      {
        OnlyOneFlying(s, t);
      }
    }
  }

  /** No call ever changes its token. */
  ghost predicate KeepsSerials(s: State, t: State) {
    forall id :: id in s.serial ==> id in t.serial && t.serial[id] == s.serial[id]
  }

  lemma StepKeepsSerials(s: State, a: Action)
    requires Enabled(s, a)
    ensures KeepsSerials(s, Apply(s, a))
  {
    hide Token, Lookup;
  }

  lemma AttributionKept(s: State, t: State, d: Delivery)
    requires KeepsSerials(s, t) && Attributed(s, d)
    ensures Attributed(t, d)
  {
    hide Token;
  }

  /** Every step keeps the invariant. */
  lemma StepKeepsInv(s: State, a: Action)
    requires Inv(s) && Enabled(s, a)
    ensures Inv(Apply(s, a)) && KeepsSerials(s, Apply(s, a))
  {
    var t := Apply(s, a);
    RegistryStep(s, a);
    StepKeepsSerials(s, a);
    if a.Notify? {
      LookupAttributed(s, a.token);
    }
    hide Token, Lookup, RegistryOk, SerialsOk, Attributed, KeepsSerials;
    forall d | d in t.held || d in t.sent
      ensures Attributed(t, d)
    {
      AttributionKept(s, t, d);
    }
  }

  lemma {:induction false} RunKeepsInv(s: State, actions: seq<Action>, t: State)
    requires Inv(s) && Run(s, actions, t)
    ensures Inv(t) && KeepsSerials(s, t)
    decreases |actions|
  {
    hide Inv, Apply, Enabled;
    if actions != [] {
      StepKeepsInv(s, actions[0]);
      RunKeepsInv(Apply(s, actions[0]), actions[1..], t);
    }
  }

  // --------------------------------------------------------------- nothing lost or doubled

  /** What the lookups of a run have found, in order. */
  ghost function FoundBy(s: State, actions: seq<Action>): seq<Delivery>
    decreases |actions|
  {
    if actions == [] || !Enabled(s, actions[0]) then []
    else
      var d := if actions[0].Notify? then Lookup(s, actions[0].token) else None;
      (if d.Some? then [d.value] else []) + FoundBy(Apply(s, actions[0]), actions[1..])
  }

  lemma StepDelivers(s: State, a: Action)
    requires Enabled(s, a)
    ensures var t := Apply(s, a); var d := if a.Notify? then Lookup(s, a.token) else None;
            multiset(t.held) + multiset(t.sent) ==
            multiset(s.held) + multiset(s.sent) + if d.Some? then multiset{d.value} else multiset{}
    ensures |Apply(s, a).sent| == |s.sent| + if a.Send? then 1 else 0
  {
    hide Lookup;
    if a.Send? {
      assert s.held == s.held[..a.k] + [s.held[a.k]] + s.held[a.k + 1..];
    }
  }

  lemma {:induction false} DeliveredFrom(s: State, actions: seq<Action>, t: State)
    requires Run(s, actions, t)
    ensures multiset(t.held) + multiset(t.sent) ==
            multiset(s.held) + multiset(s.sent) + multiset(FoundBy(s, actions))
    decreases |actions|
  {
    hide Lookup, Apply, Enabled;
    if actions != [] {
      StepDelivers(s, actions[0]);
      DeliveredFrom(Apply(s, actions[0]), actions[1..], t);
    }
  }

  /** Over all runs every notification that found its execute is held or sent, just once, and nothing else is. */
  lemma NotificationsConserved(actions: seq<Action>, t: State)
    requires Run(INITIAL, actions, t)
    ensures multiset(t.held) + multiset(t.sent) == multiset(FoundBy(INITIAL, actions))
  {
    hide Run, FoundBy;
    DeliveredFrom(INITIAL, actions, t);
  }

  // ----------------------------------------------------------------------- main results

  /** In every reachable state: a token minted for one execute is never another's, however long ago it was
      minted, so what was sent under it went to that execute; and an untokened notification went to an execute
      that was alone in flight. */
  lemma NotificationsReachTheirExecute(actions: seq<Action>, s: State, more: seq<Action>, t: State, id: Id, d: Delivery)
    requires Run(INITIAL, actions, s) && Run(s, more, t) && id in s.serial && d in t.sent
    ensures d.Tokened? && d.token == Token(s.serial[id]) ==> d.to == id
    ensures d.Untokened? ==> d.inFlight == {d.to}
  {
    assert Inv(INITIAL);
    RunKeepsInv(INITIAL, actions, s);
    RunKeepsInv(s, more, t);
    TokensDiffer(t);
  }

  /** What a lookup does in a reachable state: a token finds its execute exactly while that is registered, and
      traffic without a token is attributed exactly while one execute is in flight. */
  lemma LookupExact(actions: seq<Action>, s: State, id: Id)
    requires Run(INITIAL, actions, s) && id in s.serial
    ensures Lookup(s, Token(s.serial[id])) == if id in InFlight(s) then Some(Tokened(Token(s.serial[id]), id)) else None
    ensures Lookup(s, "") == Some(Untokened(id, {id})) <==> InFlight(s) == {id}
    ensures Lookup(s, "").Some? <==> |InFlight(s)| == 1
  {
    assert Inv(INITIAL);
    RunKeepsInv(INITIAL, actions, s);
    TokensDiffer(s);
    TokenInjective(s.serial[id], 0);
    LookupAttributed(s, "");
    RegistrySize(s);
    if InFlight(s) == {id} {
      assert |s.exec| == 1;
      forall t | t in s.exec
        ensures s.exec[t] == id
      {
        assert s.exec[t] in InFlight(s);
      }
    }
  }

  lemma RegistrySize(s: State)
    requires SerialsOk(s) && RegistryOk(s)
    ensures |s.exec| == |InFlight(s)|
  {
    TokensDiffer(s);
    IndexSize(s.exec, InFlight(s), s.serial);
    assert |s.exec| == |s.exec.Keys|;
  }

  lemma {:induction false} IndexSize(exec: map<string, Id>, ids: set<Id>, serial: map<Id, nat>)
    requires ids <= serial.Keys && TokensApart(serial) && Indexes(exec, ids, serial)
    ensures |exec.Keys| == |ids|
    decreases ids
  {
    hide Token;
    if ids == {} {
      assert exec.Keys == {};
    } else {
      var id :| id in ids;
      var t := Token(serial[id]);
      IndexDrop(exec, ids, serial, id);
      IndexSize(exec - {t}, ids - {id}, serial);
      assert (exec - {t}).Keys == exec.Keys - {t} && t in exec.Keys;
    }
  }

  // ------------------------------------------------------------------- the session object

  /** An execute in flight: which call it is and the token minted for it. */
  datatype SessionExec = SessionExec(id: Id, token: string)

  /** The ids the registry holds under each token. */
  function Ids(exec: map<string, SessionExec>): map<string, Id> {
    map t | t in exec :: exec[t].id
  }

  /** The session's fields; its methods take the steps above, those the source takes without the lock in
      between included. */
  class Session {
    var execSeq: nat
    var exec: map<string, SessionExec>
    ghost var state: State

    /** The fields are the state's, each entry names its own token, and the invariant holds. */
    ghost predicate Valid()
      reads this
    {
      && state.execSeq == execSeq && state.exec == Ids(exec) && Inv(state)
      && forall t :: t in exec ==> exec[t].token == t
    }

    /** `e` was handed out by this session. */
    ghost predicate Known(e: SessionExec)
      reads this`state
    {
      e.id in state.serial && e.token == Token(state.serial[e.id])
    }

    constructor ()
      ensures Valid() && state == INITIAL
    {
      execSeq, exec, state := 0, map[], INITIAL;
    }

    /** Mints a token, then registers the call under it; no registered execute has that token. */
    method RegisterExec(id: Id) returns (e: SessionExec)
      requires Valid() && id !in state.serial
      modifies this
      ensures Valid() && Enabled(old(state), Mint(id)) && Enabled(Apply(old(state), Mint(id)), Register(id))
      ensures state == Apply(Apply(old(state), Mint(id)), Register(id))
      ensures Known(e) && e.id == id && e.token !in old(exec) && exec == old(exec)[e.token := e]
    {
      hide Token, Inv;
      ghost var minted := Apply(state, Mint(id));
      StepKeepsInv(state, Mint(id));
      NotYetRegistered(minted, id);
      execSeq := execSeq + 1;
      e := SessionExec(id, Token(execSeq));
      StepKeepsInv(minted, Register(id));
      exec := exec[e.token := e];
      state := Apply(minted, Register(id));
      assert Ids(exec) == old(Ids(exec))[e.token := id];
    }

    /** The call's entry goes, if it is still there. */
    method UnregisterExec(e: Option<SessionExec>)
      requires Valid() && (e.Some? ==> Known(e.value))
      modifies this`exec, this`state
      ensures Valid() && exec == if e.None? then old(exec) else old(exec) - {e.value.token}
      ensures state == if e.Some? && Enabled(old(state), Unregister(e.value.id))
                       then Apply(old(state), Unregister(e.value.id)) else old(state)
    {
      hide Token, Inv;
      if e.Some? {
        ghost var id := e.value.id;
        RegisteredIffFlying(state, id);
        if Enabled(state, Unregister(id)) {
          StepKeepsInv(state, Unregister(id));
        }
        exec := exec - {e.value.token};
        assert Ids(exec) == old(Ids(exec)) - {e.value.token};
        state := if Enabled(state, Unregister(id)) then Apply(state, Unregister(id)) else state;
      }
    }

    method SoleExec() returns (e: Option<SessionExec>)
      requires Valid()
      ensures e.Some? <==> |exec| == 1
      ensures e.Some? ==> exec == map[e.value.token := e.value] && InFlight(state) == {e.value.id}
    {
      hide Token;
      if |exec| != 1 {
        return None;
      }
      var t :| t in exec;
      assert |exec.Keys - {t}| == 0;
      assert exec.Keys == {t};
      assert |state.exec| == |state.exec.Keys| && state.exec.Keys == {t};
      OnlyOneFlying(state, t);
      return Some(exec[t]);
    }

    /** Looks the notification up and sends it to the execute found, if any. */
    method RouteProgress(token: string) returns (to: Option<SessionExec>)
      requires Valid()
      modifies this`state
      ensures Valid() && to.Some? == Lookup(old(state), token).Some?
      ensures state == if to.None? then old(state) else Apply(Apply(old(state), Notify(token)), Send(|old(state).held|))
      ensures to.Some? ==> state.sent == old(state).sent + [Lookup(old(state), token).value]
                           && Lookup(old(state), token).value.to == to.value.id
    {
      hide Token, Inv;
      if token != "" {
        to := if token in exec then Some(exec[token]) else None;
      } else {
        to := SoleExec();
      }
      LookupSole(state, token);
      SizeOfIds(exec);
      if to.Some? {
        StepKeepsInv(state, Notify(token));
        ghost var held := Apply(state, Notify(token));
        StepKeepsInv(held, Send(|state.held|));
        state := Apply(held, Send(|state.held|));
      }
    }
  }

  lemma SizeOfIds(exec: map<string, SessionExec>)
    ensures |Ids(exec)| == |exec|
  {
    assert Ids(exec).Keys == exec.Keys && |Ids(exec)| == |Ids(exec).Keys| && |exec| == |exec.Keys|;
  }

  /** Without a token, the lookup finds the execute of the only entry. */
  lemma LookupSole(s: State, token: string)
    ensures token == "" && |s.exec| == 1 ==>
              Lookup(s, token).Some? && forall t :: t in s.exec ==> Lookup(s, token).value.to == s.exec[t]
  {
    if token == "" && |s.exec| == 1 {
      forall t, u | t in s.exec && u in s.exec
        ensures t == u
      {
        assert |s.exec.Keys - {t}| == 0;
      }
    }
  }

  lemma NotYetRegistered(s: State, id: Id)
    requires Inv(s) && id in s.phase && !s.phase[id].Registered?
    ensures id in s.serial && Token(s.serial[id]) !in s.exec
  {
    RegisteredIffFlying(s, id);
  }

  lemma RegisteredIffFlying(s: State, id: Id)
    requires Inv(s) && (id in s.phase || id in s.serial)
    ensures id in s.serial && id in s.phase && (Token(s.serial[id]) in s.exec <==> s.phase[id].Registered?)
  {
    TokensDiffer(s);
  }
}
