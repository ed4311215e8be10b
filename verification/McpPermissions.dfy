/** Pending permission decisions of the MCP bridge (cmd/criteria-adapter-mcp/bridge.go), over every
    interleaving: each waiting call has a channel of capacity one. */
module McpPermissions {
  import opened Names

  type RequestId = string

  /** An adapter session; each has its own permission stream, while the pending map belongs to the bridge. */
  type SessionId = nat

  /** One call's decision channel. */
  type Channel = nat

  datatype Decision = Allow | Deny

  datatype Fate = Waiting | InHand | Answered | Withdrawn | Replaced

  datatype Answer = Answer(ch: Channel, decision: Decision)

  /** `pending` is the bridge's map and `hands` the channels taken out of it whose send is still to come,
      since the send happens after the lock is released. `sent` and `received` are the channels' histories,
      `refused` the channels whose send found the buffer full. The rest is what happened: the id each channel
      was registered under and by which session, what has become of it, what the host said, which streams have
      ended, and whose end denied a channel. */
  datatype State = State(
    pending: map<RequestId, Channel>,
    hands: seq<Answer>,
    sent: seq<Answer>,
    received: set<Channel>,
    refused: set<Channel>,
    request: map<Channel, RequestId>,
    owner: map<Channel, SessionId>,
    fate: map<Channel, Fate>,
    told: set<(RequestId, Decision)>,
    ended: set<SessionId>,
    deniedBy: map<Channel, SessionId>)

  /** A call registering its fresh channel; a call giving up; the host's answer taking a channel under the
      lock; the send after it; the call reading its channel; the end of one session's stream answering all
      that is left in the map, in the order the map yields. */
  datatype Action =
    | Register(session: SessionId, id: RequestId, ch: Channel)
    | Cleanup(id: RequestId)
    | Take(id: RequestId, decision: Decision)
    | Put(k: nat)
    | Receive(ch: Channel)
    | Drain(session: SessionId, order: seq<RequestId>)

  ghost function Sent(s: State): set<Channel> {
    set a | a in s.sent :: a.ch
  }

  ghost predicate Enabled(s: State, a: Action) {
    match a
    case Register(_, _, ch) => ch !in s.request
    case Put(k) => k < |s.hands|
    case Receive(ch) => ch in Sent(s) - s.received
    case Drain(_, order) => (set id | id in order) == s.pending.Keys && forall i, j :: 0 <= i < j < |order| ==>
        order[i] != order[j]
    case _ => true
  }

  /** A send into a buffer of one: it goes through unless a decision is still unread. */
  ghost function Offer(s: State, a: Answer): State {
    if a.ch in Sent(s) - s.received then s.(refused := s.refused + {a.ch})
    else s.(sent := s.sent + [a], fate := s.fate[a.ch := Answered])
  }

  ghost function DrainOne(s: State, session: SessionId, id: RequestId): State {
    if id !in s.pending then s
    else
      var ch := s.pending[id];
      Offer(s, Answer(ch, Deny)).(pending := s.pending - {id}, deniedBy := s.deniedBy[ch := session])
  }

  ghost function DrainAll(s: State, session: SessionId, order: seq<RequestId>): State
    decreases |order|
  {
    if order == [] then s
    else DrainOne(DrainAll(s, session, order[..|order| - 1]), session, order[|order| - 1])
  }

  ghost function Ended(s: State, session: SessionId): State {
    s.(ended := s.ended + {session})
  }

  ghost function Apply(s: State, a: Action): State
    requires Enabled(s, a)
  {
    match a
    case Register(session, id, ch) =>
      s.(pending := s.pending[id := ch],
         request := s.request[ch := id],
         owner := s.owner[ch := session],
         fate := (if id in s.pending then s.fate[s.pending[id] := Replaced] else s.fate)[ch := Waiting])
    case Cleanup(id) =>
      if id in s.pending then s.(pending := s.pending - {id}, fate := s.fate[s.pending[id] := Withdrawn]) else s
    case Take(id, d) =>
      var heard := s.(told := s.told + {(id, d)});
      if id in s.pending then
        heard.(pending := s.pending - {id}, hands := s.hands + [Answer(s.pending[id], d)],
            fate := s.fate[s.pending[id] := InHand])
      else heard
    case Put(k) => Offer(s.(hands := s.hands[..k] + s.hands[k + 1..]), s.hands[k])
    case Receive(ch) => s.(received := s.received + {ch})
    case Drain(session, order) => DrainAll(Ended(s, session), session, order)
  }

  const INITIAL := State(map[], [], [], {}, {}, map[], map[], map[], {}, {}, map[])

  ghost predicate Run(s: State, actions: seq<Action>, t: State)
    decreases |actions|
  {
    if actions == [] then s == t
    else Enabled(s, actions[0]) && Run(Apply(s, actions[0]), actions[1..], t)
  }

  // -------------------------------------------------------------------------- invariant

  type Fates = map<Channel, Fate>

  ghost predicate Has(fate: Fates, ch: Channel, f: Fate) {
    ch in fate && fate[ch] == f
  }

  /** Exactly the waiting channels are pending, each under its own id. */
  ghost predicate PendingOk(pending: map<RequestId, Channel>, request: map<Channel, RequestId>, fate: Fates) {
    && fate.Keys == request.Keys
    && (forall id :: id in pending ==> Has(fate, pending[id], Waiting) && request[pending[id]] == id)
    && (forall ch :: Has(fate, ch, Waiting) ==> request[ch] in pending && pending[request[ch]] == ch)
  }

  ghost predicate OncePerChannel(answers: seq<Answer>) {
    forall i, j :: 0 <= i < j < |answers| ==> answers[i].ch != answers[j].ch
  }

  ghost predicate For(answers: seq<Answer>, ch: Channel) {
    exists a :: a in answers && a.ch == ch
  }

  /** The answers are for exactly the channels with the given fate, one each. */
  ghost predicate Holds(fate: Fates, answers: seq<Answer>, f: Fate) {
    && OncePerChannel(answers)
    && (forall a :: a in answers ==> Has(fate, a.ch, f))
    && (forall ch :: Has(fate, ch, f) ==> For(answers, ch))
  }

  /** A decision is the one the host gave for that request, or the denial at the end of a stream. */
  ghost predicate Authorized(s: State, a: Answer) {
    && a.ch in s.request
    && ((s.request[a.ch], a.decision) in s.told || (a.ch in s.deniedBy && a.decision == Deny))
  }

  /** Channels denied at the end of a stream are answered, and that stream has ended. */
  ghost predicate DeniedOk(s: State) {
    && s.owner.Keys == s.request.Keys
    && forall ch :: ch in s.deniedBy ==> ch in s.request && s.deniedBy[ch] in s.ended && Has(s.fate, ch, Answered)
  }

  ghost predicate Authentic(s: State) {
    forall a :: a in s.hands || a in s.sent ==> Authorized(s, a)
  }

  /** Another channel was registered under the same id. */
  ghost predicate Shared(request: map<Channel, RequestId>, ch: Channel) {
    ch in request && exists other :: other in request && other != ch && request[other] == request[ch]
  }

  ghost predicate ReplacedOk(request: map<Channel, RequestId>, fate: Fates) {
    forall ch :: Has(fate, ch, Replaced) ==> Shared(request, ch)
  }

  ghost predicate Inv(s: State) {
    && PendingOk(s.pending, s.request, s.fate)
    && Holds(s.fate, s.hands, InHand) && Holds(s.fate, s.sent, Answered)
    && Authentic(s) && DeniedOk(s) && ReplacedOk(s.request, s.fate)
    && s.refused == {} && s.received <= Sent(s)
  }

  // ------------------------------------------------------------ how each part moves

  lemma PendingAdd(pending: map<RequestId, Channel>, request: map<Channel, RequestId>, fate: Fates, id: RequestId,
                   ch: Channel)
    requires PendingOk(pending, request, fate) && ch !in request && id !in pending
    ensures PendingOk(pending[id := ch], request[ch := id], fate[ch := Waiting])
  {
  }

  lemma PendingDrop(pending: map<RequestId, Channel>, request: map<Channel, RequestId>, fate: Fates, id: RequestId,
                    f: Fate)
    requires PendingOk(pending, request, fate) && id in pending && f != Waiting
    ensures PendingOk(pending - {id}, request, fate[pending[id] := f])
  {
  }

  /** A fate other than `f`, for a channel whose fate was not `f`. */
  lemma HoldsElse(fate: Fates, answers: seq<Answer>, f: Fate, ch: Channel, g: Fate)
    requires Holds(fate, answers, f) && !Has(fate, ch, f) && g != f
    ensures Holds(fate[ch := g], answers, f)
  {
    hide For;
  }

  lemma HoldsMore(fate: Fates, answers: seq<Answer>, f: Fate, a: Answer)
    requires Holds(fate, answers, f) && !Has(fate, a.ch, f)
    ensures Holds(fate[a.ch := f], answers + [a], f)
  {
    var fate', answers' := fate[a.ch := f], answers + [a];
    forall ch | Has(fate', ch, f)
      ensures For(answers', ch)
    {
      if ch == a.ch {
        assert a in answers';
      } else {
        assert Has(fate, ch, f);
        var b :| b in answers && b.ch == ch;
        assert b in answers';
      }
    }
  }

  lemma HoldsLess(fate: Fates, answers: seq<Answer>, f: Fate, k: nat, g: Fate)
    requires Holds(fate, answers, f) && k < |answers| && g != f
    ensures Holds(fate[answers[k].ch := g], answers[..k] + answers[k + 1..], f)
  {
    var fate', rest := fate[answers[k].ch := g], answers[..k] + answers[k + 1..];
    forall a | a in rest
      ensures a in answers && a.ch != answers[k].ch
    {
      var i :| 0 <= i < |rest| && rest[i] == a;
      assert a == answers[if i < k then i else i + 1];
    }
    forall ch | Has(fate', ch, f)
      ensures For(rest, ch)
    {
      assert Has(fate, ch, f);
      var b :| b in answers && b.ch == ch;
      var i :| 0 <= i < |answers| && answers[i] == b;
      assert rest[if i < k then i else i - 1] == b;
    }
    OnceLess(answers, k);
  }

  lemma OnceLess(answers: seq<Answer>, k: nat)
    requires OncePerChannel(answers) && k < |answers|
    ensures OncePerChannel(answers[..k] + answers[k + 1..])
  {
    var rest := answers[..k] + answers[k + 1..];
    forall i, j | 0 <= i < j < |rest|
      ensures rest[i].ch != rest[j].ch
    {
      assert rest[i] == answers[if i < k then i else i + 1] && rest[j] == answers[if j < k then j else j + 1];
    }
  }

  lemma ReplacedElse(request: map<Channel, RequestId>, fate: Fates, ch: Channel, g: Fate)
    requires ReplacedOk(request, fate) && g != Replaced
    ensures ReplacedOk(request, fate[ch := g])
  {
    hide Shared;
  }

  lemma SharedKept(request: map<Channel, RequestId>, ch: Channel, added: Channel, id: RequestId)
    requires Shared(request, ch) && added !in request
    ensures Shared(request[added := id], ch)
  {
    var other :| other in request && other != ch && request[other] == request[ch];
    assert other in request[added := id];
  }

  // ------------------------------------------------------------------------- the steps

  lemma PendingFacts(s: State, id: RequestId)
    requires PendingOk(s.pending, s.request, s.fate) && id in s.pending
    ensures Has(s.fate, s.pending[id], Waiting) && s.pending[id] in s.request && s.request[s.pending[id]] == id
  {
  }

  /** A channel not yet answered has nothing in its buffer. */
  lemma NotSent(s: State, ch: Channel)
    requires Holds(s.fate, s.sent, Answered) && !Has(s.fate, ch, Answered)
    ensures ch !in Sent(s)
  {
  }

  lemma RegisterKeeps(s: State, session: SessionId, id: RequestId, ch: Channel)
    requires Inv(s) && ch !in s.request
    ensures Inv(Apply(s, Register(session, id, ch)))
  {
    hide Holds, PendingOk, ReplacedOk, Shared;
    var t := Apply(s, Register(session, id, ch));
    assert s.fate.Keys == s.request.Keys by { FateKeys(s); }
    var pending, fate := s.pending, s.fate;
    if id in s.pending {
      var was := s.pending[id];
      PendingFacts(s, id);
      PendingDrop(s.pending, s.request, s.fate, id, Replaced);
      HoldsElse(s.fate, s.hands, InHand, was, Replaced);
      HoldsElse(s.fate, s.sent, Answered, was, Replaced);
      pending, fate := s.pending - {id}, s.fate[was := Replaced];
    }
    PendingAdd(pending, s.request, fate, id, ch);
    assert pending[id := ch] == t.pending;
    HoldsElse(fate, s.hands, InHand, ch, Waiting);
    HoldsElse(fate, s.sent, Answered, ch, Waiting);
    RegisterReplaces(s, session, id, ch);
    assert Sent(t) == Sent(s);
  }

  lemma FateKeys(s: State)
    requires PendingOk(s.pending, s.request, s.fate)
    ensures s.fate.Keys == s.request.Keys
  {
  }

  lemma RegisterReplaces(s: State, session: SessionId, id: RequestId, ch: Channel)
    requires Inv(s) && ch !in s.request
    ensures var t := Apply(s, Register(session, id, ch)); ReplacedOk(t.request, t.fate)
  {
    var t := Apply(s, Register(session, id, ch));
    hide Holds, Authentic;
    forall x | Has(t.fate, x, Replaced)
      ensures Shared(t.request, x)
    {
      if Has(s.fate, x, Replaced) {
        SharedKept(s.request, x, ch, id);
      } else {
        PendingFacts(s, id);
        assert ch in t.request;
      }
    }
  }

  lemma CleanupKeeps(s: State, id: RequestId)
    requires Inv(s)
    ensures Inv(Apply(s, Cleanup(id)))
  {
    hide Holds, PendingOk, ReplacedOk, Shared;
    if id in s.pending {
      var ch := s.pending[id];
      PendingFacts(s, id);
      PendingDrop(s.pending, s.request, s.fate, id, Withdrawn);
      HoldsElse(s.fate, s.hands, InHand, ch, Withdrawn);
      HoldsElse(s.fate, s.sent, Answered, ch, Withdrawn);
      ReplacedElse(s.request, s.fate, ch, Withdrawn);
    }
  }

  lemma TakeKeeps(s: State, id: RequestId, d: Decision)
    requires Inv(s)
    ensures Inv(Apply(s, Take(id, d)))
  {
    hide Holds, PendingOk, ReplacedOk, Shared;
    var t := Apply(s, Take(id, d));
    assert Sent(t) == Sent(s);
    if id in s.pending {
      var ch := s.pending[id];
      PendingFacts(s, id);
      PendingDrop(s.pending, s.request, s.fate, id, InHand);
      HoldsMore(s.fate, s.hands, InHand, Answer(ch, d));
      HoldsElse(s.fate, s.sent, Answered, ch, InHand);
      ReplacedElse(s.request, s.fate, ch, InHand);
    }
  }

  lemma InHandFacts(s: State, k: nat)
    requires Holds(s.fate, s.hands, InHand) && k < |s.hands|
    ensures Has(s.fate, s.hands[k].ch, InHand)
  {
    assert s.hands[k] in s.hands;
  }

  lemma PendingUnmoved(pending: map<RequestId, Channel>, request: map<Channel, RequestId>, fate: Fates, ch: Channel,
                       f: Fate)
    requires PendingOk(pending, request, fate) && ch in fate && !Has(fate, ch, Waiting) && f != Waiting
    ensures PendingOk(pending, request, fate[ch := f])
  {
  }

  lemma PutKeeps(s: State, k: nat)
    requires Inv(s) && k < |s.hands|
    ensures Inv(Apply(s, Put(k)))
  {
    hide Holds, PendingOk, ReplacedOk, Shared, OncePerChannel;
    var t := Apply(s, Put(k));
    var a := s.hands[k];
    InHandFacts(s, k);
    NotSent(s, a.ch);
    HoldsLess(s.fate, s.hands, InHand, k, Answered);
    HoldsMore(s.fate, s.sent, Answered, a);
    PendingUnmoved(s.pending, s.request, s.fate, a.ch, Answered);
    ReplacedElse(s.request, s.fate, a.ch, Answered);
    SentMore(s.sent, a);
    assert Sent(t) == Sent(s) + {a.ch};
  }

  lemma SentMore(sent: seq<Answer>, a: Answer)
    ensures (set x | x in sent + [a] :: x.ch) == (set x | x in sent :: x.ch) + {a.ch}
  {
    assert a in sent + [a];
    forall x | x in sent
      ensures x in sent + [a]
    {
    }
  }

  lemma DrainOneKeeps(s: State, session: SessionId, id: RequestId)
    requires Inv(s) && session in s.ended
    ensures var t := DrainOne(s, session, id);
            Inv(t) && t.ended == s.ended && t.pending == s.pending - {id} && t.owner == s.owner
  {
    hide Holds, PendingOk, ReplacedOk, Shared, OncePerChannel;
    if id in s.pending {
      var t := DrainOne(s, session, id);
      var a := Answer(s.pending[id], Deny);
      PendingFacts(s, id);
      NotSent(s, a.ch);
      PendingDrop(s.pending, s.request, s.fate, id, Answered);
      HoldsElse(s.fate, s.hands, InHand, a.ch, Answered);
      HoldsMore(s.fate, s.sent, Answered, a);
      ReplacedElse(s.request, s.fate, a.ch, Answered);
      SentMore(s.sent, a);
      assert Sent(t) == Sent(s) + {a.ch};
    }
  }

  lemma {:induction false} DrainAllKeeps(s: State, session: SessionId, order: seq<RequestId>)
    requires Inv(s) && session in s.ended
    ensures var t := DrainAll(s, session, order);
            Inv(t) && t.ended == s.ended && t.pending == s.pending - (set id | id in order) && t.owner == s.owner
    decreases |order|
  {
    hide Inv, DrainOne;
    if order != [] {
      var init := order[..|order| - 1];
      assert order == init + [order[|order| - 1]];
      DrainAllKeeps(s, session, init);
      DrainOneKeeps(DrainAll(s, session, init), session, order[|order| - 1]);
    }
  }

  lemma EndKeeps(s: State, session: SessionId)
    requires Inv(s)
    ensures Inv(Ended(s, session))
  {
    hide Holds, PendingOk, ReplacedOk;
    assert Sent(Ended(s, session)) == Sent(s);
  }

  /** Every step keeps the invariant: no channel is ever offered a second decision. */
  lemma StepKeepsInv(s: State, a: Action)
    requires Inv(s) && Enabled(s, a)
    ensures Inv(Apply(s, a))
  {
    match a
    case Register(session, id, ch) => RegisterKeeps(s, session, id, ch);
    case Cleanup(id) => CleanupKeeps(s, id);
    case Take(id, d) => TakeKeeps(s, id, d);
    case Put(k) => PutKeeps(s, k);
    case Receive(ch) =>
      hide Holds, PendingOk, ReplacedOk;
      assert Sent(Apply(s, a)) == Sent(s);
    case Drain(session, order) =>
      hide Holds, PendingOk, ReplacedOk;
      EndKeeps(s, session);
      DrainAllKeeps(Ended(s, session), session, order);
  }

  lemma {:induction false} RunKeepsInv(s: State, actions: seq<Action>, t: State)
    requires Inv(s) && Run(s, actions, t)
    ensures Inv(t)
    decreases |actions|
  {
    hide Inv, Apply, Enabled;
    if actions != [] {
      StepKeepsInv(s, actions[0]);
      RunKeepsInv(Apply(s, actions[0]), actions[1..], t);
    }
  }

  // ----------------------------------------------------------------------- main results

  /** On every run each channel gets at most one decision and no send finds its buffer full, whether or not
      request ids are fresh. A decision that reaches a call is one the host gave for that call's request, or
      the denial at the stream's end. */
  lemma OneDecisionPerChannel(actions: seq<Action>, s: State)
    requires Run(INITIAL, actions, s)
    ensures s.refused == {} && OncePerChannel(s.sent)
    ensures forall a :: a in s.sent ==> Authorized(s, a)
  {
    RunKeepsInv(INITIAL, actions, s);
  }

  /** With fresh ids every registered channel has exactly one of four fates: still pending under
      its own id, in the hand of the host's answer, sent its decision, or withdrawn by its own call. */
  lemma FatesPartition(actions: seq<Action>, s: State, ch: Channel)
    requires Run(INITIAL, actions, s) && ch in s.request && !Shared(s.request, ch)
    ensures ch in s.fate && s.fate[ch] != Replaced
    ensures Has(s.fate, ch, Waiting) <==> s.request[ch] in s.pending && s.pending[s.request[ch]] == ch
    ensures Has(s.fate, ch, InHand) <==> For(s.hands, ch)
    ensures Has(s.fate, ch, Answered) <==> For(s.sent, ch)
  {
    RunKeepsInv(INITIAL, actions, s);
  }

  /** The end of any stream leaves nobody waiting: every pending channel, whichever session it belongs to, is sent a
      denial. */
  lemma DrainAnswersEveryone(actions: seq<Action>, s: State, session: SessionId, order: seq<RequestId>)
    requires Run(INITIAL, actions, s) && Enabled(s, Drain(session, order))
    ensures var t := Apply(s, Drain(session, order));
            && t.pending == map[]
            && forall id :: id in s.pending ==> Answer(s.pending[id], Deny) in t.sent
                                                && s.pending[id] in t.deniedBy && t.deniedBy[s.pending[id]] == session
  {
    RunKeepsInv(INITIAL, actions, s);
    hide Inv;
    EndKeeps(s, session);
    DrainAllKeeps(Ended(s, session), session, order);
    DrainSends(Ended(s, session), session, order);
  }

  ghost predicate DeniedIn(t: State, ch: Channel, session: SessionId) {
    Answer(ch, Deny) in t.sent && ch in t.deniedBy && t.deniedBy[ch] == session
  }

  lemma {:induction false} DrainSends(s: State, session: SessionId, order: seq<RequestId>)
    requires Inv(s) && session in s.ended
    ensures var t := DrainAll(s, session, order);
            && (forall ch :: DeniedIn(s, ch, session) ==> DeniedIn(t, ch, session))
            && (forall id :: id in s.pending && id in order ==> DeniedIn(t, s.pending[id], session))
            && (forall id :: id in t.pending ==> id in s.pending && t.pending[id] == s.pending[id])
    decreases |order|
  {
    if order != [] {
      var init, last := order[..|order| - 1], order[|order| - 1];
      var mid := DrainAll(s, session, init);
      assert order == init + [last];
      DrainAllKeeps(s, session, init);
      DrainSends(s, session, init);
      DrainOneSends(mid, session, last);
      hide Inv, DrainOne, DeniedIn;
    }
  }

  lemma DrainOneSends(s: State, session: SessionId, id: RequestId)
    requires Inv(s)
    ensures var t := DrainOne(s, session, id);
            && (forall ch :: DeniedIn(s, ch, session) ==> DeniedIn(t, ch, session))
            && (id in s.pending ==> DeniedIn(t, s.pending[id], session))
            && t.pending == s.pending - {id}
  {
    if id in s.pending {
      PendingFacts(s, id);
      NotSent(s, s.pending[id]);
      hide Inv;
      assert DrainOne(s, session, id).sent == s.sent + [Answer(s.pending[id], Deny)];
    }
  }

  // --------------------------------------------------------------- whose stream denies

  /** Every pending request belongs to the session. */
  ghost predicate OnlyOwn(s: State, session: SessionId) {
    forall id :: id in s.pending && s.pending[id] in s.owner ==> s.owner[s.pending[id]] == session
  }

  /** Along the run, every stream that ends finds only its own session's requests pending. */
  ghost predicate EndsAlone(s: State, actions: seq<Action>)
    decreases |actions|
  {
    actions != [] && Enabled(s, actions[0]) ==>
      && (actions[0].Drain? ==> OnlyOwn(s, actions[0].session))
      && EndsAlone(Apply(s, actions[0]), actions[1..])
  }

  /** Each denial at the end of a stream came from the request's own stream. */
  ghost predicate DeniedByOwn(s: State) {
    forall ch :: ch in s.deniedBy && ch in s.owner ==> s.deniedBy[ch] == s.owner[ch]
  }

  /** Over any run, requests are denied only by the end of their own stream exactly when every stream that ends finds
      no other session's request pending. */
  lemma OwnStreamIff(actions: seq<Action>, t: State)
    requires Run(INITIAL, actions, t)
    ensures DeniedByOwn(t) <==> EndsAlone(INITIAL, actions)
  {
    OwnStreamFrom(INITIAL, actions, t);
  }

  lemma {:induction false} OwnStreamFrom(s: State, actions: seq<Action>, t: State)
    requires Inv(s) && Run(s, actions, t)
    ensures DeniedByOwn(t) <==> DeniedByOwn(s) && EndsAlone(s, actions)
    decreases |actions|
  {
    hide Inv, Apply, Enabled, DeniedByOwn, OnlyOwn;
    if actions != [] {
      StepKeepsInv(s, actions[0]);
      StepOwn(s, actions[0]);
      OwnStreamFrom(Apply(s, actions[0]), actions[1..], t);
    }
  }

  lemma StepOwn(s: State, a: Action)
    requires Inv(s) && Enabled(s, a)
    ensures DeniedByOwn(Apply(s, a)) <==> DeniedByOwn(s) && (a.Drain? ==> OnlyOwn(s, a.session))
  {
    if a.Drain? {
      EndKeeps(s, a.session);
      DrainOwn(Ended(s, a.session), a.session, a.order);
      hide Inv;
      assert forall id :: id in s.pending <==> id in a.order;
    } else {
      hide Holds, ReplacedOk, Authentic, PendingOk;
    }
  }

  /** One more denial: a pending channel has not been denied before, so it is its owner that decides. */
  lemma DrainOneOwn(s: State, session: SessionId, id: RequestId)
    requires Inv(s)
    ensures DeniedByOwn(DrainOne(s, session, id)) <==>
            DeniedByOwn(s) && (id in s.pending && s.pending[id] in s.owner ==> s.owner[s.pending[id]] == session)
  {
    if id in s.pending {
      PendingFacts(s, id);
      NotSent(s, s.pending[id]);
      hide Holds, ReplacedOk, Authentic, PendingOk;
      var ch, t := s.pending[id], DrainOne(s, session, id);
      assert ch !in s.deniedBy && ch in s.owner;
      assert t.deniedBy == s.deniedBy[ch := session] && t.owner == s.owner;
    }
  }

  lemma {:induction false} DrainOwn(s: State, session: SessionId, order: seq<RequestId>)
    requires Inv(s) && session in s.ended
    ensures DeniedByOwn(DrainAll(s, session, order)) <==>
            && DeniedByOwn(s)
            && forall id :: id in order && id in s.pending && s.pending[id] in s.owner ==>
                s.owner[s.pending[id]] == session
    decreases |order|
  {
    hide Inv, DrainOne, DeniedByOwn, DeniedIn;
    if order != [] {
      var init, last := order[..|order| - 1], order[|order| - 1];
      assert order == init + [last];
      DrainAllKeeps(s, session, init);
      DrainSends(s, session, init);
      DrainOwn(s, session, init);
      DrainOneOwn(DrainAll(s, session, init), session, last);
    }
  }

  /** One session's stream can deny another's request: it ends while that request is pending, although the request's own
      stream is still open. */
  lemma OthersCanBeDenied(id: RequestId)
    ensures var run := [Register(1, id, 0), Drain(2, [id])];
            exists t :: Run(INITIAL, run, t) && Answer(0, Deny) in t.sent && 1 !in t.ended && t.deniedBy == map[0 := 2]
  {
    var s := Apply(INITIAL, Register(1, id, 0));
    assert (set x | x in [id]) == {id} && [id][..0] == [];
    var e := Ended(s, 2);
    assert DrainAll(e, 2, []) == e;
    var t := DrainAll(e, 2, [id]);
    assert t == DrainOne(e, 2, id);
    assert Sent(e) == {};
    RunOfTwo(INITIAL, Register(1, id, 0), s, Drain(2, [id]), t);
  }

  /** The step changes what is pending under `id`. */
  ghost predicate Touches(a: Action, id: RequestId) {
    match a
    case Register(_, i, _) => i == id
    case Cleanup(i) => i == id
    case Take(i, _) => i == id
    case Drain(_, _) => true
    case _ => false
  }

  ghost predicate Untouched(actions: seq<Action>, from: nat, id: RequestId) {
    forall j :: from <= j < |actions| ==> !Touches(actions[j], id)
  }

  /** The channel was registered, and nothing has touched its id since: no answer, no withdrawal, no other call under
      the id, and no stream's end. */
  ghost predicate LeftAlone(actions: seq<Action>, id: RequestId, ch: Channel, k: nat) {
    && k < |actions| && actions[k].Register? && actions[k].id == id && actions[k].ch == ch
    && Untouched(actions, k + 1, id)
  }

  ghost predicate PendingAs(s: State, id: RequestId, ch: Channel) {
    id in s.pending && s.pending[id] == ch
  }

  lemma {:induction false} DrainTakes(s: State, session: SessionId, order: seq<RequestId>)
    ensures DrainAll(s, session, order).pending == s.pending - set id | id in order
    decreases |order|
  {
    if order != [] {
      DrainTakes(s, session, order[..|order| - 1]);
    }
  }

  lemma StepPending(s: State, a: Action, id: RequestId, ch: Channel)
    requires Enabled(s, a)
    ensures !Touches(a, id) ==> (PendingAs(Apply(s, a), id, ch) <==> PendingAs(s, id, ch))
    ensures Touches(a, id) ==> (PendingAs(Apply(s, a), id, ch) <==> a.Register? && a.ch == ch)
  {
    if a.Drain? {
      DrainTakes(Ended(s, a.session), a.session, a.order);
    }
  }

  lemma {:induction false} PendingIff(s: State, actions: seq<Action>, t: State, id: RequestId, ch: Channel)
    requires Run(s, actions, t)
    ensures PendingAs(t, id, ch) <==>
            (PendingAs(s, id, ch) && Untouched(actions, 0, id)) || exists k :: LeftAlone(actions, id, ch, k)
    decreases |actions|
  {
    hide Enabled, Apply, Touches;
    if actions != [] {
      var a, rest := actions[0], actions[1..];
      StepPending(s, a, id, ch);
      PendingIff(Apply(s, a), rest, t, id, ch);
      FirstOrRest(actions, id, ch);
    }
  }

  lemma FirstOrRest(actions: seq<Action>, id: RequestId, ch: Channel)
    requires actions != []
    ensures Untouched(actions, 0, id) <==> !Touches(actions[0], id) && Untouched(actions[1..], 0, id)
    ensures (exists k :: LeftAlone(actions, id, ch, k)) <==>
            || (Touches(actions[0], id) && actions[0].Register? && actions[0].ch == ch
                && Untouched(actions[1..], 0, id))
            || exists k :: LeftAlone(actions[1..], id, ch, k)
  {
    var rest := actions[1..];
    assert forall j :: 0 < j < |actions| ==> actions[j] == rest[j - 1];
    assert forall j :: 0 <= j < |rest| ==> rest[j] == actions[j + 1];
    if k: nat :| LeftAlone(actions, id, ch, k) {
      if k > 0 {
        assert LeftAlone(rest, id, ch, k - 1);
      }
    }
    if k: nat :| LeftAlone(rest, id, ch, k) {
      assert LeftAlone(actions, id, ch, k + 1);
    }
    if actions[0].Register? && actions[0].id == id && actions[0].ch == ch && Untouched(rest, 0, id) {
      assert LeftAlone(actions, id, ch, 0);
    }
  }

  lemma {:induction false} DrainReceives(s: State, session: SessionId, order: seq<RequestId>)
    ensures DrainAll(s, session, order).received == s.received
    decreases |order|
  {
    if order != [] {
      DrainReceives(s, session, order[..|order| - 1]);
    }
  }

  lemma StepReceives(s: State, a: Action, ch: Channel)
    requires Enabled(s, a)
    ensures ch in Apply(s, a).received <==> ch in s.received || a == Receive(ch)
    ensures a == Receive(ch) ==> ch !in s.received
  {
    if a.Drain? {
      DrainReceives(Ended(s, a.session), a.session, a.order);
    }
  }

  lemma {:induction false} ReceivedFrom(s: State, actions: seq<Action>, t: State, ch: Channel)
    requires Run(s, actions, t)
    ensures ch in t.received <==> ch in s.received || Receive(ch) in actions
    ensures multiset(actions)[Receive(ch)] <= if ch in s.received then 0 else 1
    decreases |actions|
  {
    hide Apply, Enabled;
    if actions != [] {
      StepReceives(s, actions[0], ch);
      ReceivedFrom(Apply(s, actions[0]), actions[1..], t, ch);
      assert actions == [actions[0]] + actions[1..];
    }
  }

  /** Over all runs, a call reads its decision at most once, and only one that was sent. */
  lemma ReadAtMostOnce(actions: seq<Action>, t: State, ch: Channel)
    requires Run(INITIAL, actions, t)
    ensures ch in t.received <==> Receive(ch) in actions
    ensures multiset(actions)[Receive(ch)] <= 1
    ensures Receive(ch) in actions ==> ch in Sent(t)
  {
    hide Run;
    ReceivedFrom(INITIAL, actions, t, ch);
    RunKeepsInv(INITIAL, actions, t);
  }

  /** Over all runs, a request waits for a decision exactly when nothing has touched its id since it was registered. */
  lemma WaitingIff(actions: seq<Action>, t: State, id: RequestId, ch: Channel)
    requires Run(INITIAL, actions, t)
    ensures id in t.pending && t.pending[id] == ch <==> exists k :: LeftAlone(actions, id, ch, k)
  {
    hide LeftAlone, Run;
    PendingIff(INITIAL, actions, t, id, ch);
  }

  /** After the end of any stream, only requests registered since are waiting. */
  lemma OnlyLateRequestsWait(before: seq<Action>, s: State, session: SessionId, order: seq<RequestId>,
                             after: seq<Action>, t: State, id: RequestId)
    requires Run(INITIAL, before, s) && Enabled(s, Drain(session, order))
    requires Run(Apply(s, Drain(session, order)), after, t) && id in t.pending
    ensures t.pending[id] !in s.request
  {
    hide Run, Apply, Enabled;
    var drained := Apply(s, Drain(session, order));
    DrainAnswersEveryone(before, s, session, order);
    DrainRegisters(s, session, order);
    PendingIff(drained, after, t, id, t.pending[id]);
    var k :| LeftAlone(after, id, t.pending[id], k);
    RegisteredLater(drained, after, t, k);
  }

  lemma {:induction false} DrainRequests(s: State, session: SessionId, order: seq<RequestId>)
    ensures DrainAll(s, session, order).request == s.request
    decreases |order|
  {
    if order != [] {
      DrainRequests(s, session, order[..|order| - 1]);
    }
  }

  lemma DrainRegisters(s: State, session: SessionId, order: seq<RequestId>)
    requires Enabled(s, Drain(session, order))
    ensures Apply(s, Drain(session, order)).request == s.request
  {
    DrainRequests(Ended(s, session), session, order);
  }

  /** A channel registered during a run is new to it. */
  lemma {:induction false} RegisteredLater(s: State, actions: seq<Action>, t: State, k: nat)
    requires Run(s, actions, t) && k < |actions| && actions[k].Register?
    ensures actions[k].ch !in s.request
    decreases k
  {
    if k > 0 {
      RequestsGrow(s, actions[0]);
      RegisteredLater(Apply(s, actions[0]), actions[1..], t, k - 1);
    }
  }

  lemma RequestsGrow(s: State, a: Action)
    requires Enabled(s, a)
    ensures s.request.Keys <= Apply(s, a).request.Keys
  {
    if a.Drain? {
      DrainRegisters(s, a.session, a.order);
    }
  }

  /** A request registered after its own stream has ended waits: no end of that stream will answer it. */
  lemma LateRequestWaits(id: RequestId)
    ensures var run := [Drain(1, []), Register(1, id, 0)];
            exists t :: Run(INITIAL, run, t) && id in t.pending && t.owner == map[0 := 1] && 1 in t.ended &&
                Has(t.fate, 0, Waiting)
  {
    var none: seq<RequestId> := [];
    assert (set x | x in none) == {};
    var s := Apply(INITIAL, Drain(1, none));
    var t := Apply(s, Register(1, id, 0));
    RunOfTwo(INITIAL, Drain(1, none), s, Register(1, id, 0), t);
  }

  lemma RunOfTwo(s0: State, a: Action, s1: State, b: Action, s2: State)
    requires Enabled(s0, a) && s1 == Apply(s0, a) && Enabled(s1, b) && s2 == Apply(s1, b)
    ensures Run(s0, [a, b], s2)
  {
    hide Apply, Enabled;
    assert [a, b][1..] == [b] && [b][1..] == [];
    assert Run(s2, [], s2) && Run(s1, [b], s2);
  }

  // -------------------------------------------------------------------- the bridge object

  /** A channel of capacity one. */
  class DecisionChannel {
    ghost const number: Channel
    var buffer: Option<Decision>

    constructor (ghost number: Channel)
      ensures buffer == None && this.number == number
    {
      buffer := None;
      this.number := number;
    }

    /** A send that gives up when the buffer is full. */
    method Offer(d: Decision)
      modifies this
      ensures buffer == if old(buffer).None? then Some(d) else old(buffer)
    {
      if buffer.None? {
        buffer := Some(d);
      }
    }
  }

  /** The bridge's map; its methods take the steps above, the one after the lock is released included. */
  class Bridge {
    var pendingPerms: map<RequestId, DecisionChannel>
    ghost var state: State

    /** The map is the state's, the invariant holds, and no pending channel has anything in its buffer. */
    ghost predicate Valid()
      reads this, pendingPerms.Values
    {
      && Inv(state) && pendingPerms.Keys == state.pending.Keys
      && forall a :: a in pendingPerms ==> pendingPerms[a].number == state.pending[a] && pendingPerms[a].buffer.None?
    }

    constructor ()
      ensures Valid() && pendingPerms == map[] && state == INITIAL
    {
      pendingPerms, state := map[], INITIAL;
    }

    method RegisterPendingPerm(ghost session: SessionId, id: RequestId, ch: DecisionChannel)
      requires Valid() && ch.number !in state.request && ch.buffer.None?
      modifies this
      ensures Valid() && pendingPerms == old(pendingPerms)[id := ch]
      ensures state == Apply(old(state), Register(session, id, ch.number))
    {
      hide Inv;
      StepKeepsInv(state, Register(session, id, ch.number));
      pendingPerms := pendingPerms[id := ch];
      state := Apply(state, Register(session, id, ch.number));
    }

    method CleanupPendingPerm(id: RequestId)
      requires Valid()
      modifies this
      ensures Valid() && pendingPerms == old(pendingPerms) - {id}
      ensures state == Apply(old(state), Cleanup(id))
    {
      hide Inv;
      StepKeepsInv(state, Cleanup(id));
      pendingPerms := pendingPerms - {id};
      state := Apply(state, Cleanup(id));
    }

    /** Takes the request's channel out of the map and then sends: the decision lands in that channel and no other one
        changes. */
    method SendPermDecision(id: RequestId, decision: Decision)
      requires Valid()
      modifies this, pendingPerms.Values
      ensures Valid() && pendingPerms == old(pendingPerms) - {id}
      ensures state == if id in old(pendingPerms) then TakeAndPut(old(state), id, decision)
                       else Apply(old(state), Take(id, decision))
      ensures id in old(pendingPerms) ==> old(pendingPerms)[id].buffer == Some(decision)
                                          && Answer(old(pendingPerms)[id].number, decision) in state.sent
      ensures forall a :: a in old(pendingPerms) && a != id ==>
                            old(pendingPerms)[a].buffer == old(pendingPerms[a].buffer)
    {
      hide Inv;
      StepKeepsInv(state, Take(id, decision));
      if id in pendingPerms {
        var ch := pendingPerms[id];
        TakeAndPutKeeps(state, id, decision);
        OneChannelEach(state);
        pendingPerms := pendingPerms - {id};
        state := TakeAndPut(state, id, decision);
        ch.Offer(decision);
      } else {
        state := Apply(state, Take(id, decision));
      }
    }

    /** Every pending channel is sent a denial, whatever order the map yields them in. */
    method DrainPendingPerms(ghost session: SessionId) returns (ghost order: seq<RequestId>)
      requires Valid()
      modifies this, pendingPerms.Values
      ensures Valid() && pendingPerms == map[]
      ensures Enabled(old(state), Drain(session, order)) && state == Apply(old(state), Drain(session, order))
      ensures forall a :: a in old(pendingPerms) ==> old(pendingPerms)[a].buffer == Some(Deny)
    {
      hide Inv, DrainOne, DrainAll, Lists;
      ghost var before := pendingPerms;
      EndKeeps(state, session);
      state := Ended(state, session);
      order := [];
      DrainNothing(state, session);
      assert before.Keys - pendingPerms.Keys == {};
      while pendingPerms != map[]
        invariant Valid() && session in state.ended && pendingPerms.Keys <= before.Keys
        invariant forall a :: a in pendingPerms ==> pendingPerms[a] == before[a]
        invariant forall a :: a in before && a !in pendingPerms ==> before[a].buffer == Some(Deny)
        invariant Lists(order, before.Keys - pendingPerms.Keys)
        invariant state == DrainAll(Ended(old(state), session), session, order)
        decreases pendingPerms.Keys
      {
        assert pendingPerms.Keys != {};
        var id :| id in pendingPerms;
        DrainOneMore(Ended(old(state), session), session, order, id);
        ListsMore(order, before.Keys - pendingPerms.Keys, id);
        assert before.Keys - (pendingPerms.Keys - {id}) == before.Keys - pendingPerms.Keys + {id};
        DenyOne(session, id);
        order := order + [id];
      }
      assert before.Keys - pendingPerms.Keys == old(state).pending.Keys;
      ListsAll(old(state), session, order);
    }

    /** One turn of the loop of drainPendingPerms. */
    method DenyOne(ghost session: SessionId, id: RequestId)
      requires Valid() && session in state.ended && id in pendingPerms
      modifies this, pendingPerms[id]
      ensures Valid() && state == DrainOne(old(state), session, id) && session in state.ended
      ensures pendingPerms == old(pendingPerms) - {id} && old(pendingPerms)[id].buffer == Some(Deny)
      ensures forall a :: a in pendingPerms ==> pendingPerms[a] != old(pendingPerms)[id]
    {
      hide Inv, DrainOne;
      DrainOneKeeps(state, session, id);
      OneChannelEach(state);
      pendingPerms[id].Offer(Deny);
      pendingPerms := pendingPerms - {id};
      state := DrainOne(state, session, id);
    }
  }

  /** Each id once. */
  ghost predicate Lists(order: seq<RequestId>, ids: set<RequestId>) {
    (set id | id in order) == ids && forall i, j :: 0 <= i < j < |order| ==> order[i] != order[j]
  }

  lemma ListsMore(order: seq<RequestId>, ids: set<RequestId>, id: RequestId)
    requires Lists(order, ids) && id !in ids
    ensures Lists(order + [id], ids + {id})
  {
  }

  lemma DrainNothing(s: State, session: SessionId)
    ensures DrainAll(s, session, []) == s && Lists([], {})
  {
  }

  lemma ListsAll(s: State, session: SessionId, order: seq<RequestId>)
    requires Lists(order, s.pending.Keys)
    ensures Enabled(s, Drain(session, order))
  {
  }

  lemma DrainOneMore(s: State, session: SessionId, order: seq<RequestId>, id: RequestId)
    ensures DrainAll(s, session, order + [id]) == DrainOne(DrainAll(s, session, order), session, id)
  {
    assert (order + [id])[..|order|] == order;
  }

  lemma OneChannelEach(s: State)
    requires Inv(s)
    ensures forall a, b :: a in s.pending && b in s.pending && s.pending[a] == s.pending[b] ==> a == b
  {
    hide Holds, ReplacedOk, Authentic;
  }

  /** The locked step and the send after it, with nothing in between. */
  ghost function TakeAndPut(s: State, id: RequestId, d: Decision): State
    requires id in s.pending
  {
    Apply(Apply(s, Take(id, d)), Put(|s.hands|))
  }

  lemma TakeAndPutKeeps(s: State, id: RequestId, d: Decision)
    requires Inv(s) && id in s.pending
    ensures var t := TakeAndPut(s, id, d);
            Inv(t) && t.pending == s.pending - {id} && Answer(s.pending[id], d) in t.sent
  {
    var mid := Apply(s, Take(id, d));
    StepKeepsInv(s, Take(id, d));
    InHandFacts(mid, |s.hands|);
    NotSent(mid, s.pending[id]);
    StepKeepsInv(mid, Put(|s.hands|));
    hide Inv;
  }
}
