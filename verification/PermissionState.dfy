/** The session's permission state as an object (internal/adapterhost/permission_state.go). Each method is one
    critical section, or a sequence of them where the source releases the mutex in between; the registry methods
    are the actions of PauseProtocol, the log methods those of Decisions. */
module PermissionStates {
  import opened Names
  import opened PauseProtocol
  import opened Decisions

  /** The policy in force when none was configured. */
  function DenyAll(requestId: Name, tool: Name, command: Name): (bool, Name) {
    (false, "no matching allow_tools entry")
  }

  function InForce(policy: Option<Policy>): Policy {
    if policy.Some? then policy.value else DenyAll
  }

  class PermissionState {
    var inflight: map<Name, Request>
    var decisions: seq<Decision>
    var policy: Option<Policy>
    var audited: bool
    var active: bool
    var streamOpen: bool
    var pending: map<Name, Call>
    var gate: bool
    var nextSerial: nat
    var settledClosed: seq<nat>
    // what left the object: events offered to the stream, audit entries written, and stream cancellations, which
    // happen only once a cancel function has been set
    var outbox: seq<Answer>
    var audits: seq<Decision>
    var cancelSet: bool
    var cancellations: nat
    ghost var history: seq<Decision>
    ghost var registry: PauseProtocol.State

    /** The registry fields are the state of PauseProtocol, and its invariant holds. */
    ghost predicate RegistryOk()
      reads this`registry, this`pending, this`gate, this`settledClosed, this`nextSerial
    {
      && registry.pending == pending && registry.gate == gate && registry.closed == settledClosed
      && |registry.issued| == nextSerial && PauseProtocol.Inv(registry)
    }

    ghost function Log(): Decisions.Log
      reads this`inflight, this`decisions, this`history
    {
      Decisions.Log(inflight, decisions, history)
    }

    ghost predicate Valid()
      reads this`registry, this`pending, this`gate, this`settledClosed, this`nextSerial
      reads this`inflight, this`decisions, this`history
    {
      RegistryOk() && Faithful(Log())
    }

    constructor (audited: bool)
      ensures Valid() && registry == PauseProtocol.Init && Log() == Decisions.Log(map[], [], [])
      ensures !active && streamOpen && this.audited == audited && policy == None
      ensures outbox == [] && audits == [] && !cancelSet && cancellations == 0
    {
      inflight, decisions, policy, this.audited := map[], [], None, audited;
      active, streamOpen, pending, gate := false, true, map[], false;
      nextSerial, settledClosed, outbox, audits := 0, [], [], [];
      cancelSet, cancellations := false, 0;
      history := [];
      registry := PauseProtocol.Init;
      new;
      InitInv();
    }

    // ------------------------------------------------------------ tool-call registry

    /** First registration wins; a new call is refused exactly when the pause gate is set. */
    method RegisterPendingToolCall(requestId: Name, target: Name, cancelable: bool) returns (ok: bool)
      requires Valid()
      modifies this`pending, this`nextSerial, this`registry
      ensures Valid()
      ensures (registry, ok) == ApplyRegister(old(registry), requestId, target, cancelable)
      ensures ok <==> old(requestId in pending) || !gate
      ensures pending == if old(requestId in pending) || gate then old(pending)
                         else old(pending)[requestId := Call(old(nextSerial), requestId, target, cancelable)]
    {
      RegisterKeeps(registry, requestId, target, cancelable);
      ghost var next := ApplyRegister(registry, requestId, target, cancelable).0;
      if requestId in pending {
        return true;
      }
      if gate {
        return false;
      }
      pending := pending[requestId := Call(nextSerial, requestId, target, cancelable)];
      nextSerial := nextSerial + 1;
      registry := next;
      return true;
    }

    /** The call settled: its entry goes and its marker is closed. The guard against closing twice never fires. */
    method ClearPendingToolCall(requestId: Name)
      requires Valid()
      modifies this`pending, this`settledClosed, this`registry
      ensures Valid() && registry == ApplyClear(old(registry), requestId) && pending == old(pending) - {requestId}
      ensures old(requestId in pending && pending[requestId].cancelable) ==>
                settledClosed == old(settledClosed + [pending[requestId].serial])
    {
      ClearKeeps(registry, requestId);
      if requestId in pending {
        var call := pending[requestId];
        PendingNotClosed(registry, requestId);
        registry := ApplyClear(registry, requestId);
        if call.cancelable && call.serial !in settledClosed {
          settledClosed := settledClosed + [call.serial];
        }
        pending := pending - {requestId};
      }
    }

    /** The entries currently pending, each once, in map order. */
    method SnapshotPendingToolCalls() returns (snapshot: seq<Call>)
      requires Valid()
      ensures Lists(snapshot, Calls(registry))
    {
      hide OneFate, ClosedOnce, DrainOk;
      snapshot := ListCalls(pending);
      CallsSize(registry);
    }

    /** Session close: every call still pending is taken out and returned, and nothing is pending afterwards. */
    method DrainPendingToolCalls() returns (drained: seq<Call>)
      requires Valid()
      modifies this`pending, this`registry
      ensures Valid() && registry == Apply(old(registry), CloseSession) && pending == map[]
      ensures registry.abandoned == old(registry.abandoned) + set c | c in drained :: c.serial
      ensures Lists(drained, Calls(old(registry)))
    {
      drained := SnapshotPendingToolCalls();
      CloseKeeps(registry);
      CloseTakesAll(registry);
      assert Serials(Calls(registry)) == set c | c in drained :: c.serial;
      registry := Apply(registry, CloseSession);
      pending := map[];
    }

    method BeginToolCallPause()
      requires Valid()
      modifies this`gate, this`registry
      ensures Valid() && registry == Apply(old(registry), SetGate)
    {
      GateKeeps(registry);
      registry := Apply(registry, SetGate);
      gate := true;
    }

    method ResumeToolCalls()
      requires Valid()
      modifies this`gate, this`registry
      ensures Valid() && registry == Apply(old(registry), LiftGate)
    {
      GateKeeps(registry);
      registry := Apply(registry, LiftGate);
      gate := false;
    }

    /** The stream is started: events go out from now on, and there is something to cancel. */
    method SetStreamCancel()
      modifies this`cancelSet, this`active
      ensures cancelSet && active
    {
      cancelSet := true;
      active := true;
    }

    /** Gate and stream flag change together, so nothing can be registered in between; then the stream is canceled. */
    method Pause()
      requires Valid()
      modifies this`gate, this`active, this`registry, this`cancellations
      ensures Valid() && registry == Apply(old(registry), SetGate) && !active
      ensures cancellations == old(cancellations) + if cancelSet then 1 else 0
    {
      GateKeeps(registry);
      registry := Apply(registry, SetGate);
      gate := true;
      active := false;
      if cancelSet {
        cancellations := cancellations + 1;
      }
    }

    method Resume()
      requires Valid()
      modifies this`gate, this`active, this`registry
      ensures Valid() && registry == Apply(old(registry), LiftGate) && active
    {
      GateKeeps(registry);
      registry := Apply(registry, LiftGate);
      active := true;
      gate := false;
    }

    /** Close the stream, then audit what was in flight: once for requests, once per abandoned tool call. */
    method Stop() returns (ghost drained: seq<Call>)
      requires Valid()
      modifies this`active, this`streamOpen, this`audits, this`pending, this`registry, this`cancellations
      ensures Valid() && registry == Apply(old(registry), CloseSession) && !active && !streamOpen
      ensures pending == map[] && registry.abandoned == old(registry.abandoned) + set c | c in drained :: c.serial
      ensures cancellations == old(cancellations) + if cancelSet then 1 else 0
      ensures Lists(drained, Calls(old(registry)))
      ensures !audited ==> audits == old(audits)
      ensures audited ==> old(audits) <= audits && ClosingAudits(audits[|old(audits)|..], |inflight|, drained)
    {
      hide RegistryOk, Faithful, Calls, Lists, Apply, Log, ClosingAudits;
      active := false;
      if cancelSet {
        cancellations := cancellations + 1;
      }
      streamOpen := false;
      drained := AuditClose();
    }

    /** The audit at session close. */
    method AuditClose() returns (ghost drained: seq<Call>)
      requires Valid()
      modifies this`audits, this`pending, this`registry
      ensures Valid() && registry == Apply(old(registry), CloseSession)
      ensures pending == map[] && registry.abandoned == old(registry.abandoned) + set c | c in drained :: c.serial
      ensures Lists(drained, Calls(old(registry)))
      ensures !audited ==> audits == old(audits)
      ensures audited ==> old(audits) <= audits && ClosingAudits(audits[|old(audits)|..], |inflight|, drained)
    {
      hide RegistryOk, Faithful, Calls, Lists, Apply, Log, OpenRequestAudit, AbandonedAudits, ClosingAudits;
      ghost var before := audits;
      audits := audits + OpenRequestAudit(audited, |inflight|);
      var calls := DrainPendingToolCalls();
      AuditAbandoned(calls);
      AuditsAtClose(before, audited, |inflight|, calls);
      return calls;
    }

    method AuditAbandoned(drained: seq<Call>)
      modifies this`audits
      ensures audits == old(audits) + AbandonedAudits(audited, drained)
    {
      for i := 0 to |drained|
        invariant audits == old(audits) + AbandonedAudits(audited, drained[..i])
      {
        assert drained[..i + 1][..i] == drained[..i];
        if audited {
          audits := audits + [Abandoned(drained[i])];
        }
      }
      assert drained[..|drained|] == drained;
    }

    // ------------------------------------------------------------------ decisions

    /** The policy of the call, or else the session's, decides; record, tell the adapter if a stream is live, audit. */
    method EvaluateAtLayerWithPolicy(callPolicy: Option<Policy>, requestId: Name, tool: Name, argsDigest: Name,
                                     fullCommand: Name, layer: int)
      returns (allow: bool, reason: Name)
      requires Valid()
      modifies this`inflight, this`decisions, this`history, this`outbox, this`audits
      ensures Valid()
      ensures callPolicy.Some? ==> (allow, reason) == callPolicy.value(requestId, tool, fullCommand)
      ensures callPolicy.None? && policy.Some? ==> (allow, reason) == policy.value(requestId, tool, fullCommand)
      ensures callPolicy.None? && policy.None? ==> (allow, reason) == (false, "no matching allow_tools entry")
      ensures var d := Decision(requestId, tool, argsDigest, if allow then "allow" else "deny", reason, layer);
              Log() == Record(old(Log()), d) && audits == old(audits) + if audited then [d] else []
      ensures outbox == old(outbox) + if active && streamOpen then [Answer(requestId, allow, reason)] else []
    {
      hide RegistryOk, Faithful, Record, Log;
      var v := InForce(if callPolicy.Some? then callPolicy else policy)(requestId, tool, fullCommand);
      allow, reason := v.0, v.1;
      RecordDecision(requestId, tool, argsDigest, allow, reason, layer);
      SendEvent(requestId, allow, reason);
      if audited {
        audits := audits + [Decision(requestId, tool, argsDigest, Verdict(allow), reason, layer)];
      }
    }

    method RecordDecision(requestId: Name, tool: Name, argsDigest: Name, allow: bool, reason: Name, layer: int)
      requires Valid()
      modifies this`inflight, this`decisions, this`history
      ensures Valid()
      ensures var d := Decision(requestId, tool, argsDigest, if allow then "allow" else "deny", reason, layer);
              Log() == Record(old(Log()), d)
    {
      hide RegistryOk, Faithful;
      var entry := Decision(requestId, tool, argsDigest, Verdict(allow), reason, layer);
      RecordKeepsFaithful(Log(), entry);
      inflight := inflight[requestId := Request(requestId, tool, argsDigest, Verdict(allow), reason)];
      decisions := decisions + [entry];
      if |decisions| > WINDOW {
        decisions := decisions[|decisions| - WINDOW..];
      }
      history := history + [entry];
    }

    /** Dropped silently unless the stream is live. */
    method SendEvent(requestId: Name, allow: bool, reason: Name)
      modifies this`outbox
      ensures outbox == old(outbox) + if active && streamOpen then [Answer(requestId, allow, reason)] else []
    {
      if active && streamOpen {
        outbox := outbox + [Answer(requestId, allow, reason)];
      }
    }

    /** The in-flight requests and the window; JSON encoding is the identity here. */
    method MarshalState() returns (snap: Snapshot)
      requires Valid()
      ensures SnapshotOf(snap, Log())
    {
      hide Inv;
      var reqs := ListRequests(inflight);
      snap := Snapshot.Snapshot(1, reqs, decisions);
    }

    /** Rehydrate from a snapshot. An unknown version changes nothing; otherwise the registry is emptied,
        and every listed request is answered from the window or put to the new policy. */
    method RestoreState(snap: Snapshot, newPolicy: Option<Policy>, newAudited: bool) returns (ok: bool)
      requires Valid()
      modifies this`policy, this`audited, this`inflight, this`decisions, this`history
      modifies this`registry, this`pending, this`outbox, this`audits
      ensures Valid() && ok == (snap.version == 1)
      ensures !ok ==> Log() == old(Log()) && registry == old(registry) && outbox == old(outbox) && audits == old(audits)
      ensures ok ==> registry == Apply(old(registry), Restore) && pending == map[]
      ensures ok ==> Log() == RestoredLog(snap, InForce(newPolicy), |snap.inflight|)
      ensures ok ==> outbox == old(outbox) + if old(active && streamOpen)
                               then RestoredAnswers(snap.decisions, InForce(newPolicy), snap.inflight)
                               else []
      ensures ok ==> audits == old(audits) + if newAudited
                               then RestoredAudits(snap.decisions, InForce(newPolicy), snap.inflight)
                               else []
    {
      hide RegistryOk, Faithful, Apply, RestoredLog, RestoredAnswers, RestoredAudits, Latest, InForce, Log;
      if snap.version != 1 {
        return false;
      }
      Rehydrate(snap, newPolicy, newAudited);
      var answered := BuildAnswered(snap.decisions);
      ReplayInflight(snap, answered);
      return true;
    }

    /** The critical section of RestoreState. */
    method Rehydrate(snap: Snapshot, newPolicy: Option<Policy>, newAudited: bool)
      requires Valid()
      modifies this`policy, this`audited, this`inflight, this`decisions, this`history, this`registry, this`pending
      ensures Valid() && policy == newPolicy && audited == newAudited
      ensures registry == Apply(old(registry), Restore) && Log() == RestoredLog(snap, InForce(newPolicy), 0)
      ensures pending == map[]
    {
      hide Inv, Faithful, Apply, RestoredLog, InForce;
      RestoreRegistry(registry);
      RestoredStart(snap, InForce(newPolicy));
      policy := newPolicy;
      audited := newAudited;
      inflight := map[];
      decisions := snap.decisions;
      history := snap.decisions;
      registry := Apply(registry, Restore);
      pending := map[];
    }

    /** The loop of RestoreState over the snapshot's in-flight requests. */
    method ReplayInflight(snap: Snapshot, answered: map<Name, Decision>)
      requires Valid() && Log() == RestoredLog(snap, InForce(policy), 0)
      requires forall id :: id in answered <==> Latest(snap.decisions, id).Some?
      requires forall id :: id in answered ==> answered[id] == Latest(snap.decisions, id).value
      modifies this`inflight, this`decisions, this`history, this`outbox, this`audits
      ensures Valid() && Log() == RestoredLog(snap, InForce(policy), |snap.inflight|)
      ensures outbox == old(outbox) + if active && streamOpen
                          then RestoredAnswers(snap.decisions, InForce(policy), snap.inflight) else []
      ensures audits == old(audits) + if audited
                          then RestoredAudits(snap.decisions, InForce(policy), snap.inflight) else []
    {
      hide RegistryOk, Faithful, RestoredLog, RestoredAnswers, RestoredAudits, Latest, InForce, Record, Log;
      ghost var decide := InForce(policy);
      NoAnswersYet(snap, decide);
      for i := 0 to |snap.inflight|
        invariant Valid() && Log() == RestoredLog(snap, decide, i)
        invariant outbox == old(outbox) + if active && streamOpen
                            then RestoredAnswers(snap.decisions, decide, snap.inflight[..i]) else []
        invariant audits == old(audits) + if audited
                            then RestoredAudits(snap.decisions, decide, snap.inflight[..i]) else []
      {
        RestoredStep(snap, decide, i);
        ReplayOne(snap, answered, i);
      }
      assert snap.inflight[..|snap.inflight|] == snap.inflight;
    }

    method ReplayOne(snap: Snapshot, answered: map<Name, Decision>, i: nat)
      requires i < |snap.inflight| && Valid() && Log() == RestoredLog(snap, InForce(policy), i)
      requires forall id :: id in answered <==> Latest(snap.decisions, id).Some?
      requires forall id :: id in answered ==> answered[id] == Latest(snap.decisions, id).value
      modifies this`inflight, this`decisions, this`history, this`outbox, this`audits
      ensures Valid() && Log() == RestoredLog(snap, InForce(policy), i + 1)
      ensures outbox == old(outbox) + if active && streamOpen
                          then [RestoredAnswer(snap.decisions, InForce(policy), snap.inflight[i])] else []
      ensures audits == old(audits) + if audited
                          then [RestoredAudit(snap.decisions, InForce(policy), snap.inflight[i])] else []
    {
      hide RegistryOk, Faithful, RestoredLog, RestoredAnswers, RestoredAudits, Latest, InForce, Record, Log;
      var r := snap.inflight[i];
      RestoredStep(snap, InForce(policy), i);
      if r.requestId in answered {
        var d := answered[r.requestId];
        SendEvent(r.requestId, d.verdict == "allow", d.reason);
        if audited {
          audits := audits + [Decision(r.requestId, r.tool, r.argsDigest, d.verdict, "restored: " + d.reason, 0)];
        }
      } else {
        PolicyInForce(policy, r.requestId, r.tool);
        var allow, reason := EvaluateAtLayerWithPolicy(None, r.requestId, r.tool, r.argsDigest, "", 0);
      }
    }
  }

  /** From one adapter to the next: what the first was told about a request is what the second is told when the
      session's snapshot is restored for it, whatever policy it runs under. */
  method HandOver(from: PermissionState, to: PermissionState, r: SnapshotRequest, fullCommand: Name, layer: int,
                  newPolicy: Option<Policy>, newAudited: bool)
    returns (allow: bool, reason: Name)
    requires from != to && from.Valid() && to.Valid()
    modifies from, to
    ensures old(from.active && from.streamOpen) ==>
              from.outbox == old(from.outbox) + [Answer(r.requestId, allow, reason)]
    ensures old(to.active && to.streamOpen) ==>
              old(to.outbox) <= to.outbox && Answer(r.requestId, allow, reason) in to.outbox[|old(to.outbox)|..]
  {
    hide PermissionState.RegistryOk, Faithful, Apply, RestoredLog, Latest, InForce, Record, SnapshotOf;
    ghost var before := from.Log();
    FaithfulLog(from);
    allow, reason := from.EvaluateAtLayerWithPolicy(None, r.requestId, r.tool, r.argsDigest, fullCommand, layer);
    var snap := from.MarshalState();
    ghost var i := AnswerSurvivesRestore(before, r, allow, reason, layer, [], snap, InForce(newPolicy));
    SnapshotVersion(snap, from.Log());
    var ok := to.RestoreState(snap, newPolicy, newAudited);
  }

  lemma FaithfulLog(p: PermissionState)
    requires p.Valid()
    ensures Faithful(p.Log())
  {
  }

  lemma SnapshotVersion(snap: Snapshot, l: Decisions.Log)
    requires SnapshotOf(snap, l)
    ensures snap.version == 1
  {
  }

  lemma PolicyInForce(policy: Option<Policy>, requestId: Name, tool: Name)
    ensures policy.Some? ==> InForce(policy)(requestId, tool, "") == policy.value(requestId, tool, "")
    ensures policy.None? ==> InForce(policy)(requestId, tool, "") == (false, "no matching allow_tools entry")
  {
  }

  lemma NoAnswersYet(snap: Snapshot, policy: Policy)
    ensures RestoredAnswers(snap.decisions, policy, snap.inflight[..0]) == []
    ensures RestoredAudits(snap.decisions, policy, snap.inflight[..0]) == []
  {
  }

  /** The range loop over the pending map: each entry once, in any order. */
  method ListCalls(pending: map<Name, Call>) returns (calls: seq<Call>)
    ensures |calls| == |pending| && (set c | c in calls) == (set k | k in pending :: pending[k])
  {
    var todo := pending.Keys;
    calls := [];
    while todo != {}
      invariant todo <= pending.Keys && |calls| + |todo| == |pending|
      invariant forall c :: c in calls ==> exists k :: k in pending && pending[k] == c
      invariant forall k :: k in pending && k !in todo ==> pending[k] in calls
      decreases todo
    {
      var k :| k in todo;
      calls := calls + [pending[k]];
      todo := todo - {k};
    }
  }

  /** The range loop over the in-flight map. */
  method ListRequests(inflight: map<Name, Request>) returns (reqs: seq<SnapshotRequest>)
    requires forall id :: id in inflight ==> inflight[id].requestId == id
    ensures ListsInflight(reqs, inflight)
  {
    var todo := inflight.Keys;
    reqs := [];
    while todo != {}
      invariant todo <= inflight.Keys && |reqs| + |todo| == |inflight|
      invariant forall i :: 0 <= i < |reqs| ==>
                              reqs[i].requestId in inflight && reqs[i].requestId !in todo
                              && reqs[i] == Listed(inflight[reqs[i].requestId])
      invariant forall i, j :: 0 <= i < j < |reqs| ==> reqs[i].requestId != reqs[j].requestId
      decreases todo
    {
      var id :| id in todo;
      reqs := reqs + [Listed(inflight[id])];
      todo := todo - {id};
    }
  }

  /** The lookup of previously answered requests: later decisions overwrite earlier ones. */
  method BuildAnswered(decisions: seq<Decision>) returns (answered: map<Name, Decision>)
    ensures forall id :: id in answered <==> Latest(decisions, id).Some?
    ensures forall id :: id in answered ==> answered[id] == Latest(decisions, id).value
  {
    answered := map[];
    for i := 0 to |decisions|
      invariant forall id :: id in answered <==> Latest(decisions[..i], id).Some?
      invariant forall id :: id in answered ==> answered[id] == Latest(decisions[..i], id).value
    {
      assert decisions[..i + 1][..i] == decisions[..i];
      answered := answered[decisions[i].requestId := decisions[i]];
    }
    assert decisions[..|decisions|] == decisions;
  }

  lemma RestoreRegistry(s: PauseProtocol.State)
    requires PauseProtocol.Inv(s)
    ensures var t := Apply(s, Restore);
            && PauseProtocol.Inv(t) && t.pending == map[] && t.gate == s.gate
            && t.closed == s.closed && t.issued == s.issued
  {
    hide PauseProtocol.Inv;
    CloseKeeps(s);
  }

  lemma RestoredStart(snap: Snapshot, policy: Policy)
    ensures RestoredLog(snap, policy, 0) == Decisions.Log(map[], snap.decisions, snap.decisions)
    ensures Faithful(Decisions.Log(map[], snap.decisions, snap.decisions))
  {
  }

  /** One more request of a restore. */
  lemma RestoredStep(snap: Snapshot, policy: Policy, i: nat)
    requires i < |snap.inflight|
    ensures var r := snap.inflight[i]; var v := policy(r.requestId, r.tool, "");
            && RestoredAudits(snap.decisions, policy, snap.inflight[..i + 1]) ==
               RestoredAudits(snap.decisions, policy, snap.inflight[..i]) + [RestoredAudit(snap.decisions, policy, r)]
            && RestoredAnswers(snap.decisions, policy, snap.inflight[..i + 1]) ==
               RestoredAnswers(snap.decisions, policy, snap.inflight[..i]) + [RestoredAnswer(snap.decisions, policy, r)]
            && RestoredLog(snap, policy, i + 1) ==
               if Latest(snap.decisions, r.requestId).Some? then RestoredLog(snap, policy, i)
               else Record(RestoredLog(snap, policy, i), Decision(r.requestId, r.tool, r.argsDigest, Verdict(v.0),
                   v.1, 0))
  {
    assert snap.inflight[..i + 1][..i] == snap.inflight[..i];
  }

  function Abandoned(c: Call): Decision {
    Decision(c.requestId, c.target, "", "cancelled", "tool call abandoned: session closed while in flight", 0)
  }

  /** One entry per call abandoned at session close; nothing without an audit writer. */
  function AbandonedAudits(audited: bool, calls: seq<Call>): seq<Decision> {
    if calls == [] || !audited then []
    else AbandonedAudits(audited, calls[..|calls| - 1]) + [Abandoned(calls[|calls| - 1])]
  }

  /** One entry when permission requests were still open at session close. */
  function OpenRequestAudit(audited: bool, inflight: nat): seq<Decision> {
    if inflight == 0 || !audited then []
    else [Decision("session-close", "", "", "session_closed_with_pending", "pending: " + FormatUint(inflight), 0)]
  }

  /** The audit entries of a session close: one with the number of open permission requests, if there are any, then
      one for each tool call still pending. */
  ghost predicate ClosingAudits(entries: seq<Decision>, open: nat, calls: seq<Call>) {
    var first := if open > 0 then 1 else 0;
    && |entries| == first + |calls|
    && (open > 0 ==> entries[0] == Decision("session-close", "", "", "session_closed_with_pending",
                                            "pending: " + FormatUint(open), 0))
    && forall i :: 0 <= i < |calls| ==>
                     entries[first + i] == Decision(calls[i].requestId, calls[i].target, "", "cancelled",
                         "tool call abandoned: session closed while in flight", 0)
  }

  lemma AuditsAtClose(before: seq<Decision>, audited: bool, open: nat, calls: seq<Call>)
    ensures var audits := before + OpenRequestAudit(audited, open) + AbandonedAudits(audited, calls);
            && (!audited ==> audits == before)
            && (audited ==> before <= audits && ClosingAudits(audits[|before|..], open, calls))
  {
    var audits := before + OpenRequestAudit(audited, open) + AbandonedAudits(audited, calls);
    assert audits[|before|..] == OpenRequestAudit(audited, open) + AbandonedAudits(audited, calls);
    if audited {
      AbandonedEach(calls);
    }
  }

  lemma {:induction false} AbandonedEach(calls: seq<Call>)
    ensures |AbandonedAudits(true, calls)| == |calls|
    ensures forall i :: 0 <= i < |calls| ==> AbandonedAudits(true, calls)[i] == Abandoned(calls[i])
  {
    if calls != [] {
      AbandonedEach(calls[..|calls| - 1]);
    }
  }

  lemma CallsSize(s: PauseProtocol.State)
    requires Filed(s)
    ensures |Calls(s)| == |s.pending|
  {
    PendingSize(s);
    SerialsSize(Calls(s));
    assert forall c, d :: c in Calls(s) && d in Calls(s) && c.serial == d.serial ==> c == d;
    SerialsInjective(Calls(s));
  }

  lemma {:induction false} SerialsSize(calls: set<Call>)
    ensures |Serials(calls)| <= |calls|
  {
    if calls != {} {
      var c :| c in calls;
      SerialsSize(calls - {c});
      assert Serials(calls) == Serials(calls - {c}) + {c.serial};
    }
  }

  lemma {:induction false} SerialsInjective(calls: set<Call>)
    requires forall c, d :: c in calls && d in calls && c.serial == d.serial ==> c == d
    ensures |Serials(calls)| == |calls|
  {
    if calls != {} {
      var c :| c in calls;
      SerialsInjective(calls - {c});
      assert Serials(calls) == Serials(calls - {c}) + {c.serial};
      assert c.serial !in Serials(calls - {c});
    }
  }
}
