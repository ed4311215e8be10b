/** The decision log of internal/adapterhost/permission_state.go: in-flight requests, the bounded window of
    recent decisions, and what a snapshot and restore preserve of them. */
module Decisions {
  import opened Names
  import opened Walks

  /** At most this many recent decisions are kept for replay. */
  const WINDOW: nat := 1000

  datatype Decision = Decision(requestId: Name, tool: Name, argsDigest: Name, verdict: Name, reason: Name, layer: int)

  datatype Request = Request(requestId: Name, tool: Name, argsDigest: Name, verdict: Name, reason: Name)

  /** `history` is every decision since the log was created or restored; only `decisions` is kept. */
  datatype Log = Log(inflight: map<Name, Request>, decisions: seq<Decision>, history: seq<Decision>)

  function Verdict(allow: bool): Name {
    if allow then "allow" else "deny"
  }

  /** The most recent entries, as many as the window holds. */
  function Recent(h: seq<Decision>): seq<Decision> {
    if |h| > WINDOW then h[|h| - WINDOW..] else h
  }

  /** recordDecision. */
  function Record(l: Log, d: Decision): Log {
    var longer := l.decisions + [d];
    Log(l.inflight[d.requestId := Request(d.requestId, d.tool, d.argsDigest, d.verdict, d.reason)],
        if |longer| > WINDOW then longer[|longer| - WINDOW..] else longer,
        l.history + [d])
  }

  /** The last decision on a request in a list of decisions. */
  function Latest(h: seq<Decision>, id: Name): Option<Decision> {
    if h == [] then None
    else if h[|h| - 1].requestId == id then Some(h[|h| - 1])
    else Latest(h[..|h| - 1], id)
  }

  ghost predicate Matches(r: Request, d: Decision) {
    r.requestId == d.requestId && r.tool == d.tool && r.argsDigest == d.argsDigest
    && r.verdict == d.verdict && r.reason == d.reason
  }

  /** The window is exactly the recent end of the history (or all of it, when a longer list was just
      restored), and each in-flight entry carries the latest decision made on its request. */
  ghost predicate Faithful(l: Log) {
    && (l.decisions == Recent(l.history) || l.decisions == l.history)
    && forall id :: id in l.inflight ==>
                      Latest(l.history, id).Some? && Matches(l.inflight[id], Latest(l.history, id).value)
                      && l.inflight[id].requestId == id
  }

  lemma RecordKeepsFaithful(l: Log, d: Decision)
    requires Faithful(l)
    ensures Faithful(Record(l, d)) && Record(l, d).decisions == Recent(l.history + [d])
  {
    var t := Record(l, d);
    assert t.history[..|l.history|] == l.history;
    assert t.decisions == Recent(t.history);
    forall id | id in t.inflight
      ensures Latest(t.history, id).Some? && Matches(t.inflight[id], Latest(t.history, id).value)
    {
      assert Latest(t.history, id) == if d.requestId == id then Some(d) else Latest(l.history, id);
    }
  }

  ghost function RecordAll(l: Log, ds: seq<Decision>): Log {
    if ds == [] then l else Record(RecordAll(l, ds[..|ds| - 1]), ds[|ds| - 1])
  }

  /** Over any run of decisions the window holds the last min(n, 1000), and every in-flight entry agrees
      with the latest decision on it. */
  lemma {:induction false} WindowIsRecent(l: Log, ds: seq<Decision>)
    requires Faithful(l) && l.decisions == Recent(l.history)
    ensures Faithful(RecordAll(l, ds))
    ensures RecordAll(l, ds).history == l.history + ds
    ensures RecordAll(l, ds).decisions == Recent(l.history + ds)
  {
    if ds == [] {
      assert l.history + ds == l.history;
    } else {
      var init := ds[..|ds| - 1];
      WindowIsRecent(l, init);
      RecordKeepsFaithful(RecordAll(l, init), ds[|ds| - 1]);
      assert l.history + ds == l.history + init + [ds[|ds| - 1]];
    }
  }

  /** A suffix that still mentions a request agrees with the whole list on its latest decision. */
  lemma {:induction false} LatestInSuffix(h: seq<Decision>, k: nat, id: Name)
    requires k <= |h|
    ensures Latest(h[k..], id).Some? ==> Latest(h, id) == Latest(h[k..], id)
    ensures Latest(h[k..], id).Some? <==> exists i :: k <= i < |h| && h[i].requestId == id
    decreases |h|
  {
    if k < |h| {
      var n := |h| - 1;
      assert h[k..][..n - k] == h[..n][k..] && h[k..][n - k] == h[n];
      LatestInSuffix(h[..n], k, id);
    }
  }

  // ------------------------------------------------------------- snapshot and restore

  datatype SnapshotRequest = SnapshotRequest(requestId: Name, tool: Name, argsDigest: Name)

  datatype Snapshot = Snapshot(version: int, inflight: seq<SnapshotRequest>, decisions: seq<Decision>)

  function Listed(r: Request): SnapshotRequest {
    SnapshotRequest(r.requestId, r.tool, r.argsDigest)
  }

  /** The in-flight requests listed in whatever order the map is read. */
  ghost predicate ListsInflight(reqs: seq<SnapshotRequest>, inflight: map<Name, Request>) {
    && |reqs| == |inflight|
    && (forall i :: 0 <= i < |reqs| ==>
                      && reqs[i].requestId in inflight && inflight[reqs[i].requestId].requestId == reqs[i].requestId
                      && reqs[i] == Listed(inflight[reqs[i].requestId]))
    && (forall i, j :: 0 <= i < j < |reqs| ==> reqs[i].requestId != reqs[j].requestId)
  }

  ghost predicate SnapshotOf(snap: Snapshot, l: Log) {
    snap.version == 1 && snap.decisions == l.decisions && ListsInflight(snap.inflight, l.inflight)
  }

  /** What the adapter is told about a request. */
  datatype Answer = Answer(requestId: Name, allow: bool, reason: Name)

  /** Decides on a request id, a tool and, when one is known, the full command text. */
  type Policy = (Name, Name, Name) -> (bool, Name)

  /** How a restore answers one request: from the window if it mentions it, from the policy otherwise. */
  function RestoredAnswer(window: seq<Decision>, policy: Policy, r: SnapshotRequest): Answer {
    match Latest(window, r.requestId)
    case Some(d) => Answer(r.requestId, d.verdict == "allow", d.reason)
    case None => var v := policy(r.requestId, r.tool, ""); Answer(r.requestId, v.0, v.1)
  }

  function RestoredAnswers(window: seq<Decision>, policy: Policy, reqs: seq<SnapshotRequest>): (r: seq<Answer>)
    ensures |r| == |reqs| && forall i :: 0 <= i < |reqs| ==> r[i] == RestoredAnswer(window, policy, reqs[i])
  {
    if reqs == [] then []
    else RestoredAnswers(window, policy, reqs[..|reqs| - 1]) + [RestoredAnswer(window, policy, reqs[|reqs| - 1])]
  }

  /** What the audit trail shows of one request of a restore: the old decision, marked, or a new one. */
  function RestoredAudit(window: seq<Decision>, policy: Policy, r: SnapshotRequest): Decision {
    match Latest(window, r.requestId)
    case Some(d) => Decision(r.requestId, r.tool, r.argsDigest, d.verdict, "restored: " + d.reason, 0)
    case None => var v := policy(r.requestId, r.tool, ""); Decision(r.requestId, r.tool, r.argsDigest,
        Verdict(v.0), v.1, 0)
  }

  function RestoredAudits(window: seq<Decision>, policy: Policy, reqs: seq<SnapshotRequest>): (r: seq<Decision>)
    ensures |r| == |reqs| && forall i :: 0 <= i < |reqs| ==> r[i] == RestoredAudit(window, policy, reqs[i])
  {
    if reqs == [] then []
    else RestoredAudits(window, policy, reqs[..|reqs| - 1]) + [RestoredAudit(window, policy, reqs[|reqs| - 1])]
  }

  /** The log after a restore: the snapshot's decisions, plus a fresh decision for each request the window
      does not mention. */
  function RestoredLog(snap: Snapshot, policy: Policy, n: nat): Log
    requires n <= |snap.inflight|
  {
    if n == 0 then Log(map[], snap.decisions, snap.decisions)
    else
      var l, r := RestoredLog(snap, policy, n - 1), snap.inflight[n - 1];
      if Latest(snap.decisions, r.requestId).Some? then l
      else
        var v := policy(r.requestId, r.tool, "");
        Record(l, Decision(r.requestId, r.tool, r.argsDigest, Verdict(v.0), v.1, 0))
  }

  /** A request is still remembered when a decision in the window is about it. */
  ghost predicate Remembered(l: Log, id: Name) {
    exists i :: 0 <= i < |l.decisions| && l.decisions[i].requestId == id
  }

  /** Restoring a snapshot answers every in-flight request once. A remembered request gets the very answer
      it had, under any new policy; every other one is put to the new policy. */
  lemma RestorePreservesAnswers(l: Log, snap: Snapshot, policy: Policy, i: nat)
    requires Faithful(l) && SnapshotOf(snap, l) && i < |snap.inflight|
    ensures var r := snap.inflight[i]; var a := RestoredAnswers(snap.decisions, policy, snap.inflight)[i];
            && |RestoredAnswers(snap.decisions, policy, snap.inflight)| == |l.inflight| && a.requestId == r.requestId
            && if Remembered(l, r.requestId)
               then a.allow == (l.inflight[r.requestId].verdict == "allow") &&
                   a.reason == l.inflight[r.requestId].reason
               else (a.allow, a.reason) == policy(r.requestId, l.inflight[r.requestId].tool, "")
  {
    var id := snap.inflight[i].requestId;
    var k := |l.history| - |l.decisions|;
    assert l.decisions == l.history[k..];
    LatestInSuffix(l.history, k, id);
    assert forall j :: 0 <= j < |l.decisions| ==> l.decisions[j] == l.history[k + j];
    assert forall j :: k <= j < |l.history| ==> l.history[j] == l.decisions[j - k];
  }

  /** No decision on the request follows in the list. */
  ghost predicate Undisturbed(later: seq<Decision>, id: Name) {
    forall d :: d in later ==> d.requestId != id
  }

  lemma {:induction false} LatestThen(h: seq<Decision>, d: Decision, later: seq<Decision>)
    requires Undisturbed(later, d.requestId)
    ensures Latest(h + [d] + later, d.requestId) == Some(d)
    decreases |later|
  {
    var all := h + [d] + later;
    if later == [] {
      assert all == h + [d];
    } else {
      var init := later[..|later| - 1];
      assert all[..|all| - 1] == h + [d] + init && all[|all| - 1] == later[|later| - 1];
      assert later[|later| - 1] in later;
      LatestThen(h, d, init);
    }
  }

  lemma {:induction false} NotLatest(h: seq<Decision>, id: Name)
    requires Undisturbed(h, id)
    ensures Latest(h, id).None?
  {
    if h != [] {
      assert h[|h| - 1] in h;
      NotLatest(h[..|h| - 1], id);
    }
  }

  /** The decision an evaluation that came out as `allow` records. */
  function Evaluated(r: SnapshotRequest, allow: bool, reason: Name, layer: int): Decision {
    Decision(r.requestId, r.tool, r.argsDigest, if allow then "allow" else "deny", reason, layer)
  }

  lemma {:induction false} StaysInflight(l: Log, later: seq<Decision>, id: Name)
    requires Undisturbed(later, id) && id in l.inflight
    ensures id in RecordAll(l, later).inflight && RecordAll(l, later).inflight[id] == l.inflight[id]
    decreases |later|
  {
    if later != [] {
      assert later[|later| - 1] in later;
      StaysInflight(l, later[..|later| - 1], id);
    }
  }

  /** What was answered is answered again: a request evaluated as `allow` for `reason`, and not decided on since, gets
      just that answer from a restore, as long as fewer decisions than the window holds have been made since; after
      that the new policy is asked. */
  lemma AnswerSurvivesRestore(l: Log, r: SnapshotRequest, allow: bool, reason: Name, layer: int, later: seq<Decision>,
                              snap: Snapshot, policy: Policy) returns (i: nat)
    requires Faithful(l) && Undisturbed(later, r.requestId)
    requires SnapshotOf(snap, RecordAll(Record(l, Evaluated(r, allow, reason, layer)), later))
    ensures i < |snap.inflight| && snap.inflight[i] == r
    ensures var again := RestoredAnswers(snap.decisions, policy, snap.inflight)[i];
            && again.requestId == r.requestId
            && (|later| < 1000 ==> (again.allow, again.reason) == (allow, reason))
            && (|later| >= 1000 ==> (again.allow, again.reason) == policy(r.requestId, r.tool, ""))
  {
    var d := Evaluated(r, allow, reason, layer);
    var first := Record(l, d);
    RecordKeepsFaithful(l, d);
    WindowIsRecent(first, later);
    var log := RecordAll(first, later);
    StaysInflight(first, later, r.requestId);
    i := ListedAt(snap.inflight, log.inflight, r.requestId);
    var h := l.history + [d] + later;
    assert log.history == h && log.decisions == Recent(h);
    WindowLatest(l.history, d, later);
    assert |"allow"| == 5 && |"deny"| == 4;
  }

  /** And the audit trail of the restore shows what became of it: the old verdict in words, marked as restored, or that
      of the new policy. */
  lemma AuditSurvivesRestore(l: Log, r: SnapshotRequest, allow: bool, reason: Name, layer: int, later: seq<Decision>,
                             snap: Snapshot, policy: Policy) returns (i: nat)
    requires Faithful(l) && Undisturbed(later, r.requestId)
    requires SnapshotOf(snap, RecordAll(Record(l, Evaluated(r, allow, reason, layer)), later))
    ensures i < |snap.inflight| && snap.inflight[i] == r
    ensures var entry := RestoredAudits(snap.decisions, policy, snap.inflight)[i];
            var again := RestoredAnswers(snap.decisions, policy, snap.inflight)[i];
            && (entry.requestId, entry.tool, entry.argsDigest) == (r.requestId, r.tool, r.argsDigest)
            && entry.verdict == (if again.allow then "allow" else "deny") && entry.layer == 0
            && entry.reason == if |later| < 1000 then "restored: " + again.reason else again.reason
  {
    i := AnswerSurvivesRestore(l, r, allow, reason, layer, later, snap, policy);
    var d := Evaluated(r, allow, reason, layer);
    RecordKeepsFaithful(l, d);
    WindowIsRecent(Record(l, d), later);
    WindowLatest(l.history, d, later);
    assert l.history + [d] + later == Record(l, d).history + later;
  }

  lemma WindowLatest(h: seq<Decision>, d: Decision, later: seq<Decision>)
    requires Undisturbed(later, d.requestId)
    ensures Latest(Recent(h + [d] + later), d.requestId) == if |later| < WINDOW then Some(d) else None
  {
    var all := h + [d] + later;
    if |all| <= WINDOW {
      LatestThen(h, d, later);
    } else if |later| < WINDOW {
      var k := |all| - WINDOW;
      assert all[k..] == h[k..] + [d] + later;
      LatestThen(h[k..], d, later);
    } else {
      var k := |later| - WINDOW;
      assert all[|all| - WINDOW..] == later[k..];
      NotLatest(later[k..], d.requestId);
    }
  }

  /** Every in-flight request is listed. */
  lemma ListedAt(reqs: seq<SnapshotRequest>, inflight: map<Name, Request>, id: Name) returns (i: nat)
    requires ListsInflight(reqs, inflight) && id in inflight
    ensures i < |reqs| && reqs[i].requestId == id
  {
    var ids := seq(|reqs|, k requires 0 <= k < |reqs| => reqs[k].requestId);
    assert forall k :: 0 <= k < |ids| ==> ids[k] in inflight.Keys;
    if id !in ids {
      DistinctFits(ids, inflight.Keys - {id});
    }
    i :| 0 <= i < |ids| && ids[i] == id;
  }

  /** The restored log is faithful again, and exactly the forgotten requests are in flight in it. */
  lemma {:induction false} RestoreIsFaithful(l: Log, snap: Snapshot, policy: Policy, n: nat)
    requires Faithful(l) && SnapshotOf(snap, l) && n <= |snap.inflight|
    ensures Faithful(RestoredLog(snap, policy, n))
    ensures forall id :: id in RestoredLog(snap, policy, n).inflight <==>
                         Latest(snap.decisions, id).None? && exists i :: 0 <= i < n && snap.inflight[i].requestId == id
    decreases n
  {
    if n > 0 {
      RestoreIsFaithful(l, snap, policy, n - 1);
      var l', r := RestoredLog(snap, policy, n - 1), snap.inflight[n - 1];
      if Latest(snap.decisions, r.requestId).None? {
        var v := policy(r.requestId, r.tool, "");
        RecordKeepsFaithful(l', Decision(r.requestId, r.tool, r.argsDigest, Verdict(v.0), v.1, 0));
      }
    }
  }
}
