/** Turning parent pointers back into a path (reconstructBFSPath). */
module Paths {
  import opened Names

  ghost predicate IsParent(parent: map<Name, Name>, start: Name, p: Name, n: Name) {
    n != start && n in parent && parent[n] == p
  }

  /** `path` runs from `start` to `end`, each node being the recorded parent of the next. */
  ghost predicate FollowsParents(parent: map<Name, Name>, path: seq<Name>, start: Name, end: Name) {
    && |path| > 0 && path[0] == start && path[|path| - 1] == end
    && forall i, j :: 0 <= i && j == i + 1 && j < |path| ==> IsParent(parent, start, path[i], path[j])
  }

  lemma FollowsPrefix(parent: map<Name, Name>, path: seq<Name>, start: Name, end: Name, k: nat)
    requires FollowsParents(parent, path, start, end) && k < |path|
    ensures FollowsParents(parent, path[..k + 1], start, path[k])
  {
    var q := path[..k + 1];
    assert |q| == k + 1 && q[0] == start && q[|q| - 1] == path[k];
    forall i, j | 0 <= i && j == i + 1 && j < |q|
      ensures IsParent(parent, start, q[i], q[j])
    {
      assert q[i] == path[i] && q[j] == path[j];
    }
  }

  lemma LongPathLeavesStart(parent: map<Name, Name>, path: seq<Name>, start: Name, end: Name)
    requires FollowsParents(parent, path, start, end) && |path| > 1
    ensures end != start && end in parent && parent[end] == path[|path| - 2]
  {
    assert IsParent(parent, start, path[|path| - 2], path[|path| - 1]);
  }

  /** Some path follows the pointers from `start` to `end`. */
  ghost predicate LeadsBack(parent: map<Name, Name>, start: Name, end: Name) {
    exists path :: FollowsParents(parent, path, start, end)
  }

  lemma StartIsFirst(parent: map<Name, Name>, path: seq<Name>, start: Name, end: Name)
    requires FollowsParents(parent, path, start, end)
    ensures |path| == 1 <==> end == start
  {
    if |path| > 1 {
      LongPathLeavesStart(parent, path, start, end);
    }
  }

  /** At most one path does. */
  lemma {:induction false} FollowsUnique(parent: map<Name, Name>, p: seq<Name>, q: seq<Name>, start: Name, end: Name)
    requires FollowsParents(parent, p, start, end) && FollowsParents(parent, q, start, end)
    ensures p == q
  {
    StartIsFirst(parent, p, start, end);
    StartIsFirst(parent, q, start, end);
    if |p| > 1 {
      LongPathLeavesStart(parent, p, start, end);
      LongPathLeavesStart(parent, q, start, end);
      FollowsPrefix(parent, p, start, end, |p| - 2);
      FollowsPrefix(parent, q, start, end, |q| - 2);
      FollowsUnique(parent, p[..|p| - 1], q[..|q| - 1], start, parent[end]);
      assert p == p[..|p| - 1] + [end] && q == q[..|q| - 1] + [end];
    }
  }

  /** Where the loop of reconstructBFSPath stands after `k` turns; a missing pointer reads as the empty name. */
  ghost function Climb(parent: map<Name, Name>, n: Name, k: nat): Name
    decreases k
  {
    if k == 0 then n else Climb(parent, if n in parent then parent[n] else "", k - 1)
  }

  lemma {:induction false} ClimbFollows(parent: map<Name, Name>, path: seq<Name>, start: Name, end: Name)
    requires FollowsParents(parent, path, start, end)
    ensures Climb(parent, end, |path| - 1) == start
    decreases |path|
  {
    if |path| > 1 {
      var k := |path| - 2;
      LongPathLeavesStart(parent, path, start, end);
      FollowsPrefix(parent, path, start, end, k);
      ClimbFollows(parent, path[..k + 1], start, path[k]);
    }
  }

  lemma {:induction false} ClimbGivesPath(parent: map<Name, Name>, start: Name, end: Name, k: nat)
    returns (path: seq<Name>)
    requires start != "" && "" !in parent && Climb(parent, end, k) == start
    ensures FollowsParents(parent, path, start, end)
    decreases k
  {
    if end == start {
      path := [start];
    } else {
      assert k > 0;
      if end !in parent {
        NothingAbove(parent, k - 1);
      }
      var before := ClimbGivesPath(parent, start, parent[end], k - 1);
      OneParentMore(parent, before, start, end);
      path := before + [end];
    }
  }

  lemma OneParentMore(parent: map<Name, Name>, before: seq<Name>, start: Name, end: Name)
    requires end != start && end in parent && FollowsParents(parent, before, start, parent[end])
    ensures FollowsParents(parent, before + [end], start, end)
  {
    var path := before + [end];
    forall i, j | 0 <= i && j == i + 1 && j < |path|
      ensures IsParent(parent, start, path[i], path[j])
    {
      if j < |before| {
        assert IsParent(parent, start, before[i], before[j]);
      }
    }
  }

  /** Each pointer goes to `start` or to a node of lower rank. */
  ghost predicate Ranked(parent: map<Name, Name>, rank: map<Name, nat>, start: Name) {
    forall n :: n in parent ==> n in rank && (parent[n] == start || IsRanked(parent, rank, parent[n], rank[n]))
  }

  ghost predicate IsRanked(parent: map<Name, Name>, rank: map<Name, nat>, n: Name, bound: nat) {
    n in parent && n in rank && rank[n] < bound
  }

  lemma {:induction false} RankedLeadsBack(parent: map<Name, Name>, rank: map<Name, nat>, start: Name, end: Name)
    requires Ranked(parent, rank, start) && (end == start || end in parent)
    ensures LeadsBack(parent, start, end)
    decreases if end == start then 0 else rank[end] + 1
  {
    if end == start {
      assert FollowsParents(parent, [start], start, end);
    } else {
      RankedLeadsBack(parent, rank, start, parent[end]);
      var before :| FollowsParents(parent, before, start, parent[end]);
      OneParentMore(parent, before, start, end);
    }
  }

  lemma {:induction false} NothingAbove(parent: map<Name, Name>, k: nat)
    requires "" !in parent
    ensures Climb(parent, "", k) == ""
  {
    if k > 0 {
      NothingAbove(parent, k - 1);
    }
  }

  /** The loop of reconstructBFSPath ends exactly when the pointers lead back. */
  lemma LoopEndsIff(parent: map<Name, Name>, start: Name, end: Name)
    requires start != "" && "" !in parent
    ensures LeadsBack(parent, start, end) <==> exists k: nat :: Climb(parent, end, k) == start
  {
    if path :| FollowsParents(parent, path, start, end) {
      ClimbFollows(parent, path, start, end);
    }
    if k: nat :| Climb(parent, end, k) == start {
      var path := ClimbGivesPath(parent, start, end, k);
    }
  }

  method ReverseInPlace(s: seq<Name>) returns (path: seq<Name>)
    ensures |path| == |s| && forall k :: 0 <= k < |s| ==> path[k] == s[|s| - 1 - k]
  {
    path := s;
    var i, j := 0, |path| - 1;
    while i < j
      invariant |path| == |s| && 0 <= i <= j + 1 && j == |s| - 1 - i
      invariant forall k :: 0 <= k < i || j < k < |s| ==> path[k] == s[|s| - 1 - k]
      invariant forall k :: i <= k <= j ==> path[k] == s[k]
    {
      path := path[i := path[j]][j := path[i]];
      i, j := i + 1, j - 1;
    }
  }

  /** The path the pointers describe. */
  method ReconstructPath(parent: map<Name, Name>, start: Name, end: Name) returns (path: seq<Name>)
    requires LeadsBack(parent, start, end)
    ensures FollowsParents(parent, path, start, end)
  {
    ghost var whole :| FollowsParents(parent, whole, start, end);
    ghost var rest := whole;
    path := [];
    var curr := end;
    StartIsFirst(parent, rest, start, curr);
    while curr != start
      invariant FollowsParents(parent, rest, start, curr) && (|rest| == 1 <==> curr == start)
      invariant |rest| <= |whole| && rest == whole[..|rest|] && |path| == |whole| - |rest|
      invariant forall k :: 0 <= k < |path| ==> path[k] == whole[|whole| - 1 - k]
      decreases |rest|
    {
      ghost var k := |rest| - 2;
      LongPathLeavesStart(parent, rest, start, curr);
      FollowsPrefix(parent, rest, start, curr, k);
      path := path + [curr];
      curr := parent[curr];
      rest := rest[..k + 1];
      StartIsFirst(parent, rest, start, curr);
    }
    path := ReverseInPlace(path + [start]);
    assert path == whole;
  }
}
