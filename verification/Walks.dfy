/** Walks in a finite directed graph given as a set of edges, and the few facts
    about them that every graph pass below relies on. */
module Walks {

  ghost predicate Walk<T>(E: set<(T, T)>, p: seq<T>) {
    && |p| > 0
    && forall i, j :: 0 <= i && j == i + 1 && j < |p| ==> (p[i], p[j]) in E
  }

  ghost predicate WalkFromTo<T>(E: set<(T, T)>, p: seq<T>, a: T, b: T) {
    Walk(E, p) && p[0] == a && p[|p| - 1] == b
  }

  ghost predicate Reach<T(!new)>(E: set<(T, T)>, a: T, b: T) {
    exists p :: WalkFromTo(E, p, a, b)
  }

  /** A walk of at least one edge that ends where it began. */
  ghost predicate ClosedWalk<T>(E: set<(T, T)>, p: seq<T>, a: T) {
    |p| >= 2 && WalkFromTo(E, p, a, a)
  }

  ghost predicate OnCycle<T(!new)>(E: set<(T, T)>, a: T) {
    exists p :: ClosedWalk(E, p, a)
  }

  /** No edge leaves S. */
  ghost predicate Closed<T(!new)>(E: set<(T, T)>, S: set<T>) {
    forall u, v :: (u, v) in E && u in S ==> v in S
  }

  lemma ReachRefl<T(!new)>(E: set<(T, T)>, a: T)
    ensures Reach(E, a, a)
  {
    assert WalkFromTo(E, [a], a, a);
  }

  lemma ReachEdge<T(!new)>(E: set<(T, T)>, a: T, b: T)
    requires (a, b) in E
    ensures Reach(E, a, b)
  {
    assert WalkFromTo(E, [a, b], a, b);
  }

  lemma JoinWalks<T>(E: set<(T, T)>, p: seq<T>, q: seq<T>, a: T, b: T, c: T)
    requires WalkFromTo(E, p, a, b) && WalkFromTo(E, q, b, c)
    ensures WalkFromTo(E, p + q[1..], a, c)
  {
    var r := p + q[1..];
    forall i, j | 0 <= i && j == i + 1 && j < |r|
      ensures (r[i], r[j]) in E
    {
      if j >= |p| {
        assert r[j] == q[j - |p| + 1];
        assert r[i] == q[i - |p| + 1];
      }
    }
  }

  lemma ReachTrans<T(!new)>(E: set<(T, T)>, a: T, b: T, c: T)
    requires Reach(E, a, b) && Reach(E, b, c)
    ensures Reach(E, a, c)
  {
    var p :| WalkFromTo(E, p, a, b);
    var q :| WalkFromTo(E, q, b, c);
    JoinWalks(E, p, q, a, b, c);
  }

  lemma ReachExtend<T(!new)>(E: set<(T, T)>, a: T, b: T, c: T)
    requires Reach(E, a, b) && (b, c) in E
    ensures Reach(E, a, c)
  {
    ReachEdge(E, b, c);
    ReachTrans(E, a, b, c);
  }

  lemma SubWalk<T>(E: set<(T, T)>, p: seq<T>, i: nat, j: nat)
    requires Walk(E, p) && i <= j < |p|
    ensures WalkFromTo(E, p[i..j + 1], p[i], p[j])
  {
    var q := p[i..j + 1];
    forall k, l | 0 <= k && l == k + 1 && l < |q|
      ensures (q[k], q[l]) in E
    {
      assert q[k] == p[i + k] && q[l] == p[i + l];
    }
  }

  lemma {:induction false} ClosedKeepsWalk<T(!new)>(E: set<(T, T)>, S: set<T>, p: seq<T>, k: nat)
    requires Closed(E, S) && Walk(E, p) && p[0] in S && k < |p|
    ensures p[k] in S
  {
    if k > 0 {
      ClosedKeepsWalk(E, S, p, k - 1);
      assert (p[k - 1], p[k]) in E;
    }
  }

  lemma ClosedContainsReach<T(!new)>(E: set<(T, T)>, S: set<T>, a: T, b: T)
    requires Closed(E, S) && a in S && Reach(E, a, b)
    ensures b in S
  {
    var p :| WalkFromTo(E, p, a, b);
    ClosedKeepsWalk(E, S, p, |p| - 1);
  }

  /** A node is on a cycle exactly when one of its successors leads back to it. */
  lemma OnCycleIff<T(!new)>(E: set<(T, T)>, a: T)
    ensures OnCycle(E, a) <==> exists b :: (a, b) in E && Reach(E, b, a)
  {
    if OnCycle(E, a) {
      var p :| ClosedWalk(E, p, a);
      SubWalk(E, p, 1, |p| - 1);
      assert (p[0], p[1]) in E;
      assert (a, p[1]) in E && Reach(E, p[1], a);
    }
    if b :| (a, b) in E && Reach(E, b, a) {
      var q :| WalkFromTo(E, q, b, a);
      JoinWalks(E, [a, b], q, a, b, a);
      assert ClosedWalk(E, [a, b] + q[1..], a);
    }
  }

  /** Two visits to one node inside a walk put it on a cycle. */
  lemma RepeatIsCycle<T(!new)>(E: set<(T, T)>, p: seq<T>, i: nat, j: nat)
    requires Walk(E, p) && i < j < |p| && p[i] == p[j]
    ensures OnCycle(E, p[i])
  {
    SubWalk(E, p, i, j);
    assert ClosedWalk(E, p[i..j + 1], p[i]);
  }

  ghost predicate Distinct<T>(s: seq<T>) {
    forall i, j :: 0 <= i < j < |s| ==> s[i] != s[j]
  }

  lemma {:induction false} DistinctFits<T>(s: seq<T>, S: set<T>)
    requires Distinct(s) && forall x :: x in s ==> x in S
    ensures |s| <= |S|
  {
    if s != [] {
      var last := s[|s| - 1];
      var init := s[..|s| - 1];
      assert forall x :: x in init ==> x in S - {last};
      DistinctFits(init, S - {last});
      assert last in s;
    }
  }

  /** Pigeonhole: a sequence longer than the set it draws from repeats an element. */
  lemma Pigeonhole<T>(s: seq<T>, S: set<T>) returns (i: nat, j: nat)
    requires |s| > |S| && forall x :: x in s ==> x in S
    ensures i < j < |s| && s[i] == s[j]
  {
    if Distinct(s) {
      DistinctFits(s, S);
    }
    i, j :| 0 <= i < j < |s| && s[i] == s[j];
  }

  /** The numbers below `n`. */
  ghost function Upto(n: nat): (r: set<nat>)
    ensures |r| == n && forall x: nat :: x in r <==> x < n
  {
    if n == 0 then {} else Upto(n - 1) + {n - 1}
  }
}
