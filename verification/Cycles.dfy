/** Loop detection in the workflow graph: the shortest cycle through a node, the
    counterexample trace built from it, and the independent back-edge test. */
module Cycles {
  import opened Names
  import opened Walks
  import opened FsmGraph
  import opened Paths

  // ----------------------------------------------------- breadth-first search

  ghost function Depth(d: map<Name, nat>, start: Name, n: Name): int {
    if n == start then 0 else if n in d then d[n] else -1
  }

  /** Discovered nodes hang off `start` by real edges, one level per edge. */
  ghost predicate Tree(E: set<(Name, Name)>, start: Name, parent: map<Name, Name>, d: map<Name, nat>) {
    && start !in parent && parent.Keys == d.Keys
    && (forall n :: n in parent ==>
                      && (parent[n] == start || parent[n] in parent)
                      && (parent[n], n) in E && d[n] == Depth(d, start, parent[n]) + 1)
    && (forall v :: (start, v) in E ==> v in parent && d[v] <= 1)
  }

  /** `open` holds the nodes still to expand, nearest first and at most two levels of them. */
  ghost predicate Frontier(d: map<Name, nat>, open: seq<Name>) {
    && (forall n :: n in open ==> n in d)
    && (forall i, j :: 0 <= i < j < |open| ==> d[open[i]] <= d[open[j]] <= d[open[i]] + 1)
    && (|open| > 0 ==> forall n :: n in d && n !in open ==> d[n] <= d[open[0]])
  }

  /** Every successor of `n` has been discovered, no deeper than one below `n`. */
  ghost predicate Expanded(E: set<(Name, Name)>, d: map<Name, nat>, n: Name)
    requires n in d
  {
    forall v :: (n, v) in E ==> v in d && d[v] <= d[n] + 1
  }

  ghost predicate RestExpanded(E: set<(Name, Name)>, d: map<Name, nat>, open: seq<Name>) {
    forall n :: n in d && n !in open ==> Expanded(E, d, n)
  }

  /** The state of a breadth-first search from `start`'s successors that has not met `start` again. */
  ghost predicate Search(E: set<(Name, Name)>, start: Name, parent: map<Name, Name>, d: map<Name, nat>,
                         open: seq<Name>) {
    Tree(E, start, parent, d) && Frontier(d, open) && RestExpanded(E, d, open)
  }

  /** Every closed walk through `start` passes an open node, at a position no earlier than its depth. */
  lemma MeetsOpen(E: set<(Name, Name)>, start: Name, parent: map<Name, Name>, d: map<Name, nat>, open: seq<Name>,
                  p: seq<Name>)
    returns (j: nat)
    requires Search(E, start, parent, d, open) && ClosedWalk(E, p, start)
    ensures 1 <= j < |p| - 1 && p[j] in open && p[j] in d && d[p[j]] <= j
  {
    assert (p[0], p[1]) in E;
    j := 1;
    while p[j] !in open
      invariant 1 <= j < |p| && p[j] in d && d[p[j]] <= j
      decreases |p| - j
    {
      assert Expanded(E, d, p[j]);
      assert (p[j], p[j + 1]) in E;
      j := j + 1;
    }
  }

  /** If an open node of least depth leads back to `start`, no closed walk is shorter. */
  lemma NoShorterCycle(E: set<(Name, Name)>, start: Name, parent: map<Name, Name>, d: map<Name, nat>,
                       open: seq<Name>, p: seq<Name>)
    requires Search(E, start, parent, d, open) && |open| > 0 && open[0] in d && ClosedWalk(E, p, start)
    ensures |p| >= d[open[0]] + 2
  {
    var j := MeetsOpen(E, start, parent, d, open, p);
    var k :| 0 <= k < |open| && open[k] == p[j];
    assert d[open[0]] <= d[open[k]];
  }

  /** Following parents from a discovered node gives a walk as long as its depth. */
  lemma {:induction false} ParentsWalk(E: set<(Name, Name)>, start: Name, parent: map<Name, Name>, d: map<Name, nat>,
                                       path: seq<Name>, end: Name)
    requires Tree(E, start, parent, d)
    requires FollowsParents(parent, path, start, end) && end in parent
    ensures WalkFromTo(E, path, start, end) && |path| == d[end] + 1
    decreases |path|
  {
    var k := |path| - 2;
    assert path[k + 1] == end && parent[path[k + 1]] == path[k];
    var init := path[..k + 1];
    assert path == init + [end];
    if k > 0 {
      var before := path[k - 1];
      assert path[k] in parent;
      FollowsPrefix(parent, path, start, end, k);
      ParentsWalk(E, start, parent, d, init, path[k]);
    } else {
      assert path == [start, end];
    }
  }

  lemma TreeLeadsBack(E: set<(Name, Name)>, start: Name, parent: map<Name, Name>, d: map<Name, nat>, n: Name)
    requires Tree(E, start, parent, d) && (n == start || n in parent)
    ensures LeadsBack(parent, start, n)
  {
    RankedLeadsBack(parent, d, start, n);
  }

  /** Discovering a new successor of the node being expanded keeps the search in order. */
  lemma DiscoverFrontier(d: map<Name, nat>, curr: Name, queue: seq<Name>, next: Name)
    requires Frontier(d, [curr] + queue) && next !in d && curr in d
    ensures Frontier(d[next := d[curr] + 1], [curr] + (queue + [next]))
  {
    var open := [curr] + queue;
    var d', open' := d[next := d[curr] + 1], [curr] + (queue + [next]);
    assert open' == open + [next] && open[0] == curr;
    forall i, j | 0 <= i < j < |open'|
      ensures d'[open'[i]] <= d'[open'[j]] <= d'[open'[i]] + 1
    {
      assert open'[i] == open[i] && open[i] in open;
      if j < |open| {
        assert open'[j] == open[j] && open[j] in open;
      }
    }
  }

  lemma DiscoverTree(E: set<(Name, Name)>, start: Name, parent: map<Name, Name>, d: map<Name, nat>, curr: Name,
                     next: Name)
    requires Tree(E, start, parent, d) && curr in d
    requires (curr, next) in E && next != start && next !in parent
    ensures Tree(E, start, parent[next := curr], d[next := d[curr] + 1])
  {
  }

  lemma Discover(E: set<(Name, Name)>, start: Name, parent: map<Name, Name>, d: map<Name, nat>, curr: Name,
                 queue: seq<Name>, next: Name)
    requires Search(E, start, parent, d, [curr] + queue) && curr in d
    requires (curr, next) in E && next != start && next !in parent
    ensures Search(E, start, parent[next := curr], d[next := d[curr] + 1], [curr] + (queue + [next]))
  {
    hide Tree, Frontier;
    var d', open, open' := d[next := d[curr] + 1], [curr] + queue, [curr] + (queue + [next]);
    SearchFacts(E, start, parent, d, open);
    DiscoverTree(E, start, parent, d, curr, next);
    DiscoverFrontier(d, curr, queue, next);
    assert open' == open + [next];
    forall n | n in d' && n !in open'
      ensures Expanded(E, d', n)
    {
      assert n in d && n !in open;
      assert Expanded(E, d, n);
    }
  }

  /** Once a node's successors are all discovered it can be dropped from the front. */
  lemma Finish(E: set<(Name, Name)>, start: Name, parent: map<Name, Name>, d: map<Name, nat>, curr: Name,
               queue: seq<Name>)
    requires Search(E, start, parent, d, [curr] + queue) && curr in d && Expanded(E, d, curr)
    ensures Search(E, start, parent, d, queue)
  {
    hide Tree, Expanded;
    var open := [curr] + queue;
    assert open[0] == curr;
    forall i, j | 0 <= i < j < |queue|
      ensures queue[i] in d && queue[j] in d && d[queue[i]] <= d[queue[j]] <= d[queue[i]] + 1
    {
      assert queue[i] == open[i + 1] && queue[j] == open[j + 1];
    }
    if |queue| > 0 {
      assert queue[0] == open[1];
    }
    assert forall n :: n in open <==> n == curr || n in queue;
  }

  lemma SearchFacts(E: set<(Name, Name)>, start: Name, parent: map<Name, Name>, d: map<Name, nat>, open: seq<Name>)
    requires Search(E, start, parent, d, open)
    ensures start !in parent && parent.Keys == d.Keys && Tree(E, start, parent, d)
    ensures forall n :: n in open ==> n in d
  {
  }

  lemma ExpandedBy(E: set<(Name, Name)>, d: map<Name, nat>, n: Name, targets: seq<Name>)
    requires n in d
    requires forall v :: (n, v) in E ==> v in targets
    requires forall k :: 0 <= k < |targets| ==> targets[k] in d && d[targets[k]] <= d[n] + 1
    ensures Expanded(E, d, n)
  {
  }

  /** A node already discovered is never deeper than one below the node being expanded. */
  lemma KnownDepth(d: map<Name, nat>, curr: Name, queue: seq<Name>, n: Name)
    requires Frontier(d, [curr] + queue) && n in d && curr in d
    ensures d[n] <= d[curr] + 1
  {
    var open := [curr] + queue;
    assert open[0] == curr;
    if n in open {
      var k :| 0 <= k < |open| && open[k] == n;
    }
  }

  /** One turn of the breadth-first loop: look at every successor of `curr`, stopping at `start`. */
  method Expand(g: Graph, start: Name, curr: Name, parent0: map<Name, Name>, queue0: seq<Name>,
                ghost d0: map<Name, nat>, ghost universe: set<Name>)
    returns (hit: bool, parent: map<Name, Name>, queue: seq<Name>, ghost d: map<Name, nat>)
    requires Search(Edges(g), start, parent0, d0, [curr] + queue0)
    requires parent0.Keys <= universe && forall u, v :: (u, v) in Edges(g) ==> v in universe
    ensures parent0.Keys <= parent.Keys <= universe && (parent.Keys == parent0.Keys ==> queue == queue0)
    ensures hit ==> (curr, start) in Edges(g) && Search(Edges(g), start, parent, d, [curr] + queue)
    ensures !hit ==> Search(Edges(g), start, parent, d, queue)
  {
    hide NodeTargets, Edges, Search, Expanded;
    ghost var E := Edges(g);
    EdgesIff(g);
    SearchFacts(E, start, parent0, d0, [curr] + queue0);
    assert curr in [curr] + queue0;
    hit, parent, queue, d := false, parent0, queue0, d0;
    var targets := NodeTargets(curr, g);
    for i := 0 to |targets|
      invariant parent0.Keys <= parent.Keys <= universe && (parent.Keys == parent0.Keys ==> queue == queue0)
      invariant parent.Keys == d.Keys && curr in d
      invariant Search(E, start, parent, d, [curr] + queue)
      invariant forall k :: 0 <= k < i ==> targets[k] in d && d[targets[k]] <= d[curr] + 1
    {
      var next := targets[i];
      assert (curr, next) in E;
      if next == start {
        hit := true;
        return;
      }
      if next !in parent {
        Discover(E, start, parent, d, curr, queue, next);
        parent := parent[next := curr];
        d := d[next := d[curr] + 1];
        queue := queue + [next];
      } else {
        SearchFrontier(E, start, parent, d, [curr] + queue);
        KnownDepth(d, curr, queue, next);
      }
    }
    ExpandedBy(E, d, curr, targets);
    Finish(E, start, parent, d, curr, queue);
  }

  lemma SearchFrontier(E: set<(Name, Name)>, start: Name, parent: map<Name, Name>, d: map<Name, nat>, open: seq<Name>)
    requires Search(E, start, parent, d, open)
    ensures Frontier(d, open)
  {
  }

  /** The loop that puts `start`'s successors on the queue, unless one of them is `start`. */
  method SeedSearch(start: Name, g: Graph)
    returns (hit: bool, parent: map<Name, Name>, queue: seq<Name>, ghost d: map<Name, nat>)
    ensures hit ==> (start, start) in Edges(g)
    ensures !hit ==> Search(Edges(g), start, parent, d, queue)
    ensures forall n :: n in parent ==> (start, n) in Edges(g)
  {
    hide NodeTargets, Edges;
    ghost var E := Edges(g);
    EdgesIff(g);
    hit, parent, queue, d := false, map[], [], map[];
    var targets := NodeTargets(start, g);
    for i := 0 to |targets|
      invariant start !in parent && parent.Keys == d.Keys
      invariant forall n :: n in parent <==> n in queue
      invariant forall n :: n in parent ==> parent[n] == start && (start, n) in E && d[n] == 1
      invariant forall k :: 0 <= k < i ==> targets[k] in parent
    {
      var next := targets[i];
      assert (start, next) in E;
      if next == start {
        hit := true;
        return;
      }
      if next !in parent {
        parent := parent[next := start];
        d := d[next := 1];
        queue := queue + [next];
      }
    }
  }

  lemma CloseWalk(E: set<(Name, Name)>, path: seq<Name>, a: Name, b: Name)
    requires WalkFromTo(E, path, a, b) && (b, a) in E
    ensures ClosedWalk(E, path + [a], a)
  {
  }

  lemma TightestLoop(E: set<(Name, Name)>, a: Name)
    requires (a, a) in E
    ensures ClosedWalk(E, [a, a], a)
    ensures forall p :: ClosedWalk(E, p, a) ==> 2 <= |p|
  {
  }

  /** A shortest closed walk through `start`; empty exactly when there is none. */
  method ShortestCycleFrom(start: Name, g: Graph) returns (cycle: seq<Name>)
    ensures cycle == [] <==> !OnCycle(Edges(g), start)
    ensures cycle != [] ==> ClosedWalk(Edges(g), cycle, start)
    ensures cycle != [] ==> forall p :: ClosedWalk(Edges(g), p, start) ==> |cycle| <= |p|
  {
    hide NodeTargets, Edges, Search, Expanded, Tree, FollowsParents, LeadsBack, ClosedWalk, WalkFromTo;
    ghost var E := Edges(g);
    ghost var universe := set e | e in E :: e.1;
    assert forall u, v :: (u, v) in E ==> (u, v).1 in universe;
    cycle := [];
    var hit, parent, queue;
    ghost var d;
    hit, parent, queue, d := SeedSearch(start, g);
    if hit {
      cycle := [start, start];
      TightestLoop(E, start);
      return;
    }
    while |queue| > 0
      invariant parent.Keys <= universe
      invariant Search(E, start, parent, d, queue)
      decreases universe - parent.Keys, |queue|
    {
      var curr := queue[0];
      assert queue == [curr] + queue[1..];
      hit, parent, queue, d := Expand(g, start, curr, parent, queue[1..], d, universe);
      if hit {
        SearchFacts(E, start, parent, d, [curr] + queue);
        assert curr in [curr] + queue;
        TreeLeadsBack(E, start, parent, d, curr);
        var path := ReconstructPath(parent, start, curr);
        ParentsWalk(E, start, parent, d, path, curr);
        cycle := path + [start];
        CloseWalk(E, path, start, curr);
        forall p | ClosedWalk(E, p, start)
          ensures |cycle| <= |p|
        {
          NoShorterCycle(E, start, parent, d, [curr] + queue, p);
        }
        return;
      }
    }
    if OnCycle(E, start) {
      var p :| ClosedWalk(E, p, start);
      var j := MeetsOpen(E, start, parent, d, queue, p);
    }
  }
}
