/** Ordering `local` declarations by dependency (workflow/compile_locals.go): Kahn's algorithm. */
module Locals {
  import opened Names
  import opened Walks

  // --------------------------------------------------------------- dependencies

  /** A variable traversal in an expression: its root and, when it has one, the attribute that follows. */
  datatype Traversal = Traversal(root: Name, attr: Option<Name>)

  /** The local a traversal refers to, if it is `local.<declared name>`. */
  function Ref(idx: map<Name, nat>, t: Traversal): Option<nat> {
    if t.attr.Some? && t.root == "local" && t.attr.value in idx then Some(idx[t.attr.value]) else None
  }

  function Refs(idx: map<Name, nat>, ts: seq<Traversal>): (r: set<nat>) {
    if ts == [] then {}
    else
      var last := Ref(idx, ts[|ts| - 1]);
      Refs(idx, ts[..|ts| - 1]) + if last.Some? then {last.value} else {}
  }

  /** (i, j) when `local.x` occurs in the value of local i and local j is declared as x; a local without a value
      refers to nothing. */
  ghost function Deps(idx: map<Name, nat>, exprs: seq<Option<seq<Traversal>>>): set<(nat, nat)> {
    set i: nat, x | i < |exprs| && exprs[i].Some? && x in idx && Traversal("local", Some(x)) in exprs[i].value ::
      (i, idx[x])
  }

  lemma {:induction false} RefsAre(idx: map<Name, nat>, ts: seq<Traversal>, j: nat)
    ensures j in Refs(idx, ts) <==> exists x :: x in idx && idx[x] == j && Traversal("local", Some(x)) in ts
  {
    if ts != [] {
      var init, t := ts[..|ts| - 1], ts[|ts| - 1];
      RefsAre(idx, init, j);
      assert forall u :: u in ts <==> u in init || u == t;
      if Ref(idx, t) == Some(j) {
        assert t == Traversal("local", Some(t.attr.value));
      }
    }
  }

  ghost function OtherDeps(D: set<(nat, nat)>, i: nat): set<nat> {
    set e | e in D && e.0 == i && e.1 != i :: e.1
  }

  /** Every dependency joins declared locals. */
  ghost predicate Within(D: set<(nat, nat)>, n: nat) {
    forall i, j :: (i, j) in D ==> i < n && j < n
  }

  ghost predicate ReverseOf(reverseDeps: seq<seq<nat>>, D: set<(nat, nat)>) {
    && (forall j :: 0 <= j < |reverseDeps| ==> Distinct(reverseDeps[j]))
    && (forall i: nat, j: nat :: j < |reverseDeps| ==> (i in reverseDeps[j] <==> (i, j) in D && i != j))
  }

  /** `self[i]` counts how often local i refers to itself. */
  ghost predicate SelfRefs(self: seq<nat>, D: set<(nat, nat)>, n: nat) {
    |self| == n && forall i :: 0 <= i < n ==> (self[i] > 0 <==> (i, i) in D)
  }

  // ------------------------------------------------------------- orders and stuck locals

  /** `i` is not in `prefix`, and everything it refers to is. */
  ghost predicate Available(D: set<(nat, nat)>, n: nat, prefix: seq<nat>, i: nat) {
    i < n && i !in prefix && forall j :: (i, j) in D ==> j in prefix
  }

  /** Each position holds the smallest local available there. */
  ghost predicate Greedy(D: set<(nat, nat)>, n: nat, order: seq<nat>) {
    forall k :: 0 <= k < |order| ==> GreedyAt(D, n, order, k)
  }

  ghost predicate GreedyAt(D: set<(nat, nat)>, n: nat, order: seq<nat>, k: nat)
    requires k < |order|
  {
    && Available(D, n, order[..k], order[k])
    && forall m :: Available(D, n, order[..k], m) ==> order[k] <= m
  }

  /** All n locals, each after everything it refers to. */
  ghost predicate Topological(D: set<(nat, nat)>, n: nat, order: seq<nat>) {
    |order| == n && forall k :: 0 <= k < n ==> Available(D, n, order[..k], order[k])
  }

  ghost predicate LexBefore(a: seq<nat>, b: seq<nat>) {
    exists k :: 0 <= k < |a| && k < |b| && a[..k] == b[..k] && a[k] < b[k]
  }

  lemma {:induction false} FirstDifference(a: seq<nat>, b: seq<nat>, k: nat) returns (d: nat)
    requires |a| == |b| && a != b && k <= |a| && a[..k] == b[..k]
    ensures d < |a| && a[..d] == b[..d] && a[d] != b[d]
    decreases |a| - k
  {
    assert a[..|a|] == a && b[..|b|] == b;
    if a[k] != b[k] {
      d := k;
    } else {
      assert a[..k + 1] == a[..k] + [a[k]] && b[..k + 1] == b[..k] + [b[k]];
      d := FirstDifference(a, b, k + 1);
    }
  }

  /** A greedy order comes before every other topological order. */
  lemma GreedyIsFirst(D: set<(nat, nat)>, n: nat, order: seq<nat>, other: seq<nat>)
    requires Greedy(D, n, order) && |order| == n && Topological(D, n, other)
    ensures order == other || LexBefore(order, other)
  {
    if order != other {
      var d := FirstDifference(order, other, 0);
      assert GreedyAt(D, n, order, d);
      assert Available(D, n, other[..d], other[d]);
    }
  }

  /** Local i leads to a cycle: it refers, through any number of locals, to one that depends on itself. */
  ghost predicate DependsOnCycle(D: set<(nat, nat)>, i: nat) {
    exists c :: Reach(D, i, c) && OnCycle(D, c)
  }

  /** Following references from a local in the order only goes to earlier positions. */
  lemma {:induction false} RefsGoEarlier(D: set<(nat, nat)>, n: nat, order: seq<nat>, p: seq<nat>, i: nat, a: nat)
    returns (b: nat)
    requires Greedy(D, n, order) && Walk(D, p) && i < |p| && a < |order| && order[a] == p[0]
    ensures b < |order| && order[b] == p[i] && b + i <= a
  {
    if i == 0 {
      b := a;
    } else {
      var c := RefsGoEarlier(D, n, order, p, i - 1, a);
      assert (p[i - 1], p[i]) in D;
      assert GreedyAt(D, n, order, c);
      b :| 0 <= b < c && order[..c][b] == p[i];
    }
  }

  lemma GreedyDistinct(D: set<(nat, nat)>, n: nat, order: seq<nat>)
    requires Greedy(D, n, order)
    ensures Distinct(order)
  {
    forall i, j | 0 <= i < j < |order|
      ensures order[i] != order[j]
    {
      assert GreedyAt(D, n, order, j);
      assert order[..j][i] == order[i];
    }
  }

  lemma OrderedAvoidsCycles(D: set<(nat, nat)>, n: nat, order: seq<nat>, i: nat)
    requires Greedy(D, n, order) && i in order
    ensures !DependsOnCycle(D, i)
  {
    hide Greedy;
    if DependsOnCycle(D, i) {
      var c :| Reach(D, i, c) && OnCycle(D, c);
      var p :| WalkFromTo(D, p, i, c);
      var q :| ClosedWalk(D, q, c);
      var a :| 0 <= a < |order| && order[a] == i;
      var b := RefsGoEarlier(D, n, order, p, |p| - 1, a);
      GreedyDistinct(D, n, order);
      var e := RefsGoEarlier(D, n, order, q, |q| - 1, b);
    }
  }

  /** Every local in U refers to a local in U. */
  ghost predicate Stuck(D: set<(nat, nat)>, U: set<nat>) {
    forall i :: i in U ==> RefersInto(D, U, i)
  }

  ghost predicate RefersInto(D: set<(nat, nat)>, U: set<nat>, i: nat) {
    exists j :: j in U && (i, j) in D
  }

  lemma StuckStep(D: set<(nat, nat)>, U: set<nat>, i: nat) returns (j: nat)
    requires RefersInto(D, U, i)
    ensures j in U && (i, j) in D
  {
    j :| j in U && (i, j) in D;
  }

  lemma PrependWalk(D: set<(nat, nat)>, i: nat, q: seq<nat>)
    requires Walk(D, q) && (i, q[0]) in D
    ensures Walk(D, [i] + q)
  {
  }

  lemma {:induction false} StuckWalk(D: set<(nat, nat)>, U: set<nat>, i: nat, len: nat) returns (p: seq<nat>)
    requires Stuck(D, U) && i in U
    ensures Walk(D, p) && p[0] == i && |p| == len + 1 && forall x :: x in p ==> x in U
    decreases len
  {
    if len == 0 {
      p := [i];
    } else {
      hide RefersInto, Walk;
      var j := StuckStep(D, U, i);
      var q := StuckWalk(D, U, j, len - 1);
      p := [i] + q;
      PrependWalk(D, i, q);
    }
  }

  lemma StuckDependsOnCycle(D: set<(nat, nat)>, U: set<nat>, i: nat)
    requires Stuck(D, U) && i in U
    ensures DependsOnCycle(D, i)
  {
    hide Stuck, Walk;
    var p := StuckWalk(D, U, i, |U|);
    var a, b := Pigeonhole(p, U);
    RepeatIsCycle(D, p, a, b);
    SubWalk(D, p, 0, a);
    assert Reach(D, i, p[a]);
  }

  // ------------------------------------------------------------ building the graph

  /** What local a refers to. */
  function Row(idx: map<Name, nat>, exprs: seq<Option<seq<Traversal>>>, a: nat): set<nat> {
    if a < |exprs| && exprs[a].Some? then Refs(idx, exprs[a].value) else {}
  }

  lemma DepsIff(idx: map<Name, nat>, exprs: seq<Option<seq<Traversal>>>)
    ensures forall i: nat, j: nat :: (i, j) in Deps(idx, exprs) <==> j in Row(idx, exprs, i)
  {
    hide Refs;
    forall i: nat, j: nat
      ensures (i, j) in Deps(idx, exprs) <==> j in Row(idx, exprs, i)
    {
      if i < |exprs| && exprs[i].Some? {
        RefsAre(idx, exprs[i].value, j);
      }
    }
  }

  /** The locals before i that refer to local j, in order. */
  ghost function Dependents(idx: map<Name, nat>, exprs: seq<Option<seq<Traversal>>>, j: nat, i: nat): seq<nat> {
    if i == 0 then []
    else Dependents(idx, exprs, j, i - 1) + if i - 1 != j && j in Row(idx, exprs, i - 1) then [i - 1] else []
  }

  lemma {:induction false} DependentsIff(idx: map<Name, nat>, exprs: seq<Option<seq<Traversal>>>, j: nat, i: nat)
    ensures forall a: nat :: a in Dependents(idx, exprs, j, i) <==> a < i && a != j && j in Row(idx, exprs, a)
    ensures Distinct(Dependents(idx, exprs, j, i))
  {
    hide Row;
    if i > 0 {
      DependentsIff(idx, exprs, j, i - 1);
    }
  }

  /** The dependents recorded when rows before i are in and the row of i so far holds `row`. */
  ghost predicate Recorded(idx: map<Name, nat>, exprs: seq<Option<seq<Traversal>>>, reverseDeps: seq<seq<nat>>,
                           i: nat, row: set<nat>) {
    && |reverseDeps| == |exprs|
    && forall j :: 0 <= j < |reverseDeps| ==>
                     reverseDeps[j] == Dependents(idx, exprs, j, i) + if j in row && j != i then [i] else []
  }

  lemma RecordOne(idx: map<Name, nat>, exprs: seq<Option<seq<Traversal>>>, reverseDeps: seq<seq<nat>>, i: nat,
                  row: set<nat>, j: nat)
    requires Recorded(idx, exprs, reverseDeps, i, row) && i < |exprs| && j < |exprs| && i != j && j !in row
    ensures Recorded(idx, exprs, reverseDeps[j := reverseDeps[j] + [i]], i, row + {j})
  {
    hide Row, Dependents;
  }

  lemma RecordSelf(idx: map<Name, nat>, exprs: seq<Option<seq<Traversal>>>, reverseDeps: seq<seq<nat>>, i: nat,
                   row: set<nat>)
    requires Recorded(idx, exprs, reverseDeps, i, row)
    ensures Recorded(idx, exprs, reverseDeps, i, row + {i})
  {
    hide Row, Dependents;
  }

  lemma RecordRow(idx: map<Name, nat>, exprs: seq<Option<seq<Traversal>>>, reverseDeps: seq<seq<nat>>, i: nat)
    requires Recorded(idx, exprs, reverseDeps, i, Row(idx, exprs, i))
    ensures Recorded(idx, exprs, reverseDeps, i + 1, {})
  {
    hide Row;
  }

  lemma RefsStep(idx: map<Name, nat>, ts: seq<Traversal>, k: nat)
    requires k < |ts|
    ensures Refs(idx, ts[..k + 1]) ==
            Refs(idx, ts[..k]) + if Ref(idx, ts[k]).Some? then {Ref(idx, ts[k]).value} else {}
  {
    assert ts[..k + 1][..k] == ts[..k];
  }

  lemma NoRefs(idx: map<Name, nat>, ts: seq<Traversal>)
    ensures Refs(idx, ts[..0]) == {}
  {
  }

  lemma SeenGrows(seen: set<nat>, i: nat, j: nat)
    requires j == i || j !in seen
    ensures |seen + {j} - {i}| == |seen - {i}| + if j == i then 0 else 1
  {
    assert seen + {j} - {i} == if j == i then seen - {i} else seen - {i} + {j};
  }

  /** Record the references of one local: buildLocalDepGraph's inner loop over addLocalDep. A repeated
      reference counts once, except that every self-reference counts. */
  method AddLocalDeps(i: nat, ts: seq<Traversal>, idx: map<Name, nat>, exprs: seq<Option<seq<Traversal>>>,
                      reverseDeps0: seq<seq<nat>>)
    returns (degree: int, reverseDeps: seq<seq<nat>>, ghost selfRefs: nat)
    requires i < |exprs| && exprs[i] == Some(ts) && forall x :: x in idx ==> idx[x] < |exprs|
    requires Recorded(idx, exprs, reverseDeps0, i, {})
    ensures Recorded(idx, exprs, reverseDeps, i + 1, {})
    ensures degree == |Row(idx, exprs, i) - {i}| + selfRefs
    ensures selfRefs > 0 <==> i in Row(idx, exprs, i)
  {
    hide Recorded, Refs;
    degree, reverseDeps, selfRefs := 0, reverseDeps0, 0;
    var seen: set<nat> := {};
    NoRefs(idx, ts);
    for k := 0 to |ts|
      invariant seen == Refs(idx, ts[..k])
      invariant Recorded(idx, exprs, reverseDeps, i, seen)
      invariant degree == |seen - {i}| + selfRefs && (selfRefs > 0 <==> i in seen)
    {
      RefsStep(idx, ts, k);
      var ref := Ref(idx, ts[k]);
      if ref.Some? {
        var j := ref.value;
        if i == j {
          RecordSelf(idx, exprs, reverseDeps, i, seen);
          SeenGrows(seen, i, j);
          degree := degree + 1;
          selfRefs := selfRefs + 1;
          seen := seen + {j};
        } else if j !in seen {
          RecordOne(idx, exprs, reverseDeps, i, seen, j);
          RecordedLength(idx, exprs, reverseDeps, i, seen);
          SeenGrows(seen, i, j);
          seen := seen + {j};
          degree := degree + 1;
          reverseDeps := reverseDeps[j := reverseDeps[j] + [i]];
        } else {
          assert seen + {j} == seen;
        }
      }
    }
    assert ts[..|ts|] == ts;
    RecordRow(idx, exprs, reverseDeps, i);
  }

  lemma RecordedLength(idx: map<Name, nat>, exprs: seq<Option<seq<Traversal>>>, reverseDeps: seq<seq<nat>>, i: nat,
                       row: set<nat>)
    requires Recorded(idx, exprs, reverseDeps, i, row)
    ensures |reverseDeps| == |exprs|
  {
  }

  lemma RecordedAll(idx: map<Name, nat>, exprs: seq<Option<seq<Traversal>>>, reverseDeps: seq<seq<nat>>)
    requires Recorded(idx, exprs, reverseDeps, |exprs|, {})
    ensures ReverseOf(reverseDeps, Deps(idx, exprs))
  {
    hide Deps, Row, Dependents;
    DepsIff(idx, exprs);
    forall j: nat | j < |reverseDeps|
      ensures Distinct(reverseDeps[j]) && forall i: nat :: i in reverseDeps[j] <==> (i, j) in Deps(idx, exprs) && i != j
    {
      DependentsIff(idx, exprs, j, |exprs|);
      RowWithin(idx, exprs);
    }
  }

  lemma RowWithin(idx: map<Name, nat>, exprs: seq<Option<seq<Traversal>>>)
    ensures forall i: nat, j: nat :: j in Row(idx, exprs, i) ==> i < |exprs|
  {
  }

  lemma OtherDepsIsRow(idx: map<Name, nat>, exprs: seq<Option<seq<Traversal>>>, i: nat)
    ensures OtherDeps(Deps(idx, exprs), i) == Row(idx, exprs, i) - {i}
  {
    hide Deps, Row;
    DepsIff(idx, exprs);
    var D := Deps(idx, exprs);
    forall j | j in Row(idx, exprs, i) - {i}
      ensures j in OtherDeps(D, i)
    {
      assert (i, j) in D && (i, j).1 == j;
    }
  }

  method BuildLocalDepGraph(idx: map<Name, nat>, exprs: seq<Option<seq<Traversal>>>)
    returns (inDegree: array<int>, reverseDeps: seq<seq<nat>>, ghost self: seq<nat>)
    requires forall x :: x in idx ==> idx[x] < |exprs|
    ensures fresh(inDegree) && inDegree.Length == |exprs| == |reverseDeps| == |self|
    ensures Within(Deps(idx, exprs), |exprs|)
    ensures ReverseOf(reverseDeps, Deps(idx, exprs)) && SelfRefs(self, Deps(idx, exprs), |exprs|)
    ensures forall i :: 0 <= i < |exprs| ==> inDegree[i] == |OtherDeps(Deps(idx, exprs), i)| + self[i]
  {
    hide Recorded, Deps, OtherDeps, Row, ReverseOf, Within, SelfRefs, Counted;
    var n := |exprs|;
    inDegree := new int[n](_ => 0);
    reverseDeps := seq(n, _ => []);
    self := [];
    EmptyRecorded(idx, exprs, reverseDeps);
    EmptyCounted(idx, exprs, inDegree[..]);
    for i := 0 to n
      invariant Recorded(idx, exprs, reverseDeps, i, {})
      invariant Counted(idx, exprs, inDegree[..], self, i)
    {
      ghost var deg := inDegree[..];
      if exprs[i].Some? {
        ghost var selfRefs;
        var degree;
        degree, reverseDeps, selfRefs := AddLocalDeps(i, exprs[i].value, idx, exprs, reverseDeps);
        CountStep(idx, exprs, deg, self, i, degree, selfRefs);
        inDegree[i] := degree;
        assert inDegree[..] == deg[i := degree];
        self := self + [selfRefs];
      } else {
        NoRow(idx, exprs, i);
        RecordRow(idx, exprs, reverseDeps, i);
        CountStep(idx, exprs, deg, self, i, 0, 0);
        assert deg[i := 0] == deg;
        self := self + [0];
      }
    }
    CountedFacts(idx, exprs, inDegree[..], self, n);
    BuildDone(idx, exprs, inDegree[..], reverseDeps, self);
    assert forall i :: 0 <= i < n ==> inDegree[i] == inDegree[..][i];
  }

  /** The degrees of the locals before i are in; the others are still zero. */
  ghost predicate Counted(idx: map<Name, nat>, exprs: seq<Option<seq<Traversal>>>, deg: seq<int>, self: seq<nat>,
                          i: nat) {
    && |deg| == |exprs| && |self| == i <= |exprs|
    && (forall a :: i <= a < |exprs| ==> deg[a] == 0)
    && (forall a :: 0 <= a < i ==> deg[a] == |Row(idx, exprs, a) - {a}| + self[a])
    && (forall a :: 0 <= a < i ==> (self[a] > 0 <==> a in Row(idx, exprs, a)))
  }

  lemma CountStep(idx: map<Name, nat>, exprs: seq<Option<seq<Traversal>>>, deg: seq<int>, self: seq<nat>, i: nat,
                  degree: int, selfRefs: nat)
    requires Counted(idx, exprs, deg, self, i) && i < |exprs|
    requires degree == |Row(idx, exprs, i) - {i}| + selfRefs && (selfRefs > 0 <==> i in Row(idx, exprs, i))
    ensures Counted(idx, exprs, deg[i := degree], self + [selfRefs], i + 1)
    ensures deg[i] == 0
  {
    hide Row;
  }

  lemma CountedFacts(idx: map<Name, nat>, exprs: seq<Option<seq<Traversal>>>, deg: seq<int>, self: seq<nat>, i: nat)
    requires Counted(idx, exprs, deg, self, i)
    ensures |self| == i
    ensures i == |exprs| ==> forall a :: 0 <= a < i ==> deg[a] == |Row(idx, exprs, a) - {a}| + self[a]
    ensures i == |exprs| ==> forall a :: 0 <= a < i ==> (self[a] > 0 <==> a in Row(idx, exprs, a))
  {
    hide Row;
  }

  lemma BuildDone(idx: map<Name, nat>, exprs: seq<Option<seq<Traversal>>>, degrees: seq<int>,
                  reverseDeps: seq<seq<nat>>, self: seq<nat>)
    requires |degrees| == |self| == |exprs| && Recorded(idx, exprs, reverseDeps, |exprs|, {})
    requires forall x :: x in idx ==> idx[x] < |exprs|
    requires forall a :: 0 <= a < |exprs| ==> degrees[a] == |Row(idx, exprs, a) - {a}| + self[a]
    requires forall a :: 0 <= a < |exprs| ==> (self[a] > 0 <==> a in Row(idx, exprs, a))
    ensures |reverseDeps| == |exprs| && Within(Deps(idx, exprs), |exprs|)
    ensures ReverseOf(reverseDeps, Deps(idx, exprs)) && SelfRefs(self, Deps(idx, exprs), |exprs|)
    ensures forall i :: 0 <= i < |exprs| ==> degrees[i] == |OtherDeps(Deps(idx, exprs), i)| + self[i]
  {
    hide Recorded, Deps, OtherDeps, Row, ReverseOf, Within;
    RecordedLength(idx, exprs, reverseDeps, |exprs|, {});
    RecordedAll(idx, exprs, reverseDeps);
    DepsIff(idx, exprs);
    DepsWithin(idx, exprs);
    forall i: nat | i < |exprs|
      ensures degrees[i] == |OtherDeps(Deps(idx, exprs), i)| + self[i]
    {
      OtherDepsIsRow(idx, exprs, i);
    }
  }

  lemma EmptyCounted(idx: map<Name, nat>, exprs: seq<Option<seq<Traversal>>>, deg: seq<int>)
    requires |deg| == |exprs| && forall a :: 0 <= a < |deg| ==> deg[a] == 0
    ensures Counted(idx, exprs, deg, [], 0)
  {
  }

  lemma EmptyRecorded(idx: map<Name, nat>, exprs: seq<Option<seq<Traversal>>>, reverseDeps: seq<seq<nat>>)
    requires |reverseDeps| == |exprs| && forall j :: 0 <= j < |reverseDeps| ==> reverseDeps[j] == []
    ensures Recorded(idx, exprs, reverseDeps, 0, {})
  {
  }

  lemma NoRow(idx: map<Name, nat>, exprs: seq<Option<seq<Traversal>>>, i: nat)
    requires i < |exprs| && exprs[i].None?
    ensures Row(idx, exprs, i) == {} == Row(idx, exprs, i) - {i}
  {
  }

  lemma DepsWithin(idx: map<Name, nat>, exprs: seq<Option<seq<Traversal>>>)
    requires forall x :: x in idx ==> idx[x] < |exprs|
    ensures Within(Deps(idx, exprs), |exprs|)
  {
  }

  // ---------------------------------------------------------------- Kahn's algorithm

  ghost predicate NonDescendingInts(s: seq<nat>) {
    forall i, j :: 0 <= i < j < |s| ==> s[i] <= s[j]
  }

  function InsertInt(x: nat, s: seq<nat>): (r: seq<nat>)
    ensures multiset(r) == multiset(s) + multiset{x}
    ensures forall y :: y in r ==> y == x || y in s
  {
    if s == [] then [x]
    else if x <= s[0] then [x] + s
    else
      assert s == [s[0]] + s[1..];
      [s[0]] + InsertInt(x, s[1..])
  }

  lemma {:induction false} InsertIntOrdered(x: nat, s: seq<nat>)
    requires NonDescendingInts(s)
    ensures NonDescendingInts(InsertInt(x, s))
  {
    if s != [] && x > s[0] {
      InsertIntOrdered(x, s[1..]);
      var r := InsertInt(x, s[1..]);
      assert InsertInt(x, s) == [s[0]] + r;
      assert forall k :: 0 <= k < |r| ==> r[k] in r;
    }
  }

  /** sort.Ints. */
  function SortInts(s: seq<nat>): (r: seq<nat>)
    ensures NonDescendingInts(r) && multiset(r) == multiset(s)
  {
    if s == [] then []
    else
      assert s == [s[0]] + s[1..];
      InsertIntOrdered(s[0], SortInts(s[1..]));
      InsertInt(s[0], SortInts(s[1..]))
  }

  ghost function Placed(order: seq<nat>): set<nat> {
    set x | x in order
  }

  /** References of i not placed yet, plus its references to itself. */
  ghost function Waiting(D: set<(nat, nat)>, self: seq<nat>, placed: set<nat>, i: nat): nat
    requires i < |self|
  {
    |OtherDeps(D, i) - placed| + self[i]
  }

  ghost function Count(s: seq<nat>, x: nat): nat {
    multiset(s)[x]
  }

  /** `ready` lists, in order and once each, the unplaced locals whose degree is zero. */
  ghost predicate ReadyList(ready: seq<nat>, order: seq<nat>, deg: seq<int>) {
    && NonDescendingInts(ready)
    && forall x: nat :: Count(ready, x) == if x < |deg| && x !in order && deg[x] == 0 then 1 else 0
  }

  lemma WaitingNothing(D: set<(nat, nat)>, n: nat, self: seq<nat>, order: seq<nat>, i: nat)
    requires Within(D, n) && SelfRefs(self, D, n) && i < n && i !in order
    ensures Waiting(D, self, Placed(order), i) == 0 <==> Available(D, n, order, i)
  {
    var rest := OtherDeps(D, i) - Placed(order);
    if |rest| == 0 && self[i] == 0 {
      forall j | (i, j) in D
        ensures j in order
      {
        assert j != i;
        assert (i, j).1 in OtherDeps(D, i);
        assert j !in rest;
      }
    }
    if Available(D, n, order, i) {
      assert rest == {};
    }
  }

  /** The smallest ready local extends the greedy order. */
  lemma PopGreedy(D: set<(nat, nat)>, n: nat, self: seq<nat>, order: seq<nat>, ready: seq<nat>, deg: seq<int>)
    requires Within(D, n) && SelfRefs(self, D, n) && Greedy(D, n, order) && |deg| == n
    requires forall i :: 0 <= i < n ==> deg[i] == Waiting(D, self, Placed(order), i)
    requires ReadyList(ready, order, deg) && ready != []
    ensures ready[0] < n && ready[0] !in order && deg[ready[0]] == 0
    ensures Greedy(D, n, order + [ready[0]])
  {
    hide Waiting, Within, SelfRefs, Available;
    var i := ready[0];
    assert i in ready && Count(ready, i) > 0;
    WaitingNothing(D, n, self, order, i);
    var longer := order + [i];
    assert longer[..|order|] == order;
    forall m: nat | Available(D, n, order, m)
      ensures i <= m
    {
      AvailableFacts(D, n, order, m);
      WaitingNothing(D, n, self, order, m);
      assert Count(ready, m) == 1;
      assert m in ready;
    }
    forall k | 0 <= k < |longer|
      ensures GreedyAt(D, n, longer, k)
    {
      if k < |order| {
        assert GreedyAt(D, n, order, k) && longer[..k] == order[..k];
      }
    }
  }

  lemma AvailableFacts(D: set<(nat, nat)>, n: nat, order: seq<nat>, m: nat)
    requires Available(D, n, order, m)
    ensures m < n && m !in order
  {
  }

  /** Dropping the local just placed from the ready list. */
  lemma PopReady(order: seq<nat>, ready: seq<nat>, deg: seq<int>)
    requires ReadyList(ready, order, deg) && ready != []
    ensures ReadyList(ready[1..], order + [ready[0]], deg)
  {
    assert ready == [ready[0]] + ready[1..];
    var i, rest := ready[0], ready[1..];
    forall x: nat
      ensures Count(rest, x) == if x < |deg| && x !in order + [i] && deg[x] == 0 then 1 else 0
    {
      assert Count(ready, x) == Count(rest, x) + if x == i then 1 else 0;
    }
  }

  /** Placing i takes one off exactly the locals that refer to i. */
  lemma PlaceOne(D: set<(nat, nat)>, self: seq<nat>, order: seq<nat>, i: nat, x: nat)
    requires x < |self| && i !in order
    ensures Waiting(D, self, Placed(order), x) ==
            Waiting(D, self, Placed(order + [i]), x) + if (x, i) in D && x != i then 1 else 0
  {
    var before, after := OtherDeps(D, x) - Placed(order), OtherDeps(D, x) - Placed(order + [i]);
    assert Placed(order + [i]) == Placed(order) + {i};
    if (x, i) in D && x != i {
      assert (x, i).1 in OtherDeps(D, x);
      assert before == after + {i} && i !in after;
    } else {
      assert i !in OtherDeps(D, x);
      assert before == after;
    }
  }

  /** Whatever a placed local refers to is placed. */
  lemma PlacedIsClosed(D: set<(nat, nat)>, n: nat, order: seq<nat>, x: nat, i: nat)
    requires Greedy(D, n, order) && (x, i) in D
    ensures x in order ==> i in order
  {
    if x in order {
      var a :| 0 <= a < |order| && order[a] == x;
      assert GreedyAt(D, n, order, a);
    }
  }

  lemma GreedyFits(D: set<(nat, nat)>, n: nat, order: seq<nat>)
    requires Greedy(D, n, order)
    ensures |order| <= n && forall x :: x in order ==> x < n
  {
    GreedyDistinct(D, n, order);
    var all := Upto(n);
    forall x | x in order
      ensures x in all
    {
      var a :| 0 <= a < |order| && order[a] == x;
      assert GreedyAt(D, n, order, a);
    }
    DistinctFits(order, all);
  }

  /** One dependent loses a reference; when that was its last, it joins the ready list in order. */
  lemma ReadyStep(ready: seq<nat>, order: seq<nat>, deg: seq<int>, x: nat)
    requires ReadyList(ready, order, deg) && x < |deg| && x !in order && deg[x] >= 1
    ensures var deg' := deg[x := deg[x] - 1];
            ReadyList(if deg'[x] == 0 then SortInts(ready + [x]) else ready, order, deg')
  {
    hide SortInts;
    var deg' := deg[x := deg[x] - 1];
    if deg'[x] == 0 {
      var ready' := SortInts(ready + [x]);
      assert forall y: nat :: Count(ready', y) == Count(ready, y) + if y == x then 1 else 0;
    }
  }

  /** The inner loop of topoSortLocals: release everything that waited for the local just placed. */
  method Release(dependents: seq<nat>, inDegree: array<int>, ready0: seq<nat>, ghost order: seq<nat>)
    returns (ready: seq<nat>)
    requires Distinct(dependents) && ReadyList(ready0, order, inDegree[..])
    requires forall k :: 0 <= k < |dependents| ==>
                           dependents[k] < inDegree.Length && dependents[k] !in order && inDegree[dependents[k]] >= 1
    modifies inDegree
    ensures ReadyList(ready, order, inDegree[..])
    ensures forall x: nat :: x < inDegree.Length ==>
                               inDegree[x] == old(inDegree[x]) - if x in dependents then 1 else 0
  {
    hide ReadyList, SortInts;
    ready := ready0;
    for k := 0 to |dependents|
      invariant ReadyList(ready, order, inDegree[..])
      invariant forall x: nat :: x < inDegree.Length ==>
                                   inDegree[x] == old(inDegree[x]) - if x in dependents[..k] then 1 else 0
    {
      var dep := dependents[k];
      assert dep !in dependents[..k];
      assert dependents[..k + 1] == dependents[..k] + [dep];
      ghost var deg := inDegree[..];
      ReadyStep(ready, order, deg, dep);
      inDegree[dep] := inDegree[dep] - 1;
      assert inDegree[..] == deg[dep := deg[dep] - 1];
      if inDegree[dep] == 0 {
        ready := SortInts(ready + [dep]);
      }
    }
    assert dependents[..|dependents|] == dependents;
  }

  /** The loop invariant of Kahn's algorithm. */
  ghost predicate Kahn(D: set<(nat, nat)>, n: nat, self: seq<nat>, order: seq<nat>, ready: seq<nat>, deg: seq<int>) {
    && |deg| == n == |self| && Greedy(D, n, order) && ReadyList(ready, order, deg)
    && forall i :: 0 <= i < n ==> deg[i] == Waiting(D, self, Placed(order), i)
  }

  /** After placing the first ready local, the degrees are off by one for exactly its dependents. */
  lemma KahnPop(D: set<(nat, nat)>, n: nat, self: seq<nat>, order: seq<nat>, ready: seq<nat>, deg: seq<int>,
                reverseDeps: seq<seq<nat>>)
    requires Within(D, n) && SelfRefs(self, D, n) && ReverseOf(reverseDeps, D) && |reverseDeps| == n
    requires Kahn(D, n, self, order, ready, deg) && ready != []
    ensures var i := ready[0]; var placed := order + [i];
            && i < n && Greedy(D, n, placed) && ReadyList(ready[1..], placed, deg) && Distinct(reverseDeps[i])
            && (forall x: nat :: x < n ==>
                                   deg[x] == Waiting(D, self, Placed(placed), x) + if x in reverseDeps[i] then 1 else 0)
            && (forall k :: 0 <= k < |reverseDeps[i]| ==>
                              reverseDeps[i][k] < n && reverseDeps[i][k] !in placed && deg[reverseDeps[i][k]] >= 1)
  {
    hide Waiting, Greedy, ReadyList, SelfRefs, Placed;
    PopGreedy(D, n, self, order, ready, deg);
    PopReady(order, ready, deg);
    var i, placed := ready[0], order + [ready[0]];
    forall x: nat | x < n
      ensures deg[x] == Waiting(D, self, Placed(placed), x) + if x in reverseDeps[i] then 1 else 0
    {
      PlaceOne(D, self, order, i, x);
    }
    forall k | 0 <= k < |reverseDeps[i]|
      ensures reverseDeps[i][k] < n && reverseDeps[i][k] !in placed && deg[reverseDeps[i][k]] >= 1
    {
      var x := reverseDeps[i][k];
      assert x in reverseDeps[i] && (x, i) in D;
      PlacedIsClosed(D, n, order, x, i);
    }
  }

  /** With nothing ready, every unplaced local refers to an unplaced local. */
  lemma NothingReady(D: set<(nat, nat)>, n: nat, self: seq<nat>, order: seq<nat>, deg: seq<int>)
    requires Within(D, n) && SelfRefs(self, D, n) && Kahn(D, n, self, order, [], deg)
    ensures Stuck(D, Upto(n) - Placed(order))
  {
    hide Waiting, Greedy, RefersInto, SelfRefs;
    var U := Upto(n) - Placed(order);
    forall i | i in U
      ensures RefersInto(D, U, i)
    {
      assert Count([], i) == 0 && deg[i] != 0;
      WaitingNothing(D, n, self, order, i);
      NotAvailable(D, n, order, U, i);
    }
  }

  lemma NotAvailable(D: set<(nat, nat)>, n: nat, order: seq<nat>, U: set<nat>, i: nat)
    requires Within(D, n) && !Available(D, n, order, i) && i < n && i !in order
    requires forall x: nat :: x in U <==> x < n && x !in order
    ensures RefersInto(D, U, i)
  {
    var j :| (i, j) in D && j !in order;
    assert j in U;
  }

  /** The sorted names of the locals left over when the sort stops early. */
  method CycleNames(names: seq<Name>, order: seq<nat>) returns (cycleNames: seq<Name>)
    ensures NonDescending(cycleNames)
    ensures forall x :: x in cycleNames <==> exists i: nat :: i < |names| && i !in order && names[i] == x
  {
    hide NonDescending, Sort;
    var left: seq<Name> := [];
    for i := 0 to |names|
      invariant forall x :: x in left <==> exists k: nat :: k < i && k !in order && names[k] == x
    {
      if i !in order {
        left := left + [names[i]];
      }
    }
    cycleNames := Sort(left);
    forall x
      ensures x in cycleNames <==> x in left
    {
      assert x in cycleNames <==> x in multiset(cycleNames);
    }
  }

  /** An order is returned exactly when no local depends on itself, directly or not. It lists every local
      after all it refers to and is the lexicographically first such list. Otherwise the locals left over
      are exactly those that depend on a cycle. */
  method TopoSortLocals(names: seq<Name>, inDegree: array<int>, reverseDeps: seq<seq<nat>>, ghost D: set<(nat, nat)>,
                        ghost self: seq<nat>)
    returns (order: seq<nat>, ok: bool, cycleNames: seq<Name>)
    requires |names| == |reverseDeps| == inDegree.Length == |self|
    requires Within(D, |names|) && ReverseOf(reverseDeps, D) && SelfRefs(self, D, |names|)
    requires forall i :: 0 <= i < |names| ==> inDegree[i] == |OtherDeps(D, i)| + self[i]
    modifies inDegree
    ensures ok <==> forall c :: !OnCycle(D, c)
    ensures ok ==> Topological(D, |names|, order)
    ensures ok ==> forall o :: Topological(D, |names|, o) ==> order == o || LexBefore(order, o)
    ensures !ok ==> forall x :: x in cycleNames <==>
                                exists i: nat :: i < |names| && DependsOnCycle(D, i) && names[i] == x
    ensures !ok ==> NonDescending(cycleNames)
  {
    hide Kahn, ReverseOf, Within, SelfRefs, ReadyList, Greedy, OtherDeps, OnCycle, DependsOnCycle, Topological,
        LexBefore, NonDescending;
    var n := |names|;
    var ready := FirstReady(inDegree);
    order := [];
    ghost var deg := inDegree[..];
    KahnStart(D, n, self, ready, deg);
    while |ready| > 0
      invariant |order| <= n && Kahn(D, n, self, order, ready, inDegree[..])
      decreases n - |order|
    {
      var i := ready[0];
      deg := inDegree[..];
      KahnPop(D, n, self, order, ready, deg, reverseDeps);
      order := order + [i];
      ready := Release(reverseDeps[i], inDegree, ready[1..], order);
      KahnAgain(D, n, self, order, ready, deg, inDegree[..], reverseDeps[i]);
      GreedyFits(D, n, order);
    }
    KahnFacts(D, n, self, order, ready, inDegree[..]);
    NothingReady(D, n, self, order, inDegree[..]);
    Leftovers(D, n, order);
    cycleNames := [];
    ok := |order| >= n;
    if ok {
      CompleteOrder(D, n, order);
    } else {
      cycleNames := CycleNames(names, order);
      IncompleteOrder(D, n, order);
    }
  }

  method FirstReady(inDegree: array<int>) returns (ready: seq<nat>)
    ensures ReadyList(ready, [], inDegree[..])
  {
    ready := [];
    for i := 0 to inDegree.Length
      invariant NonDescendingInts(ready) && forall k :: 0 <= k < |ready| ==> ready[k] < i
      invariant forall x: nat :: Count(ready, x) == if x < i && inDegree[x] == 0 then 1 else 0
    {
      if inDegree[i] == 0 {
        ready := ready + [i];
      }
    }
  }

  lemma KahnStart(D: set<(nat, nat)>, n: nat, self: seq<nat>, ready: seq<nat>, deg: seq<int>)
    requires |deg| == n == |self| && ReadyList(ready, [], deg)
    requires forall i :: 0 <= i < n ==> deg[i] == |OtherDeps(D, i)| + self[i]
    ensures Kahn(D, n, self, [], ready, deg)
  {
    hide ReadyList, OtherDeps;
    forall i | 0 <= i < n
      ensures deg[i] == Waiting(D, self, Placed([]), i)
    {
      assert OtherDeps(D, i) - Placed([]) == OtherDeps(D, i);
    }
  }

  lemma KahnAgain(D: set<(nat, nat)>, n: nat, self: seq<nat>, order: seq<nat>, ready: seq<nat>, deg0: seq<int>,
                  deg: seq<int>, dependents: seq<nat>)
    requires |deg| == |deg0| == n == |self| && Greedy(D, n, order) && ReadyList(ready, order, deg)
    requires forall x: nat :: x < n ==> deg0[x] == Waiting(D, self, Placed(order), x) + if x in dependents then 1 else 0
    requires forall x: nat :: x < n ==> deg[x] == deg0[x] - if x in dependents then 1 else 0
    ensures Kahn(D, n, self, order, ready, deg)
  {
    hide ReadyList, Greedy, Waiting;
  }

  lemma KahnFacts(D: set<(nat, nat)>, n: nat, self: seq<nat>, order: seq<nat>, ready: seq<nat>, deg: seq<int>)
    requires Kahn(D, n, self, order, ready, deg)
    ensures Greedy(D, n, order)
  {
  }

  /** Placed locals avoid cycles and left-over locals run into one. */
  lemma Leftovers(D: set<(nat, nat)>, n: nat, order: seq<nat>)
    requires Greedy(D, n, order) && Stuck(D, Upto(n) - Placed(order))
    ensures forall i: nat :: i < n ==> (i in order <==> !DependsOnCycle(D, i))
  {
    hide Greedy, Stuck, DependsOnCycle;
    forall i: nat | i < n
      ensures i in order <==> !DependsOnCycle(D, i)
    {
      if i in order {
        OrderedAvoidsCycles(D, n, order, i);
      } else {
        StuckDependsOnCycle(D, Upto(n) - Placed(order), i);
      }
    }
  }

  lemma CompleteOrder(D: set<(nat, nat)>, n: nat, order: seq<nat>)
    requires Greedy(D, n, order) && |order| >= n && Within(D, n)
    requires forall i: nat :: i < n ==> (i in order <==> !DependsOnCycle(D, i))
    ensures forall c :: !OnCycle(D, c)
    ensures Topological(D, n, order)
    ensures forall o :: Topological(D, n, o) ==> order == o || LexBefore(order, o)
  {
    hide DependsOnCycle, OnCycle, LexBefore;
    GreedyFits(D, n, order);
    forall k | 0 <= k < n
      ensures Available(D, n, order[..k], order[k])
    {
      assert GreedyAt(D, n, order, k);
    }
    forall o | Topological(D, n, o)
      ensures order == o || LexBefore(order, o)
    {
      GreedyIsFirst(D, n, order, o);
    }
    forall c
      ensures !OnCycle(D, c)
    {
      if OnCycle(D, c) {
        CycleDependsOnItself(D, n, c);
        AllPlaced(D, n, order, c);
      }
    }
  }

  lemma CycleDependsOnItself(D: set<(nat, nat)>, n: nat, c: nat)
    requires Within(D, n) && OnCycle(D, c)
    ensures c < n && DependsOnCycle(D, c)
  {
    ReachRefl(D, c);
    var p :| ClosedWalk(D, p, c);
    assert (p[0], p[1]) in D;
  }

  lemma AllPlaced(D: set<(nat, nat)>, n: nat, order: seq<nat>, c: nat)
    requires Greedy(D, n, order) && |order| >= n && c < n
    ensures c in order
  {
    hide Greedy;
    GreedyFits(D, n, order);
    GreedyDistinct(D, n, order);
    if c !in order {
      DistinctFits(order, Upto(n) - {c});
    }
  }

  lemma IncompleteOrder(D: set<(nat, nat)>, n: nat, order: seq<nat>)
    requires Greedy(D, n, order) && |order| < n
    requires forall i: nat :: i < n ==> (i in order <==> !DependsOnCycle(D, i))
    ensures exists c :: OnCycle(D, c)
  {
    hide Greedy;
    var i := MissingLocal(order, n);
    var c :| Reach(D, i, c) && OnCycle(D, c);
  }

  lemma MissingLocal(order: seq<nat>, n: nat) returns (i: nat)
    requires |order| < n
    ensures i < n && i !in order
  {
    if forall x :: x in Upto(n) ==> x in order {
      assert Upto(n) <= Placed(order);
      PlacedSize(order);
      SubsetSize(Upto(n), Placed(order));
    }
    i :| i in Upto(n) && i !in order;
  }

  lemma {:induction false} PlacedSize(order: seq<nat>)
    ensures |Placed(order)| <= |order|
  {
    if order != [] {
      PlacedSize(order[1..]);
      assert order == [order[0]] + order[1..];
      assert Placed(order) == Placed(order[1..]) + {order[0]};
    }
  }

  lemma {:induction false} SubsetSize(a: set<nat>, b: set<nat>)
    requires a <= b
    ensures |a| <= |b|
  {
    if a != {} {
      var x :| x in a;
      SubsetSize(a - {x}, b - {x});
    }
  }

  /** From declared names and value expressions to an order: buildLocalDepGraph and topoSortLocals. */
  method OrderLocals(names: seq<Name>, idx: map<Name, nat>, exprs: seq<Option<seq<Traversal>>>)
    returns (order: seq<nat>, ok: bool, cycleNames: seq<Name>)
    requires |names| == |exprs| && forall x :: x in idx ==> idx[x] < |exprs|
    ensures ok <==> forall c :: !OnCycle(Deps(idx, exprs), c)
    ensures ok ==> Topological(Deps(idx, exprs), |names|, order)
    ensures ok ==> forall o :: Topological(Deps(idx, exprs), |names|, o) ==> order == o || LexBefore(order, o)
    ensures !ok ==> forall x :: x in cycleNames <==>
                                exists i: nat :: i < |names| && DependsOnCycle(Deps(idx, exprs), i) && names[i] == x
  {
    hide Deps, OnCycle, Topological, LexBefore, DependsOnCycle, ReverseOf, SelfRefs, OtherDeps;
    var inDegree, reverseDeps;
    ghost var self;
    inDegree, reverseDeps, self := BuildLocalDepGraph(idx, exprs);
    order, ok, cycleNames := TopoSortLocals(names, inDegree, reverseDeps, Deps(idx, exprs), self);
  }
}
