/** Recursive compilation of sub-workflow imports (workflow/compile_subworkflows.go): the load
    chain is the recursion's only guard against import cycles. */
module Subworkflows {
  import opened Names
  import opened Walks

  /** A resolved source directory. */
  type Dir = Name

  /** One `subworkflow` block; `ref` is the expected pin, empty when none is declared. */
  datatype Declaration = Declaration(name: Name, source: Name, ref: string)

  /** Where a source resolves to; only remote sources carry a pin. */
  datatype Resolution = Resolution(dir: Dir, pin: Option<string>)

  /** A parsed directory. */
  datatype Spec = Spec(hasHeader: bool, subworkflows: seq<Declaration>)

  /** The directories that parse, and the resolver, if there is one: a missing entry is a failed resolution. */
  datatype Library = Library(specs: map<Dir, Spec>, resolver: Option<map<(Dir, Name), Resolution>>)

  datatype Diagnostic =
    | NoHeader
    | MissingResolver(name: Name)
    | Duplicate(name: Name)
    | Unresolved(name: Name)
    | PinRefused(name: Name)
    | Unreadable(dir: Dir)
    | ImportCycle(path: seq<Dir>)

  /** Whether the declared pin, if any, is the resolved one. */
  predicate PinAccepted(d: Declaration, r: Resolution) {
    d.ref == "" || r.pin == Some(d.ref)
  }

  /** The directory an import leads to: None when its name is taken, it does not resolve, or its pin is refused. */
  function Target(lib: Library, dir: Dir, d: Declaration, seen: set<Name>): Option<Dir> {
    if lib.resolver.None? || d.name in seen || (dir, d.source) !in lib.resolver.value then None
    else
      var r := lib.resolver.value[(dir, d.source)];
      if PinAccepted(d, r) then Some(r.dir) else None
  }

  ghost function NamesOf(ds: seq<Declaration>): set<Name> {
    set d | d in ds :: d.name
  }

  /** The directories the first `n` imports of a directory lead to. */
  ghost function ImportsUpTo(lib: Library, dir: Dir, ds: seq<Declaration>, n: nat): set<Dir>
    requires n <= |ds|
  {
    if n == 0 then {}
    else
      var t := Target(lib, dir, ds[n - 1], NamesOf(ds[..n - 1]));
      ImportsUpTo(lib, dir, ds, n - 1) + if t.Some? then {t.value} else {}
  }

  ghost function Imports(lib: Library, dir: Dir): set<Dir> {
    if dir !in lib.specs || !lib.specs[dir].hasHeader then {}
    else
      var ds := lib.specs[dir].subworkflows;
      ImportsUpTo(lib, dir, ds, |ds|)
  }

  ghost function ImportGraph(lib: Library): (E: set<(Dir, Dir)>)
    ensures forall a, b :: (a, b) in E <==> b in Imports(lib, a)
  {
    set a, b | a in lib.specs && b in Imports(lib, a) :: (a, b)
  }

  /** The pin a declaration asks for, if any, is the one its source resolves to. */
  ghost predicate PinMatches(d: Declaration, r: Resolution) {
    d.ref != "" ==> r.pin.Some? && r.pin.value == d.ref
  }

  /** No earlier import of the list has the name. */
  ghost predicate FirstOfName(ds: seq<Declaration>, k: nat) {
    k < |ds| && forall j :: 0 <= j < k ==> ds[j].name != ds[k].name
  }

  /** The `k`-th import leads to `b`: the name is new, the source resolves, and the pin is right. */
  ghost predicate LeadsTo(lib: Library, a: Dir, ds: seq<Declaration>, k: nat, b: Dir) {
    && FirstOfName(ds, k) && lib.resolver.Some? && (a, ds[k].source) in lib.resolver.value
    && var r := lib.resolver.value[(a, ds[k].source)]; PinMatches(ds[k], r) && r.dir == b
  }

  /** `a` declares an import that leads to `b`. */
  ghost predicate DeclaresImport(lib: Library, a: Dir, b: Dir) {
    && a in lib.specs && lib.specs[a].hasHeader
    && exists k: nat :: LeadsTo(lib, a, lib.specs[a].subworkflows, k, b)
  }

  lemma TargetIs(lib: Library, a: Dir, ds: seq<Declaration>, k: nat, b: Dir)
    requires k < |ds|
    ensures Target(lib, a, ds[k], NamesOf(ds[..k])) == Some(b) <==> LeadsTo(lib, a, ds, k, b)
  {
    SeenIffNotFirst(ds, k);
  }

  lemma SeenIffNotFirst(ds: seq<Declaration>, k: nat)
    requires k < |ds|
    ensures ds[k].name in NamesOf(ds[..k]) <==> !FirstOfName(ds, k)
  {
    if j :| 0 <= j < k && ds[j].name == ds[k].name {
      assert ds[..k][j] == ds[j] && ds[j] in ds[..k];
    }
  }

  lemma {:induction false} ImportsUpToAre(lib: Library, a: Dir, ds: seq<Declaration>, n: nat, b: Dir)
    requires n <= |ds|
    ensures b in ImportsUpTo(lib, a, ds, n) <==> exists k: nat :: k < n && LeadsTo(lib, a, ds, k, b)
    decreases n
  {
    hide LeadsTo, Target;
    if n > 0 {
      ImportsUpToAre(lib, a, ds, n - 1, b);
      TargetIs(lib, a, ds, n - 1, b);
    }
  }

  /** The import graph is what the directories declare. */
  lemma ImportGraphDeclared(lib: Library, a: Dir, b: Dir)
    ensures (a, b) in ImportGraph(lib) <==> DeclaresImport(lib, a, b)
  {
    hide LeadsTo, ImportsUpTo;
    if a in lib.specs && lib.specs[a].hasHeader {
      var ds := lib.specs[a].subworkflows;
      ImportsUpToAre(lib, a, ds, |ds|, b);
      assert forall k: nat :: LeadsTo(lib, a, ds, k, b) ==> k < |ds| by {
        LeadsInRange(lib, a, ds, b);
      }
    }
  }

  lemma LeadsInRange(lib: Library, a: Dir, ds: seq<Declaration>, b: Dir)
    ensures forall k: nat :: LeadsTo(lib, a, ds, k, b) ==> k < |ds|
  {
  }

  ghost function Front(c: seq<Dir>): seq<Dir>
    requires c != []
  {
    c[..|c| - 1]
  }

  /** `c` continues `chain` along imports from `dir`, without repeating a directory
      until its last one, which it has already passed. */
  ghost predicate Lasso(E: set<(Dir, Dir)>, dir: Dir, chain: seq<Dir>, c: seq<Dir>) {
    && |chain| < |c| && chain == c[..|chain|]
    && Walk(E, [dir] + c[|chain|..])
    && Distinct(Front(c)) && c[|c| - 1] in Front(c)
  }

  ghost predicate LassoVia(E: set<(Dir, Dir)>, dir: Dir, chain: seq<Dir>, next: set<Dir>, c: seq<Dir>) {
    Lasso(E, dir, chain, c) && c[|chain|] in next
  }

  lemma LassoFirst(E: set<(Dir, Dir)>, dir: Dir, chain: seq<Dir>, c: seq<Dir>)
    requires Lasso(E, dir, chain, c)
    ensures (dir, c[|chain|]) in E
    ensures |c| == |chain| + 1 <==> c[|chain|] in chain
  {
    var k := |chain|;
    var p := [dir] + c[k..];
    assert (p[0], p[1]) in E;
    if k < |c| - 1 {
      forall i | 0 <= i < k
        ensures chain[i] != c[k]
      {
        assert Front(c)[i] == chain[i] && Front(c)[k] == c[k];
      }
    }
  }

  /** The chain so far already holds the import: the lasso closes here. */
  lemma ClosesHere(E: set<(Dir, Dir)>, dir: Dir, chain: seq<Dir>, r: Dir)
    requires Distinct(chain) && (dir, r) in E && r in chain
    ensures forall c :: LassoVia(E, dir, chain, {r}, c) <==> c == chain + [r]
  {
    var c := chain + [r];
    assert Front(c) == chain && c[|chain|..] == [r] && c[..|chain|] == chain;
    assert Walk(E, [dir] + [r]);
    forall c | LassoVia(E, dir, chain, {r}, c)
      ensures c == chain + [r]
    {
      LassoFirst(E, dir, chain, c);
    }
  }

  /** The import is new: every lasso through it continues from there. */
  lemma ContinuesThere(E: set<(Dir, Dir)>, dir: Dir, chain: seq<Dir>, r: Dir)
    requires (dir, r) in E && r !in chain
    ensures forall c :: LassoVia(E, dir, chain, {r}, c) <==> Lasso(E, r, chain + [r], c)
  {
    forall c
      ensures LassoVia(E, dir, chain, {r}, c) <==> Lasso(E, r, chain + [r], c)
    {
      if LassoVia(E, dir, chain, {r}, c) {
        LassoDescends(E, dir, chain, r, c);
      }
      if Lasso(E, r, chain + [r], c) {
        LassoAscends(E, dir, chain, r, c);
      }
    }
  }

  lemma LassoDescends(E: set<(Dir, Dir)>, dir: Dir, chain: seq<Dir>, r: Dir, c: seq<Dir>)
    requires r !in chain && LassoVia(E, dir, chain, {r}, c)
    ensures Lasso(E, r, chain + [r], c)
  {
    var k := |chain|;
    LassoFirst(E, dir, chain, c);
    assert c[..k + 1] == chain + [r];
    SubWalk(E, [dir] + c[k..], 1, |c| - k);
    assert ([dir] + c[k..])[1..|c| - k + 1] == [r] + c[k + 1..];
  }

  lemma LassoAscends(E: set<(Dir, Dir)>, dir: Dir, chain: seq<Dir>, r: Dir, c: seq<Dir>)
    requires (dir, r) in E && Lasso(E, r, chain + [r], c)
    ensures LassoVia(E, dir, chain, {r}, c)
  {
    var k := |chain|;
    assert c[k] == (chain + [r])[k] == r;
    assert c[..k] == (chain + [r])[..k] == chain;
    var p, q := [dir] + c[k..], [r] + c[k + 1..];
    assert p == [dir] + q;
    forall i, j | 0 <= i && j == i + 1 && j < |p|
      ensures (p[i], p[j]) in E
    {
      if i > 0 {
        assert p[i] == q[i - 1] && p[j] == q[i];
      }
    }
  }

  /** A directory that imports nothing starts no lasso. */
  lemma NoImports(E: set<(Dir, Dir)>, dir: Dir, chain: seq<Dir>)
    requires forall b :: (dir, b) !in E
    ensures forall c :: !Lasso(E, dir, chain, c)
  {
    forall c
      ensures !Lasso(E, dir, chain, c)
    {
      if Lasso(E, dir, chain, c) {
        LassoFirst(E, dir, chain, c);
      }
    }
  }

  // ------------------------------------------------------------ what else is reported

  /** What is wrong with the `k`-th import of directory `x`; an import that closes a cycle is another matter. */
  ghost predicate ImportProblem(lib: Library, x: Dir, ds: seq<Declaration>, k: nat, f: Diagnostic)
    requires k < |ds|
  {
    var d := ds[k];
    if lib.resolver.None? then f == MissingResolver(d.name)
    else if !FirstOfName(ds, k) then f == Duplicate(d.name)
    else if (x, d.source) !in lib.resolver.value then f == Unresolved(d.name)
    else if !PinMatches(d, lib.resolver.value[(x, d.source)]) then f == PinRefused(d.name)
    else f.Unreadable? && f.dir !in lib.specs && f.dir == lib.resolver.value[(x, d.source)].dir
  }

  /** What is wrong with directory `x`. */
  ghost predicate Problem(lib: Library, x: Dir, f: Diagnostic) {
    x in lib.specs &&
    if !lib.specs[x].hasHeader then f == NoHeader
    else exists k: nat :: k < |lib.specs[x].subworkflows| && ImportProblem(lib, x, lib.specs[x].subworkflows, k, f)
  }

  /** Imports lead from `dir` along `p`, through directories that parse, none of them on the chain or repeated. */
  ghost predicate Descends(lib: Library, dir: Dir, chain: seq<Dir>, p: seq<Dir>) {
    Walk(ImportGraph(lib), [dir] + p) && Distinct(chain + p) && forall x :: x in p ==> x in lib.specs
  }

  ghost function End(dir: Dir, p: seq<Dir>): Dir {
    if p == [] then dir else p[|p| - 1]
  }

  ghost predicate FoundAlong(lib: Library, dir: Dir, chain: seq<Dir>, p: seq<Dir>, f: Diagnostic) {
    Descends(lib, dir, chain, p) && Problem(lib, End(dir, p), f)
  }

  /** Something is wrong with a directory the recursion reaches; a directory on the chain is never read again. */
  ghost predicate Found(lib: Library, dir: Dir, chain: seq<Dir>, f: Diagnostic) {
    (exists p :: FoundAlong(lib, dir, chain, p, f)) && (f.Unreadable? ==> f.dir !in chain)
  }

  /** The import leads to a directory that is read. */
  ghost predicate Enters(lib: Library, dir: Dir, chain: seq<Dir>, r: Dir) {
    (dir, r) in ImportGraph(lib) && r !in chain && r in lib.specs
  }

  ghost predicate FoundBelow(lib: Library, dir: Dir, chain: seq<Dir>, f: Diagnostic) {
    exists r :: Enters(lib, dir, chain, r) && Found(lib, r, chain + [r], f)
  }

  lemma UnreadableIsMissing(lib: Library, x: Dir, f: Diagnostic)
    requires Problem(lib, x, f) && f.Unreadable?
    ensures f.dir !in lib.specs
  {
  }

  lemma DescendsFirst(lib: Library, dir: Dir, chain: seq<Dir>, p: seq<Dir>)
    requires p != [] && Descends(lib, dir, chain, p)
    ensures Enters(lib, dir, chain, p[0]) && Descends(lib, p[0], chain + [p[0]], p[1..])
    ensures End(dir, p) == End(p[0], p[1..])
  {
    hide ImportGraph;
    var E, q := ImportGraph(lib), [dir] + p;
    assert (q[0], q[1]) in E;
    SubWalk(E, q, 1, |p|);
    assert q[1..|p| + 1] == p == [p[0]] + p[1..];
    assert chain + [p[0]] + p[1..] == chain + p;
    assert forall i :: 0 <= i < |chain| ==> (chain + p)[i] == chain[i];
    assert (chain + p)[|chain|] == p[0];
  }

  lemma DescendsMore(lib: Library, dir: Dir, chain: seq<Dir>, r: Dir, p: seq<Dir>)
    requires Enters(lib, dir, chain, r) && Descends(lib, r, chain + [r], p)
    ensures Descends(lib, dir, chain, [r] + p) && End(dir, [r] + p) == End(r, p)
  {
    hide ImportGraph;
    var E, q := ImportGraph(lib), [dir] + ([r] + p);
    assert chain + ([r] + p) == chain + [r] + p;
    forall i, j | 0 <= i && j == i + 1 && j < |q|
      ensures (q[i], q[j]) in E
    {
      if i > 0 {
        assert q[i] == ([r] + p)[i - 1] && q[j] == ([r] + p)[i];
      }
    }
  }

  /** It is the directory itself, or one of those it enters. */
  lemma FoundIff(lib: Library, dir: Dir, chain: seq<Dir>, f: Diagnostic)
    requires dir in lib.specs && Distinct(chain)
    ensures Found(lib, dir, chain, f) <==>
            || (Problem(lib, dir, f) && (f.Unreadable? ==> f.dir !in chain))
            || FoundBelow(lib, dir, chain, f)
  {
    hide Problem, ImportGraph, Descends, Enters;
    if Found(lib, dir, chain, f) {
      var p :| FoundAlong(lib, dir, chain, p, f);
      if p != [] {
        DescendsFirst(lib, dir, chain, p);
        assert FoundAlong(lib, p[0], chain + [p[0]], p[1..], f);
        EnteredIsRead(lib, dir, chain, p[0]);
        if f.Unreadable? {
          UnreadableIsMissing(lib, End(dir, p), f);
        }
        assert Found(lib, p[0], chain + [p[0]], f);
      }
    }
    if Problem(lib, dir, f) {
      DescendsNowhere(lib, dir, chain);
      assert FoundAlong(lib, dir, chain, [], f);
    }
    if r :| Enters(lib, dir, chain, r) && Found(lib, r, chain + [r], f) {
      var p :| FoundAlong(lib, r, chain + [r], p, f);
      DescendsMore(lib, dir, chain, r, p);
      assert FoundAlong(lib, dir, chain, [r] + p, f);
    }
  }

  lemma EnteredIsRead(lib: Library, dir: Dir, chain: seq<Dir>, r: Dir)
    requires Enters(lib, dir, chain, r)
    ensures r in lib.specs && r !in chain
  {
  }

  lemma DescendsNowhere(lib: Library, dir: Dir, chain: seq<Dir>)
    requires Distinct(chain)
    ensures Descends(lib, dir, chain, [])
  {
    assert chain + [] == chain;
  }

  /** What one import contributes. */
  ghost predicate Contributes(lib: Library, dir: Dir, chain: seq<Dir>, d: Declaration, seen: set<Name>, f: Diagnostic)
    requires lib.resolver.Some?
  {
    if d.name in seen then f == Duplicate(d.name)
    else if (dir, d.source) !in lib.resolver.value then f == Unresolved(d.name)
    else
      var r := lib.resolver.value[(dir, d.source)];
      if !PinMatches(d, r) then f == PinRefused(d.name)
      else if r.dir in chain then false
      else if r.dir !in lib.specs then f == Unreadable(r.dir)
      else Found(lib, r.dir, chain + [r.dir], f)
  }

  ghost predicate ContributesAt(lib: Library, dir: Dir, chain: seq<Dir>, ds: seq<Declaration>, k: nat, f: Diagnostic)
    requires lib.resolver.Some?
  {
    k < |ds| && Contributes(lib, dir, chain, ds[k], NamesOf(ds[..k]), f)
  }

  ghost predicate ContributesUpTo(lib: Library, dir: Dir, chain: seq<Dir>, ds: seq<Declaration>, n: nat, f: Diagnostic)
    requires lib.resolver.Some?
  {
    exists k: nat :: k < n && ContributesAt(lib, dir, chain, ds, k, f)
  }

  lemma ContributesMore(lib: Library, dir: Dir, chain: seq<Dir>, ds: seq<Declaration>, n: nat)
    requires lib.resolver.Some? && n < |ds|
    ensures forall f :: ContributesUpTo(lib, dir, chain, ds, n + 1, f) <==>
                        || ContributesUpTo(lib, dir, chain, ds, n, f)
                        || Contributes(lib, dir, chain, ds[n], NamesOf(ds[..n]), f)
  {
    hide Contributes;
    forall f | Contributes(lib, dir, chain, ds[n], NamesOf(ds[..n]), f)
      ensures ContributesUpTo(lib, dir, chain, ds, n + 1, f)
    {
      assert ContributesAt(lib, dir, chain, ds, n, f);
    }
  }

  lemma ContributesIff(lib: Library, dir: Dir, chain: seq<Dir>, k: nat, f: Diagnostic)
    requires dir in lib.specs && lib.specs[dir].hasHeader && lib.resolver.Some?
    requires k < |lib.specs[dir].subworkflows|
    ensures var ds := lib.specs[dir].subworkflows;
            ContributesAt(lib, dir, chain, ds, k, f) <==>
            || (ImportProblem(lib, dir, ds, k, f) && (f.Unreadable? ==> f.dir !in chain))
            || exists r :: && LeadsTo(lib, dir, ds, k, r) && r !in chain && r in lib.specs
                           && Found(lib, r, chain + [r], f)
  {
    hide Found, NamesOf;
    SeenIffNotFirst(lib.specs[dir].subworkflows, k);
  }

  lemma AllContribute(lib: Library, dir: Dir, chain: seq<Dir>, f: Diagnostic)
    requires dir in lib.specs && lib.specs[dir].hasHeader && lib.resolver.Some? && Distinct(chain)
    ensures Found(lib, dir, chain, f) <==>
            exists k: nat :: ContributesAt(lib, dir, chain, lib.specs[dir].subworkflows, k, f)
  {
    hide Found, ImportProblem, LeadsTo, Contributes, ImportGraph;
    var ds := lib.specs[dir].subworkflows;
    FoundIff(lib, dir, chain, f);
    if k: nat :| ContributesAt(lib, dir, chain, ds, k, f) {
      ContributesIff(lib, dir, chain, k, f);
      if r :| LeadsTo(lib, dir, ds, k, r) && r !in chain && r in lib.specs && Found(lib, r, chain + [r], f) {
        ImportGraphDeclared(lib, dir, r);
        assert Enters(lib, dir, chain, r);
      }
    }
    if k: nat :| k < |ds| && ImportProblem(lib, dir, ds, k, f) && (f.Unreadable? ==> f.dir !in chain) {
      ContributesIff(lib, dir, chain, k, f);
    }
    if r :| Enters(lib, dir, chain, r) && Found(lib, r, chain + [r], f) {
      ImportGraphDeclared(lib, dir, r);
      var k: nat :| LeadsTo(lib, dir, ds, k, r);
      LeadsInRange(lib, dir, ds, r);
      ContributesIff(lib, dir, chain, k, f);
    }
  }

  // ------------------------------------------------------------------- the recursion

  ghost function Elements(chain: seq<Dir>): set<Dir> {
    set x | x in chain
  }

  /** The whole load chain and the import that repeats it, when it does. */
  method DetectSubworkflowCycle(dir: Dir, chain: seq<Dir>) returns (d: Option<Diagnostic>)
    ensures d == if dir in chain then Some(ImportCycle(chain + [dir])) else None
  {
    for i := 0 to |chain|
      invariant dir !in chain[..i]
    {
      if chain[i] == dir {
        return Some(ImportCycle(chain + [dir]));
      }
      assert chain[..i + 1] == chain[..i] + [chain[i]];
    }
    assert chain[..|chain|] == chain;
    return None;
  }

  /** One import: the reported cycles are the lassos that begin with it. */
  method CompileSingleSubworkflow(lib: Library, dir: Dir, d: Declaration, chain: seq<Dir>, seen: set<Name>)
    returns (diags: seq<Diagnostic>, seenAfter: set<Name>)
    requires lib.resolver.Some? && Distinct(chain)
    requires Target(lib, dir, d, seen).Some? ==> (dir, Target(lib, dir, d, seen).value) in ImportGraph(lib)
    ensures seenAfter == seen + {d.name}
    ensures forall c :: ImportCycle(c) in diags <==>
                        LassoVia(ImportGraph(lib), dir, chain, OptionSet(Target(lib, dir, d, seen)), c)
    ensures forall f: Diagnostic :: !f.ImportCycle? ==> (f in diags <==> Contributes(lib, dir, chain, d, seen, f))
    decreases lib.specs.Keys - Elements(chain), 1
  {
    hide Lasso, Imports, Found;
    seenAfter := seen + {d.name};
    if d.name in seen {
      return [Duplicate(d.name)], seenAfter;
    }
    if (dir, d.source) !in lib.resolver.value {
      return [Unresolved(d.name)], seenAfter;
    }
    var resolution := lib.resolver.value[(dir, d.source)];
    if !PinAccepted(d, resolution) {
      return [PinRefused(d.name)], seenAfter;
    }
    var r := resolution.dir;
    var cycle := DetectSubworkflowCycle(r, chain);
    if cycle.Some? {
      ClosesHere(ImportGraph(lib), dir, chain, r);
      return [cycle.value], seenAfter;
    }
    ContinuesThere(ImportGraph(lib), dir, chain, r);
    if r !in lib.specs {
      NotImported(lib, r);
      NoImports(ImportGraph(lib), r, chain + [r]);
      return [Unreadable(r)], seenAfter;
    }
    assert Distinct(chain + [r]);
    assert r in lib.specs.Keys - Elements(chain);
    diags := CompileWorkflow(lib, r, chain + [r]);
  }

  ghost function OptionSet(o: Option<Dir>): set<Dir> {
    if o.Some? then {o.value} else {}
  }

  lemma NotImported(lib: Library, dir: Dir)
    ensures dir !in lib.specs || !lib.specs[dir].hasHeader ==> forall b :: (dir, b) !in ImportGraph(lib)
  {
  }

  /** Compiling a directory reports as cycles exactly the lassos that start there. */
  method CompileWorkflow(lib: Library, dir: Dir, chain: seq<Dir>) returns (diags: seq<Diagnostic>)
    requires dir in lib.specs && Distinct(chain)
    ensures forall c :: ImportCycle(c) in diags <==> Lasso(ImportGraph(lib), dir, chain, c)
    ensures forall f: Diagnostic :: !f.ImportCycle? ==> (f in diags <==> Found(lib, dir, chain, f))
    decreases lib.specs.Keys - Elements(chain), 3
  {
    hide Lasso, Found;
    if !lib.specs[dir].hasHeader {
      NotImported(lib, dir);
      NoImports(ImportGraph(lib), dir, chain);
      OnlyItself(lib, dir, chain);
      return [NoHeader];
    }
    diags := CompileSubworkflows(lib, dir, chain);
  }

  method CompileSubworkflows(lib: Library, dir: Dir, chain: seq<Dir>) returns (diags: seq<Diagnostic>)
    requires dir in lib.specs && lib.specs[dir].hasHeader && Distinct(chain)
    ensures forall c :: ImportCycle(c) in diags <==> Lasso(ImportGraph(lib), dir, chain, c)
    ensures forall f: Diagnostic :: !f.ImportCycle? ==> (f in diags <==> Found(lib, dir, chain, f))
    decreases lib.specs.Keys - Elements(chain), 2
  {
    hide Lasso, Found, Contributes;
    var ds := lib.specs[dir].subworkflows;
    diags := [];
    if lib.resolver.None? {
      NoResolver(lib, dir);
      NoImports(ImportGraph(lib), dir, chain);
      for n := 0 to |ds|
        invariant forall f :: f in diags <==> exists k :: 0 <= k < n && f == MissingResolver(ds[k].name)
      {
        diags := diags + [MissingResolver(ds[n].name)];
      }
      OnlyItself(lib, dir, chain);
      ResolverMissing(lib, dir);
      return;
    }
    var seen: set<Name> := {};
    for n := 0 to |ds|
      invariant seen == NamesOf(ds[..n])
      invariant forall c :: ImportCycle(c) in diags <==>
          LassoVia(ImportGraph(lib), dir, chain, ImportsUpTo(lib, dir, ds, n), c)
      invariant forall f: Diagnostic :: !f.ImportCycle? ==>
                  (f in diags <==> ContributesUpTo(lib, dir, chain, ds, n, f))
    {
      ImportsGrow(lib, dir, n + 1);
      assert ds[..n + 1] == ds[..n] + [ds[n]];
      var more;
      more, seen := CompileSingleSubworkflow(lib, dir, ds[n], chain, seen);
      ContributesMore(lib, dir, chain, ds, n);
      diags := diags + more;
    }
    assert ds[..|ds|] == ds;
    AllLassosVia(lib, dir, chain);
    forall f: Diagnostic | !f.ImportCycle?
      ensures f in diags <==> Found(lib, dir, chain, f)
    {
      AllContribute(lib, dir, chain, f);
      assert forall k: nat :: ContributesAt(lib, dir, chain, ds, k, f) ==> k < |ds|;
    }
  }

  lemma ResolverMissing(lib: Library, dir: Dir)
    requires dir in lib.specs && lib.specs[dir].hasHeader && lib.resolver.None?
    ensures var ds := lib.specs[dir].subworkflows;
            forall f :: Problem(lib, dir, f) <==> exists k :: 0 <= k < |ds| && f == MissingResolver(ds[k].name)
  {
    var ds := lib.specs[dir].subworkflows;
    forall f
      ensures Problem(lib, dir, f) <==> exists k :: 0 <= k < |ds| && f == MissingResolver(ds[k].name)
    {
      if k: nat :| k < |ds| && f == MissingResolver(ds[k].name) {
        assert ImportProblem(lib, dir, ds, k, f);
      }
    }
  }

  /** A directory without imports is all there is to look at. */
  lemma OnlyItself(lib: Library, dir: Dir, chain: seq<Dir>)
    requires dir in lib.specs && Distinct(chain) && (!lib.specs[dir].hasHeader || lib.resolver.None?)
    ensures forall f: Diagnostic :: Found(lib, dir, chain, f) <==> Problem(lib, dir, f)
  {
    hide Found, Descends;
    forall f: Diagnostic
      ensures Found(lib, dir, chain, f) <==> Problem(lib, dir, f)
    {
      FoundIff(lib, dir, chain, f);
      if r :| Enters(lib, dir, chain, r) {
        ImportGraphDeclared(lib, dir, r);
      }
    }
  }

  lemma {:induction false} ImportsGrow(lib: Library, dir: Dir, n: nat)
    requires dir in lib.specs && lib.specs[dir].hasHeader && 0 < n <= |lib.specs[dir].subworkflows|
    ensures var ds := lib.specs[dir].subworkflows;
            var t := Target(lib, dir, ds[n - 1], NamesOf(ds[..n - 1]));
            t.Some? ==> (dir, t.value) in ImportGraph(lib)
    decreases |lib.specs[dir].subworkflows| - n
  {
    var ds := lib.specs[dir].subworkflows;
    PrefixImports(lib, dir, ds, n, |ds|);
  }

  lemma {:induction false} PrefixImports(lib: Library, dir: Dir, ds: seq<Declaration>, m: nat, n: nat)
    requires m <= n <= |ds|
    ensures ImportsUpTo(lib, dir, ds, m) <= ImportsUpTo(lib, dir, ds, n)
    decreases n
  {
    if m < n {
      PrefixImports(lib, dir, ds, m, n - 1);
    }
  }

  lemma {:induction false} NoResolverUpTo(lib: Library, dir: Dir, ds: seq<Declaration>, n: nat)
    requires lib.resolver.None? && n <= |ds|
    ensures ImportsUpTo(lib, dir, ds, n) == {}
  {
    if n > 0 {
      NoResolverUpTo(lib, dir, ds, n - 1);
    }
  }

  lemma NoResolver(lib: Library, dir: Dir)
    requires lib.resolver.None? && dir in lib.specs
    ensures forall b :: (dir, b) !in ImportGraph(lib)
  {
    var ds := lib.specs[dir].subworkflows;
    NoResolverUpTo(lib, dir, ds, |ds|);
  }

  lemma AllLassosVia(lib: Library, dir: Dir, chain: seq<Dir>)
    requires dir in lib.specs && lib.specs[dir].hasHeader
    ensures var ds := lib.specs[dir].subworkflows;
            forall c :: LassoVia(ImportGraph(lib), dir, chain, ImportsUpTo(lib, dir, ds, |ds|), c) <==>
                Lasso(ImportGraph(lib), dir, chain, c)
  {
    var ds := lib.specs[dir].subworkflows;
    forall c | Lasso(ImportGraph(lib), dir, chain, c)
      ensures LassoVia(ImportGraph(lib), dir, chain, ImportsUpTo(lib, dir, ds, |ds|), c)
    {
      LassoFirst(ImportGraph(lib), dir, chain, c);
    }
  }

  // ---------------------------------------------------------------------- whole imports

  ghost predicate CycleAhead(E: set<(Dir, Dir)>, dir: Dir) {
    exists d :: Reach(E, dir, d) && OnCycle(E, d)
  }

  lemma LassoIsCycle(E: set<(Dir, Dir)>, dir: Dir, c: seq<Dir>)
    requires Lasso(E, dir, [], c)
    ensures CycleAhead(E, dir)
  {
    var n := |c| - 1;
    var i :| 0 <= i < n && c[i] == c[n];
    assert c[0..] == c;
    var p := [dir] + c;
    SubWalk(E, p, 0, i + 1);
    RepeatIsCycle(E, p, i + 1, n + 1);
  }

  lemma DistinctOneMore(c: seq<Dir>)
    requires c != []
    ensures Distinct(Front(c)) && c[|c| - 1] !in Front(c) ==> Distinct(c)
  {
    if Distinct(Front(c)) && c[|c| - 1] !in Front(c) {
      forall i, j | 0 <= i < j < |c|
        ensures c[i] != c[j]
      {
        assert Front(c)[i] == c[i];
      }
    }
  }

  /** A walk that repeats a directory after its start has a lasso as prefix. */
  lemma {:induction false} RepeatHasLasso(E: set<(Dir, Dir)>, dir: Dir, c: seq<Dir>) returns (k: nat)
    requires Walk(E, [dir] + c) && !Distinct(c)
    ensures k <= |c| && Lasso(E, dir, [], c[..k])
  {
    assert c != [];
    if Distinct(Front(c)) {
      k := |c|;
      assert c[..k] == c && c[0..] == c;
      DistinctOneMore(c);
    } else {
      SubWalk(E, [dir] + c, 0, |c| - 1);
      assert ([dir] + c)[0..|c|] == [dir] + Front(c);
      k := RepeatHasLasso(E, dir, Front(c));
      assert Front(c)[..k] == c[..k];
    }
  }

  lemma CycleHasLasso(E: set<(Dir, Dir)>, dir: Dir) returns (c: seq<Dir>)
    requires CycleAhead(E, dir)
    ensures Lasso(E, dir, [], c)
  {
    var d :| Reach(E, dir, d) && OnCycle(E, d);
    var p :| WalkFromTo(E, p, dir, d);
    var q :| ClosedWalk(E, q, d);
    JoinWalks(E, p, q, dir, d, d);
    var once := p + q[1..];
    JoinWalks(E, once, q, dir, d, d);
    var twice := once + q[1..];
    var rest := twice[1..];
    assert twice == [dir] + rest;
    var i, j := |once| - 2, |twice| - 2;
    assert rest[i] == once[|once| - 1] == d && rest[j] == twice[|twice| - 1] == d;
    assert !Distinct(rest);
    var k := RepeatHasLasso(E, dir, rest);
    c := rest[..k];
  }

  /** Cutting out what lies between two visits of a directory leaves a walk. */
  lemma Shortcut(E: set<(Dir, Dir)>, p: seq<Dir>, i: nat, j: nat)
    requires Walk(E, p) && i < j < |p| && p[i] == p[j]
    ensures Walk(E, p[..i + 1] + p[j + 1..])
  {
    var q := p[..i + 1] + p[j + 1..];
    forall k, m | 0 <= k && m == k + 1 && m < |q|
      ensures (q[k], q[m]) in E
    {
      if k < i {
        assert q[k] == p[k] && q[m] == p[m];
      } else {
        assert q[k] == p[k + (j - i)] && q[m] == p[m + (j - i)];
      }
    }
  }

  lemma {:induction false} SimpleDescent(E: set<(Dir, Dir)>, dir: Dir, p: seq<Dir>) returns (q: seq<Dir>)
    requires Walk(E, [dir] + p)
    ensures Walk(E, [dir] + q) && Distinct(q) && End(dir, q) == End(dir, p)
    decreases |p|
  {
    if Distinct(p) {
      q := p;
    } else {
      var i, j :| 0 <= i < j < |p| && p[i] == p[j];
      var r := p[..i + 1] + p[j + 1..];
      Shortcut(E, [dir] + p, i + 1, j + 1);
      assert ([dir] + p)[..i + 2] + ([dir] + p)[j + 2..] == [dir] + r;
      assert End(dir, r) == End(dir, p);
      q := SimpleDescent(E, dir, r);
    }
  }

  lemma WalkedDirsAreRead(lib: Library, dir: Dir, q: seq<Dir>)
    requires Walk(ImportGraph(lib), [dir] + q) && End(dir, q) in lib.specs
    ensures forall x :: x in q ==> x in lib.specs
  {
    forall i | 0 <= i < |q|
      ensures q[i] in lib.specs
    {
      if i + 1 < |q| {
        assert (([dir] + q)[i + 1], ([dir] + q)[i + 2]) in ImportGraph(lib);
      }
    }
  }

  /** From the root, exactly the directories reachable along imports are looked at. */
  lemma FoundFromRoot(lib: Library, root: Dir, f: Diagnostic)
    ensures Found(lib, root, [], f) <==> exists x :: Reach(ImportGraph(lib), root, x) && Problem(lib, x, f)
  {
    hide Problem, ImportGraph;
    if p :| FoundAlong(lib, root, [], p, f) {
      assert WalkFromTo(ImportGraph(lib), [root] + p, root, End(root, p));
    }
    if x :| Reach(ImportGraph(lib), root, x) && Problem(lib, x, f) {
      var p :| WalkFromTo(ImportGraph(lib), p, root, x);
      assert p == [root] + p[1..];
      var q := SimpleDescent(ImportGraph(lib), root, p[1..]);
      ProblemIsRead(lib, x, f);
      WalkedDirsAreRead(lib, root, q);
      assert [] + q == q;
      assert FoundAlong(lib, root, [], q, f);
    }
  }

  lemma ProblemIsRead(lib: Library, x: Dir, f: Diagnostic)
    requires Problem(lib, x, f)
    ensures x in lib.specs
  {
  }

  /** From the top, a cycle is reported exactly when the imports reachable from the root contain one,
      and what is reported is every way of running into one. */
  method CompileRoot(lib: Library, root: Dir) returns (diags: seq<Diagnostic>)
    requires root in lib.specs
    ensures forall c :: ImportCycle(c) in diags <==> Lasso(ImportGraph(lib), root, [], c)
    ensures (exists c :: ImportCycle(c) in diags) <==> CycleAhead(ImportGraph(lib), root)
    ensures forall f: Diagnostic :: !f.ImportCycle? ==>
                        (f in diags <==> exists x :: Reach(ImportGraph(lib), root, x) && Problem(lib, x, f))
  {
    hide Lasso, Found, Problem;
    diags := CompileWorkflow(lib, root, []);
    forall f: Diagnostic | !f.ImportCycle?
      ensures f in diags <==> exists x :: Reach(ImportGraph(lib), root, x) && Problem(lib, x, f)
    {
      FoundFromRoot(lib, root, f);
    }
    if c :| ImportCycle(c) in diags {
      LassoIsCycle(ImportGraph(lib), root, c);
    } else if CycleAhead(ImportGraph(lib), root) {
      var c := CycleHasLasso(ImportGraph(lib), root);
    }
  }
}
