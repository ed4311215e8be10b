/** The edit distance behind "did you mean" suggestions (levenshteinDistance in
    workflow/compile_output_refs.go), against the shortest edit script between two byte strings. */
module EditDistance {

  import opened Names

  function Min3(a: int, b: int, c: int): (m: int)
    ensures m <= a && m <= b && m <= c && (m == a || m == b || m == c)
  {
    if a < b then (if a < c then a else c)
    else if b < c then b else c
  }

  function Front<T>(s: seq<T>): seq<T>
    requires s != []
  {
    s[..|s| - 1]
  }

  function Last<T>(s: seq<T>): T
    requires s != []
  {
    s[|s| - 1]
  }

  function SubCost(x: Byte, y: Byte): int {
    if x == y then 0 else 1
  }

  /** The recurrence the two rows tabulate. */
  ghost function Distance(a: Bytes, b: Bytes): (d: int)
    ensures d >= 0
    decreases |a| + |b|
  {
    if a == [] then |b|
    else if b == [] then |a|
    else Min3(Distance(Front(a), b) + 1, Distance(a, Front(b)) + 1, Distance(Front(a), Front(b)) + SubCost(Last(a),
        Last(b)))
  }

  // ------------------------------------------------------------- the two-row loop

  ghost predicate RowIs(row: seq<int>, a: Bytes, b: Bytes, upto: nat) {
    upto <= |b| + 1 <= |row| && forall j :: 0 <= j < upto ==> row[j] == Distance(a, b[..j])
  }

  lemma NextCell(a: Bytes, b: Bytes, i: nat, j: nat)
    requires 0 < i <= |a| && 0 < j <= |b|
    ensures Distance(a[..i], b[..j]) ==
            Min3(Distance(a[..i - 1], b[..j]) + 1, Distance(a[..i], b[..j - 1]) + 1,
                 Distance(a[..i - 1], b[..j - 1]) + SubCost(a[i - 1], b[j - 1]))
  {
    assert Front(a[..i]) == a[..i - 1] && Front(b[..j]) == b[..j - 1];
  }

  /** The buffer-swapping loop computes the recurrence. */
  method LevenshteinDistance(a: Bytes, b: Bytes) returns (d: int)
    ensures d == Distance(a, b)
  {
    hide Distance;
    if a == [] {
      DistanceEnds(a, b);
      return |b|;
    }
    if b == [] {
      DistanceEnds(a, b);
      return |a|;
    }
    var prev := new int[|b| + 1];
    for j := 0 to |b| + 1
      invariant forall k :: 0 <= k < j ==> prev[k] == k
    {
      prev[j] := j;
    }
    forall j | 0 <= j <= |b|
      ensures prev[j] == Distance(a[..0], b[..j])
    {
      DistanceEnds(a[..0], b[..j]);
    }
    var curr := new int[|b| + 1];
    for i := 1 to |a| + 1
      invariant fresh(prev) && fresh(curr) && prev != curr && prev.Length == curr.Length == |b| + 1
      invariant RowIs(prev[..], a[..i - 1], b, |b| + 1)
    {
      FillRow(prev, curr, a, b, i);
      prev, curr := curr, prev;
    }
    assert a[..|a|] == a && b[..|b|] == b;
    return prev[|b|];
  }

  /** One pass of the outer loop: the row for a[..i] from the row for a[..i - 1]. */
  method FillRow(prev: array<int>, curr: array<int>, a: Bytes, b: Bytes, i: nat)
    requires prev != curr && prev.Length == curr.Length == |b| + 1 && 0 < i <= |a|
    requires RowIs(prev[..], a[..i - 1], b, |b| + 1)
    modifies curr
    ensures RowIs(curr[..], a[..i], b, |b| + 1)
  {
    hide Distance;
    curr[0] := i;
    DistanceEnds(a[..i], b[..0]);
    for j := 1 to |b| + 1
      invariant RowIs(curr[..], a[..i], b, j)
      invariant RowIs(prev[..], a[..i - 1], b, |b| + 1)
    {
      NextCell(a, b, i, j);
      var cost := if a[i - 1] == b[j - 1] then 0 else 1;
      assert prev[..][j] == prev[j] && prev[..][j - 1] == prev[j - 1] && curr[..][j - 1] == curr[j - 1];
      ghost var before := curr[..];
      curr[j] := Min3(prev[j] + 1, curr[j - 1] + 1, prev[j - 1] + cost);
      assert forall k :: 0 <= k < j ==> curr[..][k] == before[k];
    }
  }

  lemma DistanceEnds(a: Bytes, b: Bytes)
    ensures a == [] ==> Distance(a, b) == |b|
    ensures b == [] ==> Distance(a, b) == |a|
  {
  }

  // ------------------------------------------------------------------ edit scripts

  datatype Edit = Insert(at: nat, c: Byte) | Delete(at: nat) | Substitute(at: nat, c: Byte)

  predicate Fits(e: Edit, s: Bytes) {
    if e.Insert? then e.at <= |s| else e.at < |s|
  }

  /** One edit, anywhere in the string. */
  function Apply(e: Edit, s: Bytes): Bytes
    requires Fits(e, s)
  {
    match e
    case Insert(i, c) => s[..i] + [c] + s[i..]
    case Delete(i) => s[..i] + s[i + 1..]
    case Substitute(i, c) => s[..i] + [c] + s[i + 1..]
  }

  /** The edits, one after another, turn a into b. */
  ghost predicate Transforms(a: Bytes, script: seq<Edit>, b: Bytes)
    decreases |script|
  {
    if script == [] then a == b
    else Fits(script[0], a) && Transforms(Apply(script[0], a), script[1..], b)
  }

  lemma {:induction false} ScriptsCompose(a: Bytes, s: seq<Edit>, b: Bytes, t: seq<Edit>, c: Bytes)
    requires Transforms(a, s, b) && Transforms(b, t, c)
    ensures Transforms(a, s + t, c)
    decreases |s|
  {
    hide Apply;
    if s == [] {
      assert s + t == t;
    } else {
      ScriptsCompose(Apply(s[0], a), s[1..], b, t, c);
      assert (s + t)[1..] == s[1..] + t;
    }
  }

  lemma EditBeforeByte(e: Edit, a: Bytes, c: Byte)
    requires Fits(e, a)
    ensures Fits(e, a + [c]) && Apply(e, a + [c]) == Apply(e, a) + [c]
  {
    match e {
      case Insert(i, _) => assert (a + [c])[..i] == a[..i] && (a + [c])[i..] == a[i..] + [c];
      case Delete(i) => assert (a + [c])[..i] == a[..i] && (a + [c])[i + 1..] == a[i + 1..] + [c];
      case Substitute(i, _) => assert (a + [c])[..i] == a[..i] && (a + [c])[i + 1..] == a[i + 1..] + [c];
    }
  }

  /** A script works the same in front of a byte it does not reach. */
  lemma {:induction false} ScriptBeforeByte(a: Bytes, s: seq<Edit>, b: Bytes, c: Byte)
    requires Transforms(a, s, b)
    ensures Transforms(a + [c], s, b + [c])
    decreases |s|
  {
    hide Apply, Fits;
    if s != [] {
      ScriptBeforeByte(Apply(s[0], a), s[1..], b, c);
      EditBeforeByte(s[0], a, c);
    }
  }

  lemma OneEditScript(a: Bytes, e: Edit, s: seq<Edit>, b: Bytes)
    requires Fits(e, a) && Transforms(Apply(e, a), s, b)
    ensures Transforms(a, [e] + s, b)
  {
    assert ([e] + s)[1..] == s;
  }

  lemma DeleteLast(a: Bytes, s: seq<Edit>, b: Bytes)
    requires a != [] && Transforms(Front(a), s, b)
    ensures Transforms(a, [Delete(|a| - 1)] + s, b)
  {
    assert Apply(Delete(|a| - 1), a) == Front(a);
    OneEditScript(a, Delete(|a| - 1), s, b);
  }

  lemma AppendInsert(a: Bytes, s: seq<Edit>, b: Bytes)
    requires b != [] && Transforms(a, s, Front(b))
    ensures Transforms(a, s + [Insert(|b| - 1, Last(b))], b)
  {
    var e := Insert(|b| - 1, Last(b));
    assert Apply(e, Front(b)) == b;
    assert Transforms(b, [], b);
    OneEditScript(Front(b), e, [], b);
    assert [e] + [] == [e];
    ScriptsCompose(a, s, Front(b), [e], b);
  }

  lemma ReplaceLast(a: Bytes, c: Byte)
    requires a != []
    ensures Apply(Substitute(|a| - 1, c), a) == Front(a) + [c]
    ensures Front(a) + [Last(a)] == a
  {
  }

  lemma SubstituteLast(a: Bytes, s: seq<Edit>, b: Bytes) returns (t: seq<Edit>)
    requires a != [] && b != [] && Transforms(Front(a), s, Front(b))
    ensures Transforms(a, t, b) && |t| == |s| + SubCost(Last(a), Last(b))
  {
    hide Transforms, Apply;
    ScriptBeforeByte(Front(a), s, Front(b), Last(b));
    ReplaceLast(a, Last(b));
    ReplaceLast(b, Last(b));
    if Last(a) == Last(b) {
      t := s;
    } else {
      OneEditScript(a, Substitute(|a| - 1, Last(b)), s, b);
      t := [Substitute(|a| - 1, Last(b))] + s;
    }
  }

  /** A script as long as the distance exists. */
  lemma {:induction false} ScriptExists(a: Bytes, b: Bytes) returns (s: seq<Edit>)
    ensures Transforms(a, s, b) && |s| == Distance(a, b)
    decreases |a| + |b|
  {
    hide Transforms;
    if a == [] && b == [] {
      EmptyScript(a);
      s := [];
    } else if a == [] || (b != [] && Distance(a, b) == Distance(a, Front(b)) + 1) {
      s := ScriptExists(a, Front(b));
      AppendInsert(a, s, b);
      s := s + [Insert(|b| - 1, Last(b))];
    } else if b == [] || Distance(a, b) == Distance(Front(a), b) + 1 {
      s := ScriptExists(Front(a), b);
      DeleteLast(a, s, b);
      s := [Delete(|a| - 1)] + s;
    } else {
      s := ScriptExists(Front(a), Front(b));
      s := SubstituteLast(a, s, b);
    }
  }

  lemma EmptyScript(a: Bytes)
    ensures Transforms(a, [], a)
  {
  }

  // -------------------------------------------- no edit changes the distance by more than one

  /** Inserting or deleting one byte anywhere. */
  lemma {:induction false} OneByteMore(p: Bytes, c: Byte, s: Bytes, b: Bytes)
    ensures Distance(p + s, b) <= Distance(p + [c] + s, b) + 1
    ensures Distance(p + [c] + s, b) <= Distance(p + s, b) + 1
    decreases |p| + |s| + |b|
  {
    var x, y := p + s, p + [c] + s;
    if b == [] {
      DistanceEnds(x, b);
      DistanceEnds(y, b);
    } else if s == [] {
      assert x == p && y == p + [c] && Front(y) == p;
      OneByteMore(p, c, s, Front(b));
      assert p + s == x && p + [c] + s == y;
      if p == [] {
        DistanceEnds(p, b);
        DistanceEnds(p, Front(b));
      } else {
        LongerByOne(p, b);
      }
    } else {
      assert Front(x) == p + Front(s) && Front(y) == p + [c] + Front(s) && Last(x) == Last(y) == Last(s);
      OneByteMore(p, c, Front(s), b);
      OneByteMore(p, c, s, Front(b));
      OneByteMore(p, c, Front(s), Front(b));
    }
  }

  /** Dropping the last byte of the target changes the distance by at most one. */
  lemma {:induction false} LongerByOne(a: Bytes, b: Bytes)
    requires b != []
    ensures Distance(a, Front(b)) <= Distance(a, b) + 1
    ensures Distance(a, b) <= Distance(a, Front(b)) + 1
    decreases |a| + |b|
  {
    if a == [] {
      DistanceEnds(a, b);
    } else {
      LongerByOne(Front(a), b);
      if |b| == 1 {
        DistanceEnds(a, Front(b));
        DistanceEnds(Front(a), Front(b));
      }
    }
  }

  lemma {:induction false} OneByteOther(p: Bytes, c: Byte, d: Byte, s: Bytes, b: Bytes)
    ensures Distance(p + [c] + s, b) <= Distance(p + [d] + s, b) + 1
    decreases |p| + |s| + |b|
  {
    var x, y := p + [c] + s, p + [d] + s;
    if b == [] {
      DistanceEnds(x, b);
      DistanceEnds(y, b);
    } else if s == [] {
      assert Front(x) == p == Front(y);
      OneByteOther(p, c, d, s, Front(b));
    } else {
      assert Front(x) == p + [c] + Front(s) && Front(y) == p + [d] + Front(s) && Last(x) == Last(y) == Last(s);
      OneByteOther(p, c, d, Front(s), b);
      OneByteOther(p, c, d, s, Front(b));
      OneByteOther(p, c, d, Front(s), Front(b));
    }
  }

  lemma OneEdit(e: Edit, a: Bytes, b: Bytes)
    requires Fits(e, a)
    ensures Distance(a, b) <= Distance(Apply(e, a), b) + 1
  {
    var p := a[..e.at];
    match e
    case Insert(i, c) =>
      assert a == p + a[i..];
      OneByteMore(p, c, a[i..], b);
    case Delete(i) =>
      assert a == p + [a[i]] + a[i + 1..];
      OneByteMore(p, a[i], a[i + 1..], b);
    case Substitute(i, c) =>
      assert a == p + [a[i]] + a[i + 1..];
      OneByteOther(p, a[i], c, a[i + 1..], b);
  }

  lemma {:induction false} DistanceToSelf(a: Bytes)
    ensures Distance(a, a) == 0
  {
    if a != [] {
      DistanceToSelf(Front(a));
    }
  }

  /** No script is shorter than the distance. */
  lemma {:induction false} NoShorterScript(a: Bytes, s: seq<Edit>, b: Bytes)
    requires Transforms(a, s, b)
    ensures Distance(a, b) <= |s|
    decreases |s|
  {
    if s == [] {
      DistanceToSelf(a);
    } else {
      NoShorterScript(Apply(s[0], a), s[1..], b);
      OneEdit(s[0], a, b);
    }
  }

  // ------------------------------------------------------------------------ a metric

  lemma ZeroIffEqual(a: Bytes, b: Bytes)
    ensures Distance(a, b) == 0 <==> a == b
  {
    var s := ScriptExists(a, b);
    if a == b {
      DistanceToSelf(a);
    }
  }

  lemma Triangle(a: Bytes, b: Bytes, c: Bytes)
    ensures Distance(a, c) <= Distance(a, b) + Distance(b, c)
  {
    var s := ScriptExists(a, b);
    var t := ScriptExists(b, c);
    ScriptsCompose(a, s, b, t, c);
    NoShorterScript(a, s + t, c);
  }

  lemma {:induction false} Symmetric(a: Bytes, b: Bytes)
    ensures Distance(a, b) == Distance(b, a)
    decreases |a| + |b|
  {
    if a != [] && b != [] {
      Symmetric(Front(a), b);
      Symmetric(a, Front(b));
      Symmetric(Front(a), Front(b));
    }
  }
}
