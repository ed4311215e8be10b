/** Node names and the byte-wise order Go's `<` and `sort.Strings` give them.
    Everything the compiler does deterministically, it does in this order. */
module Names {

  datatype Option<+T> = None | Some(value: T)

  type Name = string

  newtype Byte = x: int | 0 <= x < 256

  type Bytes = seq<Byte>

  /** Reserved routing target that leaves the current scope. */
  const RETURN: Name := "return"

  /** Engine-internal target that moves an iterating step to its next item. */
  const CONTINUE: Name := "_continue"

  predicate Less(a: Name, b: Name) {
    if b == [] then false
    else if a == [] then true
    else if a[0] != b[0] then a[0] < b[0]
    else Less(a[1..], b[1..])
  }

  /** The strings agree up to `k`, and there the first ends or has the smaller character. */
  ghost predicate LessAt(a: Name, b: Name, k: nat) {
    k < |b| && k <= |a| && a[..k] == b[..k] && (k < |a| ==> a[k] < b[k])
  }

  /** The order of Go's strings: by the first character that differs, a prefix before what it is a prefix of. */
  lemma {:induction false} LessIff(a: Name, b: Name)
    ensures Less(a, b) <==> exists k :: LessAt(a, b, k)
  {
    if a == [] && b != [] {
      assert LessAt(a, b, 0);
    } else if a != [] && b != [] && a[0] != b[0] {
      if a[0] < b[0] {
        assert LessAt(a, b, 0);
      } else if k: nat :| LessAt(a, b, k) {
        LessAtFirst(a, b, k);
      }
    } else if a != [] && b != [] {
      LessIff(a[1..], b[1..]);
      LessFurther(a, b);
    }
  }

  lemma LessAtFirst(a: Name, b: Name, k: nat)
    requires a != [] && LessAt(a, b, k)
    ensures a[0] <= b[0]
  {
    if k > 0 {
      assert a[..k][0] == a[0] && b[..k][0] == b[0];
    }
  }

  lemma LessFurther(a: Name, b: Name)
    requires a != [] && b != [] && a[0] == b[0]
    ensures (exists k :: LessAt(a, b, k)) <==> exists k :: LessAt(a[1..], b[1..], k)
  {
    if k: nat :| LessAt(a, b, k) {
      assert k > 0;
      assert a[1..][..k - 1] == a[..k][1..] && b[1..][..k - 1] == b[..k][1..];
      assert LessAt(a[1..], b[1..], k - 1);
    }
    if k: nat :| LessAt(a[1..], b[1..], k) {
      assert a[..k + 1] == [a[0]] + a[1..][..k] && b[..k + 1] == [b[0]] + b[1..][..k];
      assert LessAt(a, b, k + 1);
    }
  }

  lemma {:induction false} LessIrreflexive(a: Name)
    ensures !Less(a, a)
  {
    if a != [] {
      LessIrreflexive(a[1..]);
    }
  }

  lemma {:induction false} LessTransitive(a: Name, b: Name, c: Name)
    requires Less(a, b) && Less(b, c)
    ensures Less(a, c)
  {
    if a != [] && a[0] == b[0] && b[0] == c[0] {
      LessTransitive(a[1..], b[1..], c[1..]);
    }
  }

  lemma {:induction false} LessTotal(a: Name, b: Name)
    ensures a == b || Less(a, b) || Less(b, a)
  {
    if a != [] && b != [] && a[0] == b[0] {
      LessTotal(a[1..], b[1..]);
      assert a == [a[0]] + a[1..] && b == [b[0]] + b[1..];
    }
  }

  /** `Less` is a strict total order: at most one of a < b and b < a, exactly one when a != b. */
  lemma LessExactlyOne(a: Name, b: Name)
    ensures a != b ==> Less(a, b) != Less(b, a)
    ensures a == b ==> !Less(a, b)
  {
    LessTotal(a, b);
    if Less(a, b) && Less(b, a) {
      LessTransitive(a, b, a);
    }
    LessIrreflexive(a);
  }

  predicate IsLeast(m: Name, s: set<Name>) {
    m in s && forall x :: x in s && x != m ==> Less(m, x)
  }

  lemma {:induction false} LeastExists(s: set<Name>) returns (m: Name)
    requires s != {}
    ensures IsLeast(m, s)
    decreases s
  {
    var x :| x in s;
    if s == {x} {
      m := x;
    } else {
      assert s - {x} != {};
      var r := LeastExists(s - {x});
      LessTotal(x, r);
      m := if Less(x, r) then x else r;
      forall y | y in s && y != m
        ensures Less(m, y)
      {
        if y != x && y != r {
          assert y in s - {x};
          if m == x {
            LessTransitive(x, r, y);
          }
        }
      }
    }
  }

  lemma LeastUnique(m: Name, n: Name, s: set<Name>)
    requires IsLeast(m, s) && IsLeast(n, s)
    ensures m == n
  {
    LessExactlyOne(m, n);
  }

  function Least(s: set<Name>): (m: Name)
    requires s != {}
    ensures IsLeast(m, s)
  {
    assert exists m :: IsLeast(m, s) by {
      var m := LeastExists(s);
    }
    assert forall m, n :: IsLeast(m, s) && IsLeast(n, s) ==> m == n by {
      forall m, n | IsLeast(m, s) && IsLeast(n, s)
        ensures m == n
      {
        LeastUnique(m, n, s);
      }
    }
    var m :| m in s && IsLeast(m, s);
    m
  }

  ghost predicate Ascending(r: seq<Name>) {
    forall i, j :: 0 <= i < j < |r| ==> Less(r[i], r[j])
  }

  /** The keys of a map in ascending order, each once. */
  function SortedKeys(s: set<Name>): (r: seq<Name>)
    ensures forall x :: x in r <==> x in s
    ensures Ascending(r)
    ensures |r| == |s|
    decreases s
  {
    if s == {} then []
    else
      var m := Least(s);
      var rest := SortedKeys(s - {m});
      assert forall x :: x in rest ==> x in s - {m};
      AscendingFrom(m, rest);
      [m] + rest
  }

  lemma AscendingFrom(m: Name, rest: seq<Name>)
    requires Ascending(rest) && forall x :: x in rest ==> Less(m, x)
    ensures Ascending([m] + rest)
  {
    hide Less;
  }

  ghost predicate NonDescending(r: seq<Name>) {
    forall i, j :: 0 <= i < j < |r| ==> r[i] == r[j] || Less(r[i], r[j])
  }

  function Insert(x: Name, s: seq<Name>): (r: seq<Name>)
    ensures multiset(r) == multiset(s) + multiset{x}
  {
    if s == [] then [x]
    else if s[0] == x || Less(x, s[0]) then [x] + s
    else
      assert s == [s[0]] + s[1..];
      [s[0]] + Insert(x, s[1..])
  }

  lemma {:induction false} InsertOrdered(x: Name, s: seq<Name>)
    requires NonDescending(s)
    ensures NonDescending(Insert(x, s))
  {
    hide Less;
    if s == [] {
    } else if s[0] == x || Less(x, s[0]) {
      forall j | 0 < j < |s| && s[0] != x && s[0] != s[j]
        ensures Less(x, s[j])
      {
        LessTransitive(x, s[0], s[j]);
      }
    } else {
      LessTotal(x, s[0]);
      InsertOrdered(x, s[1..]);
      var r := Insert(x, s[1..]);
      assert Insert(x, s) == [s[0]] + r;
      forall y | y in r
        ensures y == s[0] || Less(s[0], y)
      {
        assert y in multiset(r);
        if y != x {
          assert y in multiset(s[1..]);
          assert y in s[1..];
        }
      }
    }
  }

  /** sort.Strings. */
  function Sort(s: seq<Name>): (r: seq<Name>)
    ensures NonDescending(r) && multiset(r) == multiset(s)
  {
    if s == [] then []
    else
      assert s == [s[0]] + s[1..];
      InsertOrdered(s[0], Sort(s[1..]));
      Insert(s[0], Sort(s[1..]))
  }

  // ------------------------------------------------------------------- decimals

  const DIGITS := "0123456789"

  /** Decimal digits, as strconv and %d print them. */
  function FormatUint(n: nat): (s: string)
    ensures s != []
  {
    if n < 10 then [DIGITS[n]] else FormatUint(n / 10) + [DIGITS[n % 10]]
  }

  /** The number a string of digits stands for. */
  function ValueOf(s: string): nat {
    if s == [] then 0
    else
      var d := s[|s| - 1];
      10 * ValueOf(s[..|s| - 1]) + if '0' <= d <= '9' then d as int - '0' as int else 0
  }

  /** Printing is decimal: the number can be read back, and no digit but the only one is a leading zero. */
  lemma {:induction false} FormatIsDecimal(n: nat)
    ensures ValueOf(FormatUint(n)) == n
    ensures forall c :: c in FormatUint(n) ==> '0' <= c <= '9'
    ensures n > 0 ==> FormatUint(n)[0] != '0'
  {
    assert forall k :: 0 <= k < 10 ==> DIGITS[k] as int == '0' as int + k;
    if n < 10 {
      assert FormatUint(n)[..0] == [];
    } else {
      FormatIsDecimal(n / 10);
      var s := FormatUint(n / 10);
      assert FormatUint(n) == s + [DIGITS[n % 10]] && (s + [DIGITS[n % 10]])[..|s|] == s;
    }
  }

  lemma {:induction false} FormatInjective(m: nat, n: nat)
    requires FormatUint(m) == FormatUint(n)
    ensures m == n
  {
    var s, t := FormatUint(m), FormatUint(n);
    assert s[|s| - 1] == DIGITS[m % 10] && t[|t| - 1] == DIGITS[n % 10];
    if m >= 10 && n >= 10 {
      assert s[..|s| - 1] == FormatUint(m / 10) && t[..|t| - 1] == FormatUint(n / 10);
      FormatInjective(m / 10, n / 10);
    }
  }
}
