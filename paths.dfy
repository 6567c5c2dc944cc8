/** Relative paths as the funnel handles them: slash-separated strings, joined one
    component at a time and ordered the way JavaScript's default `Array.prototype.sort`
    orders strings (character by character, a proper prefix first). */
module Paths {

  /** `path.join(prefix, name)` for one slash-free component; the empty prefix is the root. */
  function Join(prefix: string, name: string): string
  {
    if prefix == "" then name else prefix + "/" + name
  }

  /** A directory entry name as `readdir` reports it: non-empty and without a separator. */
  predicate IsName(n: string)
  {
    |n| > 0 && '/' !in n
  }

  /** `p` is `q` itself or lies below it. */
  predicate Under(q: string, p: string)
  {
    p == q || (|p| > |q| && p[..|q|] == q && p[|q|] == '/')
  }

  lemma UnderJoin(q: string, n: string, p: string)
    requires q != "" && Under(Join(q, n), p)
    ensures Under(q, p)
  {
    var j := Join(q, n);
    assert j[..|q|] == q && j[|q|] == '/';
    if p != j {
      assert p[..|j|] == j;
      assert p[..|q|] == j[..|q|];
      assert p[|q|] == j[|q|];
    }
  }

  /** Paths below two different sibling names never coincide. */
  lemma UnderSiblingsDisjoint(prefix: string, m: string, n: string, p: string)
    requires IsName(m) && IsName(n) && m != n
    ensures !(Under(Join(prefix, m), p) && Under(Join(prefix, n), p))
  {
    if Under(Join(prefix, m), p) && Under(Join(prefix, n), p) {
      if |m| <= |n| {
        UnderSiblingsShorter(prefix, m, n, p);
      } else {
        UnderSiblingsShorter(prefix, n, m, p);
      }
    }
  }

  lemma UnderSiblingsShorter(prefix: string, m: string, n: string, p: string)
    requires IsName(m) && IsName(n) && |m| <= |n|
    requires Under(Join(prefix, m), p) && Under(Join(prefix, n), p)
    ensures m == n
  {
    var base := if prefix == "" then "" else prefix + "/";
    assert Join(prefix, m) == base + m && Join(prefix, n) == base + n;
    if |m| < |n| {
      UnderLongerHasSlash(base, m, n, p);
      assert false;
    }
    var pm, pn := base + m, base + n;
    assert p[..|pn|] == pn by { if p != pn { } }
    assert p[..|pm|] == pm by { if p != pm { } }
    forall i | 0 <= i < |m| ensures m[i] == n[i] {
      assert pm[|base| + i] == p[|base| + i] == pn[|base| + i];
    }
  }

  /** If `p` lies below both `base + m` and the longer `base + n`, then `n` has a '/'
      right where `m` ends. */
  lemma UnderLongerHasSlash(base: string, m: string, n: string, p: string)
    requires |m| < |n| && Under(base + m, p) && Under(base + n, p)
    ensures n[|m|] == '/'
  {
    var pm, pn := base + m, base + n;
    assert p != pm;
    assert p[..|pn|] == pn by { if p != pn { } }
    assert p[|pm|] == '/';
    assert pn[|pm|] == p[|pm|];
    assert pn[|pm|] == n[|m|];
  }

  /** JavaScript's default string order: first differing character decides, a proper
      prefix comes first. */
  predicate Less(a: string, b: string)
  {
    if |a| == 0 then |b| > 0
    else if |b| == 0 then false
    else if a[0] != b[0] then a[0] < b[0]
    else Less(a[1..], b[1..])
  }

  lemma {:induction false} LessIrreflexive(a: string)
    ensures !Less(a, a)
  {
    if |a| > 0 { LessIrreflexive(a[1..]); }
  }

  lemma {:induction false} LessTransitive(a: string, b: string, c: string)
    requires Less(a, b) && Less(b, c)
    ensures Less(a, c)
  {
    if |a| > 0 && a[0] == b[0] && b[0] == c[0] {
      assert Less(a[1..], b[1..]) && Less(b[1..], c[1..]);
      LessTransitive(a[1..], b[1..], c[1..]);
    }
  }

  lemma {:induction false} LessTotal(a: string, b: string)
    requires a != b
    ensures Less(a, b) || Less(b, a)
  {
    if |a| > 0 && |b| > 0 && a[0] == b[0] {
      assert a == [a[0]] + a[1..] && b == [b[0]] + b[1..];
      LessTotal(a[1..], b[1..]);
    }
  }

  lemma LessAsymmetric(a: string, b: string)
    requires Less(a, b)
    ensures !Less(b, a)
  {
    if Less(b, a) {
      LessTransitive(a, b, a);
      LessIrreflexive(a);
    }
  }

  predicate Sorted(s: seq<string>)
  {
    forall i, j :: 0 <= i < j < |s| ==> !Less(s[j], s[i])
  }

  predicate StrictlySorted(s: seq<string>)
  {
    forall i, j :: 0 <= i < j < |s| ==> Less(s[i], s[j])
  }

  predicate Distinct<T(==)>(s: seq<T>)
  {
    forall i, j :: 0 <= i < j < |s| ==> s[i] != s[j]
  }

  /** Inserts `x` after every element that is not greater than it. */
  function Insert(x: string, s: seq<string>): seq<string>
  {
    if s == [] then [x]
    else if Less(x, s[0]) then [x] + s
    else [s[0]] + Insert(x, s[1..])
  }

  /** The result of JavaScript's `Array.prototype.sort()` on a list of strings
      (an insertion sort: the default order has no ties between distinct strings). */
  function Sort(s: seq<string>): seq<string>
  {
    if s == [] then [] else Insert(s[0], Sort(s[1..]))
  }

  lemma {:induction false} InsertMultiset(x: string, s: seq<string>)
    ensures multiset(Insert(x, s)) == multiset(s) + multiset{x}
  {
    if s != [] && !Less(x, s[0]) {
      InsertMultiset(x, s[1..]);
      assert s == [s[0]] + s[1..];
    }
  }

  lemma InsertFront(x: string, s: seq<string>)
    requires Sorted(s) && s != [] && Less(x, s[0])
    ensures Sorted([x] + s)
  {
    var r := [x] + s;
    forall i, j | 0 <= i < j < |r| ensures !Less(r[j], r[i]) {
      if i == 0 && Less(r[j], x) {
        if j == 1 {
          LessAsymmetric(x, s[0]);
        } else {
          LessTransitive(s[j - 1], x, s[0]);
        }
      }
    }
  }

  lemma InsertLater(x: string, s: seq<string>)
    requires Sorted(s) && s != [] && !Less(x, s[0]) && Sorted(Insert(x, s[1..]))
    ensures Sorted([s[0]] + Insert(x, s[1..]))
  {
    var t := Insert(x, s[1..]);
    var r := [s[0]] + t;
    InsertMultiset(x, s[1..]);
    forall i, j | 0 <= i < j < |r| ensures !Less(r[j], r[i]) {
      if i == 0 {
        // r[j] is an element of t, so either x or an element of s[1..]
        assert r[j] == t[j - 1] && r[j] in multiset(t);
        if r[j] != x {
          assert r[j] in multiset(s[1..]);
          var k :| 0 <= k < |s[1..]| && s[1..][k] == r[j];
          assert s[k + 1] == r[j];
        }
      }
    }
  }

  lemma {:induction false} InsertSorted(x: string, s: seq<string>)
    requires Sorted(s)
    ensures Sorted(Insert(x, s))
    ensures multiset(Insert(x, s)) == multiset(s) + multiset{x}
  {
    InsertMultiset(x, s);
    if s != [] {
      if Less(x, s[0]) {
        InsertFront(x, s);
      } else {
        assert Sorted(s[1..]) by {
          forall i, j | 0 <= i < j < |s[1..]| ensures !Less(s[1..][j], s[1..][i]) {
            assert s[1..][i] == s[i + 1] && s[1..][j] == s[j + 1];
          }
        }
        InsertSorted(x, s[1..]);
        InsertLater(x, s);
      }
    }
  }

  lemma {:induction false} SortSpec(s: seq<string>)
    ensures Sorted(Sort(s))
    ensures multiset(Sort(s)) == multiset(s)
  {
    if s != [] {
      SortSpec(s[1..]);
      InsertSorted(s[0], Sort(s[1..]));
      assert s == [s[0]] + s[1..];
    }
  }

  lemma {:induction false} DistinctCounts<T>(s: seq<T>, x: T)
    requires Distinct(s)
    ensures multiset(s)[x] <= 1
  {
    if s != [] {
      assert s == [s[0]] + s[1..];
      DistinctCounts(s[1..], x);
      if x == s[0] {
        assert x !in s[1..];
      }
    }
  }

  lemma DuplicateCounts<T>(s: seq<T>, i: int, j: int)
    requires 0 <= i < j < |s| && s[i] == s[j]
    ensures multiset(s)[s[i]] >= 2
  {
    assert s == s[..j] + s[j..];
    assert s[i] in s[..j];
    assert s[j] in s[j..];
  }

  lemma DistinctPermutation<T>(a: seq<T>, b: seq<T>)
    requires Distinct(a) && multiset(a) == multiset(b)
    ensures Distinct(b)
  {
    forall i, j | 0 <= i < j < |b| ensures b[i] != b[j] {
      if b[i] == b[j] {
        DuplicateCounts(b, i, j);
        DistinctCounts(a, b[i]);
      }
    }
  }

  lemma DistinctConcat<T>(a: seq<T>, b: seq<T>)
    requires Distinct(a) && Distinct(b)
    requires forall x :: x in a && x in b ==> false
    ensures Distinct(a + b)
  {
    forall i, j | 0 <= i < j < |a + b| ensures (a + b)[i] != (a + b)[j] {
      if i < |a| && j >= |a| {
        assert (a + b)[i] in a && (a + b)[j] == b[j - |a|];
      }
    }
  }

  lemma StrictIsDistinct(s: seq<string>)
    requires StrictlySorted(s)
    ensures Distinct(s)
  {
    forall i, j | 0 <= i < j < |s| ensures s[i] != s[j] {
      LessIrreflexive(s[i]);
    }
  }

  lemma SortedDistinctIsStrict(s: seq<string>)
    requires Sorted(s) && Distinct(s)
    ensures StrictlySorted(s)
  {
    forall i, j | 0 <= i < j < |s| ensures Less(s[i], s[j]) {
      LessTotal(s[i], s[j]);
    }
  }

  /** Sorting a list without repetitions yields a strictly ascending list of the same strings. */
  lemma SortDistinct(s: seq<string>)
    requires Distinct(s)
    ensures StrictlySorted(Sort(s))
    ensures forall p :: p in Sort(s) <==> p in s
  {
    SortSpec(s);
    DistinctPermutation(s, Sort(s));
    SortedDistinctIsStrict(Sort(s));
    forall p ensures p in Sort(s) <==> p in s {
      assert p in Sort(s) <==> p in multiset(Sort(s));
      assert p in s <==> p in multiset(s);
    }
  }

  /** Two strictly ascending lists holding the same strings are the same list. */
  lemma {:induction false} StrictlySortedUnique(a: seq<string>, b: seq<string>)
    requires StrictlySorted(a) && StrictlySorted(b)
    requires forall p :: p in a <==> p in b
    ensures a == b
  {
    if a == [] || b == [] {
      if a != [] { HeadIsMember(a); assert false; }
      if b != [] { HeadIsMember(b); assert false; }
    } else {
      assert a[0] in b && b[0] in a;
      if a[0] != b[0] {
        var i :| 0 <= i < |a| && a[i] == b[0];
        var j :| 0 <= j < |b| && b[j] == a[0];
        assert i > 0 && j > 0;
        LessTransitive(a[0], b[0], a[0]);
        LessIrreflexive(a[0]);
      }
      forall p ensures p in a[1..] <==> p in b[1..] {
        if p in a[1..] {
          var i :| 0 <= i < |a[1..]| && a[1..][i] == p;
          assert a[i + 1] == p && Less(a[0], p);
          LessIrreflexive(p);
          assert p in b;
        }
        if p in b[1..] {
          var i :| 0 <= i < |b[1..]| && b[1..][i] == p;
          assert b[i + 1] == p && Less(b[0], p);
          LessIrreflexive(p);
          assert p in a;
        }
      }
      StrictlySortedUnique(a[1..], b[1..]);
      assert a == [a[0]] + a[1..] && b == [b[0]] + b[1..];
    }
  }

  lemma HeadIsMember(s: seq<string>)
    requires s != []
    ensures s[0] in s
  {
  }

  /** Index of the last '/' in `s`, or -1 when there is none. */
  function LastSlash(s: string): (k: int)
    ensures -1 <= k < |s|
    ensures k >= 0 ==> s[k] == '/'
    ensures forall j :: k < j < |s| ==> s[j] != '/'
  {
    if |s| == 0 then -1
    else if s[|s| - 1] == '/' then |s| - 1
    else LastSlash(s[..|s| - 1])
  }

  /** `path.dirname` of a path relative to a root; "" stands for the root itself. */
  function Dirname(p: string): (d: string)
    ensures p != "" ==> |d| < |p|
  {
    var k := LastSlash(p);
    if k < 0 then "" else p[..k]
  }

  /** A directory and every directory above it, up to and including the root "". */
  function Chain(d: string): (c: set<string>)
    ensures "" in c && d in c
    ensures forall a :: a in c ==> |a| <= |d|
  {
    {"", d} + set k | 0 <= k < |d| && d[k] == '/' :: d[..k]
  }

  /** A non-empty path is never one of its own ancestors. */
  lemma NotInOwnChain(p: string)
    requires p != ""
    ensures p !in Chain(Dirname(p))
  {
  }
}
