/**
 * Python's operations on `str` that the application relies on: the order
 * `sorted` uses (lexicographic by code point, a proper prefix first),
 * `sorted(set(xs))` built on it, and the substring test `sub in s`.
 */
module Strings {

  /** Python's `sub in s` on strings: `sub` occurs in `s` as a contiguous block. */
  predicate ContainsSub(s: string, sub: string)
    decreases |s|
  {
    if sub <= s then true
    else if s == [] then false
    else ContainsSub(s[1..], sub)
  }

  /** `a < b` on Python strings. */
  predicate Less(a: string, b: string)
    decreases |a|
  {
    if |a| == 0 then |b| > 0
    else if |b| == 0 then false
    else a[0] < b[0] || (a[0] == b[0] && Less(a[1..], b[1..]))
  }

  /** `sub` occurs in `s` starting at offset `i`. */
  predicate OccursAt(s: string, sub: string, i: int)
  {
    0 <= i <= |s| - |sub| && s[i..i + |sub|] == sub
  }

  lemma OccursAtStart(s: string, sub: string)
    ensures OccursAt(s, sub, 0) <==> sub <= s
  {
  }

  lemma OccursShift(s: string, sub: string, j: int)
    requires s != [] && j >= 0
    ensures OccursAt(s[1..], sub, j) <==> OccursAt(s, sub, j + 1)
  {
    if j <= |s| - 1 - |sub| {
      assert s[1..][j..j + |sub|] == s[j + 1..j + 1 + |sub|];
    }
  }

  /** `ContainsSub` holds exactly when `sub` occurs at some offset of `s`. */
  lemma {:induction false} ContainsSubAt(s: string, sub: string)
    ensures ContainsSub(s, sub) <==> exists i :: OccursAt(s, sub, i)
    decreases |s|
  {
    OccursAtStart(s, sub);
    if !(sub <= s) && s != [] {
      var t := s[1..];
      ContainsSubAt(t, sub);
      if ContainsSub(t, sub) {
        var j :| OccursAt(t, sub, j);
        OccursShift(s, sub, j);
      }
      if exists i :: OccursAt(s, sub, i) {
        var i :| OccursAt(s, sub, i);
        OccursShift(s, sub, i - 1);
      }
    }
  }

  /** `a` is a proper prefix of `b`. */
  predicate ProperPrefix(a: string, b: string)
  {
    |a| < |b| && a == b[..|a|]
  }

  /** `a` and `b` agree before index `k`, where `a` has the smaller code point. */
  predicate FirstSmallerAt(a: string, b: string, k: int)
  {
    0 <= k < |a| && k < |b| && a[..k] == b[..k] && a[k] < b[k]
  }

  lemma ProperPrefixShift(a: string, b: string)
    requires a != [] && b != [] && a[0] == b[0]
    ensures ProperPrefix(a[1..], b[1..]) <==> ProperPrefix(a, b)
  {
    if |a| < |b| {
      assert b[..|a|] == [b[0]] + b[1..][..|a| - 1];
      assert a == [a[0]] + a[1..];
    }
  }

  lemma FirstSmallerShift(a: string, b: string, k: int)
    requires a != [] && b != [] && a[0] == b[0] && k >= 0
    ensures FirstSmallerAt(a[1..], b[1..], k) <==> FirstSmallerAt(a, b, k + 1)
  {
    if k < |a| - 1 && k < |b| - 1 {
      assert a[..k + 1] == [a[0]] + a[1..][..k];
      assert b[..k + 1] == [b[0]] + b[1..][..k];
    }
  }

  lemma HeadsDiffer(a: string, b: string, k: int)
    requires a != [] && b != [] && a[0] != b[0]
    ensures FirstSmallerAt(a, b, k) <==> k == 0 && a[0] < b[0]
    ensures !ProperPrefix(a, b)
  {
    if 0 < k <= |a| && k <= |b| {
      assert a[..k][0] == a[0] && b[..k][0] == b[0];
    }
    if |a| < |b| {
      assert b[..|a|][0] == b[0];
    }
  }

  /**
   * `Less` is the lexicographic order: `a` is a proper prefix of `b`, or the
   * two agree up to a first position where `a` has the smaller code point.
   */
  lemma {:induction false} LessAt(a: string, b: string)
    ensures Less(a, b) <==> ProperPrefix(a, b) || exists k :: FirstSmallerAt(a, b, k)
    decreases |a|
  {
    if |a| > 0 && |b| > 0 {
      var a', b' := a[1..], b[1..];
      if a[0] == b[0] {
        LessAt(a', b');
        ProperPrefixShift(a, b);
        if exists k :: FirstSmallerAt(a', b', k) {
          var k :| FirstSmallerAt(a', b', k);
          FirstSmallerShift(a, b, k);
        }
        if exists k :: FirstSmallerAt(a, b, k) {
          var k :| FirstSmallerAt(a, b, k);
          FirstSmallerShift(a, b, k - 1);
        }
      } else {
        HeadsDiffer(a, b, 0);
        if exists k :: FirstSmallerAt(a, b, k) {
          var k :| FirstSmallerAt(a, b, k);
          HeadsDiffer(a, b, k);
        }
      }
    }
  }

  lemma {:induction false} LessIrreflexive(a: string)
    ensures !Less(a, a)
    decreases |a|
  {
    if |a| > 0 {
      LessIrreflexive(a[1..]);
    }
  }

  lemma {:induction false} LessTransitive(a: string, b: string, c: string)
    requires Less(a, b) && Less(b, c)
    ensures Less(a, c)
    decreases |a|
  {
    if |a| > 0 && a[0] == b[0] && b[0] == c[0] {
      LessTransitive(a[1..], b[1..], c[1..]);
    }
  }

  lemma {:induction false} LessTotal(a: string, b: string)
    requires a != b
    ensures Less(a, b) || Less(b, a)
    decreases |a|
  {
    if |a| > 0 && |b| > 0 && a[0] == b[0] {
      assert a == [a[0]] + a[1..] && b == [b[0]] + b[1..];
      LessTotal(a[1..], b[1..]);
    }
  }

  lemma LessAsymmetric(a: string, b: string)
    requires Less(a, b)
    ensures !Less(b, a)
  {
    if Less(b, a) {
      LessTransitive(a, b, a);
      LessIrreflexive(a);
    }
  }

  /** Strictly increasing, hence also free of duplicates. */
  predicate StrictlySorted(s: seq<string>) {
    forall i, j :: 0 <= i < j < |s| ==> Less(s[i], s[j])
  }

  lemma SortedDistinct(s: seq<string>, i: int, j: int)
    requires StrictlySorted(s) && 0 <= i < |s| && 0 <= j < |s| && i != j
    ensures s[i] != s[j]
  {
    if i < j { LessIrreflexive(s[i]); } else { LessIrreflexive(s[j]); }
  }

  /** Adds `x` to a strictly sorted sequence unless it is already there. */
  function Insert(x: string, s: seq<string>): (r: seq<string>)
    requires StrictlySorted(s)
    ensures StrictlySorted(r)
    ensures forall c :: c in r <==> c == x || c in s
    decreases |s|
  {
    if s == [] then [x]
    else if x == s[0] then s
    else if Less(x, s[0]) then
      assert forall j :: 0 < j < |s| ==> Less(x, s[j]) by {
        forall j | 0 < j < |s| ensures Less(x, s[j]) { LessTransitive(x, s[0], s[j]); }
      }
      [x] + s
    else
      var rest := Insert(x, s[1..]);
      LessTotal(x, s[0]);
      assert forall c :: c in rest ==> Less(s[0], c);
      [s[0]] + rest
  }

  /** `sorted(set(xs))`. */
  function SortedSet(xs: seq<string>): (r: seq<string>)
    ensures StrictlySorted(r)
    ensures forall c :: c in r <==> c in xs
  {
    if xs == [] then [] else Insert(xs[0], SortedSet(xs[1..]))
  }

  lemma HeadIsMember(s: seq<string>)
    ensures s != [] ==> s[0] in s
  {
  }

  /**
   * A strictly sorted sequence is determined by its elements, so `SortedSet`
   * is the only sequence with the two properties it promises.
   */
  lemma {:induction false} SortedUnique(a: seq<string>, b: seq<string>)
    requires StrictlySorted(a) && StrictlySorted(b)
    requires forall c :: c in a <==> c in b
    ensures a == b
    decreases |a|
  {
    if a == [] {
      HeadIsMember(b);
    } else {
      assert a[0] in b;
      assert b != [];
      if a[0] != b[0] {
        assert b[0] in a;
        var i :| 0 <= i < |a| && a[i] == b[0];
        var j :| 0 <= j < |b| && b[j] == a[0];
        LessAsymmetric(a[0], b[0]);
        assert false;
      }
      forall c ensures c in a[1..] <==> c in b[1..] {
        if c in a[1..] {
          var i :| 1 <= i < |a| && a[i] == c;
          SortedDistinct(a, 0, i);
          assert c in b;
        }
        if c in b[1..] {
          var j :| 1 <= j < |b| && b[j] == c;
          SortedDistinct(b, 0, j);
          assert c in a;
        }
      }
      SortedUnique(a[1..], b[1..]);
      assert a == [a[0]] + a[1..] && b == [b[0]] + b[1..];
    }
  }
}
