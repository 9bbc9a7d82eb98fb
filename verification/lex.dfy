/** Lexicographic order on index sequences of equal length, and the two
    facts about it that the successor algorithm relies on: a non-decreasing
    arrangement is the least of all its rearrangements and a non-increasing
    one the greatest. */
module Lex {

  /** `a` comes strictly before `b`: they agree up to some position `k`
      and `a` is smaller at `k`. */
  predicate LexLess(a: seq<nat>, b: seq<nat>) {
    |a| == |b| && exists k :: 0 <= k < |a| && a[..k] == b[..k] && a[k] < b[k]
  }

  predicate LexLessEq(a: seq<nat>, b: seq<nat>) {
    a == b || LexLess(a, b)
  }

  /** Every pair of positions is ordered (pairwise, not only neighbours). */
  predicate Ascending(s: seq<nat>) {
    forall a, b :: 0 <= a <= b < |s| ==> s[a] <= s[b]
  }

  predicate Descending(s: seq<nat>) {
    forall a, b :: 0 <= a <= b < |s| ==> s[a] >= s[b]
  }

  /** The first position at or after `i` where two sequences of equal
      length differ, or their length when they agree from `i` on. */
  function FirstDiffFrom(a: seq<nat>, b: seq<nat>, i: nat): (k: nat)
    requires |a| == |b| && i <= |a|
    ensures i <= k <= |a|
    ensures forall m :: i <= m < k ==> a[m] == b[m]
    ensures k < |a| ==> a[k] != b[k]
    decreases |a| - i
  {
    if i == |a| || a[i] != b[i] then i else FirstDiffFrom(a, b, i + 1)
  }

  /** The first position where two distinct sequences of equal length
      differ. */
  function FirstDiff(a: seq<nat>, b: seq<nat>): (k: nat)
    requires |a| == |b| && a != b
    ensures k < |a| && a[..k] == b[..k] && a[k] != b[k]
  {
    FirstDiffFrom(a, b, 0)
  }

  /** Two sequences that agree on a prefix of length `k` agree on every
      shorter prefix. */
  lemma PrefixShrink(a: seq<nat>, b: seq<nat>, k: nat, m: nat)
    requires m <= k <= |a| && k <= |b| && a[..k] == b[..k]
    ensures a[..m] == b[..m]
  {
    assert a[..m] == a[..k][..m];
    assert b[..m] == b[..k][..m];
  }

  lemma LexLessIrreflexive(a: seq<nat>)
    ensures !LexLess(a, a)
  {
  }

  lemma {:induction false} LexLessTransitive(a: seq<nat>, b: seq<nat>, c: seq<nat>)
    requires LexLess(a, b) && LexLess(b, c)
    ensures LexLess(a, c)
  {
    var k1 :| 0 <= k1 < |a| && a[..k1] == b[..k1] && a[k1] < b[k1];
    var k2 :| 0 <= k2 < |b| && b[..k2] == c[..k2] && b[k2] < c[k2];
    if k1 <= k2 {
      PrefixShrink(b, c, k2, k1);
      assert b[k1] <= c[k1] by {
        if k1 < k2 {
          assert b[..k2][k1] == c[..k2][k1];
        }
      }
      assert a[..k1] == c[..k1] && a[k1] < c[k1];
    } else {
      PrefixShrink(a, b, k1, k2);
      assert a[..k1][k2] == b[..k1][k2];
      assert a[..k2] == c[..k2] && a[k2] < c[k2];
    }
  }

  lemma {:induction false} LexLessAsymmetric(a: seq<nat>, b: seq<nat>)
    requires LexLess(a, b)
    ensures !LexLess(b, a) && a != b
  {
    if LexLess(b, a) {
      LexLessTransitive(a, b, a);
      LexLessIrreflexive(a);
    }
  }

  /** Prefixing both sides with the same sequence keeps the order. */
  lemma {:induction false} LexLessEqPrefix(p: seq<nat>, a: seq<nat>, b: seq<nat>)
    requires LexLessEq(a, b)
    ensures LexLessEq(p + a, p + b)
  {
    if a != b {
      var k :| 0 <= k < |a| && a[..k] == b[..k] && a[k] < b[k];
      assert (p + a)[..|p| + k] == p + a[..k];
      assert (p + b)[..|p| + k] == p + b[..k];
      assert (p + a)[|p| + k] == a[k] && (p + b)[|p| + k] == b[k];
    }
  }

  /** Two sequences that agree on a prefix and are rearrangements of each
      other are rearrangements on the remaining suffix too. */
  lemma SuffixMultiset(u: seq<nat>, s: seq<nat>, k: nat)
    requires k <= |u| && k <= |s| && u[..k] == s[..k]
    requires multiset(u) == multiset(s)
    ensures multiset(u[k..]) == multiset(s[k..])
  {
    assert u == u[..k] + u[k..];
    assert s == s[..k] + s[k..];
    assert multiset(u) == multiset(u[..k]) + multiset(u[k..]);
    assert multiset(s) == multiset(s[..k]) + multiset(s[k..]);
    forall x
      ensures multiset(u[k..])[x] == multiset(s[k..])[x]
    {
      assert multiset(u)[x] == multiset(u[..k])[x] + multiset(u[k..])[x];
      assert multiset(s)[x] == multiset(s[..k])[x] + multiset(s[k..])[x];
    }
  }

  /** A non-decreasing sequence is the lexicographically least of all its
      rearrangements. */
  lemma {:induction false} AscendingIsLeast(t: seq<nat>, u: seq<nat>)
    requires Ascending(t) && multiset(u) == multiset(t)
    ensures LexLessEq(t, u)
  {
    if t != u {
      assert |u| == |multiset(u)| == |t|;
      var k := FirstDiff(t, u);
      SuffixMultiset(u, t, k);
      assert u[k] in multiset(t[k..]) by {
        assert u[k..][0] == u[k];
      }
      var m :| 0 <= m < |t[k..]| && t[k..][m] == u[k];
      assert t[k] <= t[k + m];
      assert LexLess(t, u);
    }
  }

  /** A non-increasing sequence is the lexicographically greatest of all
      its rearrangements. */
  lemma {:induction false} DescendingIsGreatest(t: seq<nat>, u: seq<nat>)
    requires Descending(t) && multiset(u) == multiset(t)
    ensures LexLessEq(u, t)
  {
    if t != u {
      assert |u| == |multiset(u)| == |t|;
      var k := FirstDiff(u, t);
      SuffixMultiset(u, t, k);
      assert u[k] in multiset(t[k..]) by {
        assert u[k..][0] == u[k];
      }
      var m :| 0 <= m < |t[k..]| && t[k..][m] == u[k];
      assert t[k] >= t[k + m];
      assert LexLess(u, t);
    }
  }
}
