/** Index states: arrangements of the positions 0..n-1 of the input. */
module Permutations {
  import opened Lex

  /** The identity ordering 0, 1, ..., n-1 a fresh generator starts from. */
  function Identity(n: nat): (s: seq<nat>)
    ensures |s| == n && forall k :: 0 <= k < n ==> s[k] == k
  {
    if n == 0 then [] else Identity(n - 1) + [n - 1]
  }

  /** The descending ordering n-1, ..., 1, 0 the generator ends at. */
  function Countdown(n: nat): (s: seq<nat>)
    ensures |s| == n && forall k :: 0 <= k < n ==> s[k] == n - 1 - k
  {
    if n == 0 then [] else [n - 1] + Countdown(n - 1)
  }

  predicate InRange(s: seq<nat>, n: nat) {
    forall k :: 0 <= k < |s| ==> s[k] < n
  }

  predicate Distinct(s: seq<nat>) {
    forall a, b :: 0 <= a < b < |s| ==> s[a] != s[b]
  }

  /** `s` arranges 0..n-1: n entries, each below n, none repeated. */
  predicate IsPermutation(s: seq<nat>, n: nat) {
    |s| == n && InRange(s, n) && Distinct(s)
  }

  /** No entry is smaller than its right neighbour: the condition the
      pivot scan tests, position by position. */
  ghost predicate NonIncreasing(s: seq<nat>) {
    forall a, b :: 0 <= a < b < |s| && b == a + 1 ==> s[a] >= s[b]
  }

  lemma {:induction false} IdentityMultiplicity(n: nat, x: nat)
    ensures multiset(Identity(n))[x] == if x < n then 1 else 0
  {
    if n > 0 {
      var m: nat := n - 1;
      IdentityMultiplicity(m, x);
      IdentityStep(m);
      if x == m {
        assert multiset{m}[x] == 1;
      } else {
        assert multiset{m}[x] == 0;
      }
    }
  }

  /** Dropping one position of a distinct sequence keeps it distinct. */
  lemma DropDistinct(s: seq<nat>, p: nat)
    requires p < |s| && Distinct(s)
    ensures Distinct(s[..p] + s[p + 1..])
    ensures multiset(s) == multiset(s[..p] + s[p + 1..]) + multiset{s[p]}
  {
    var t := s[..p] + s[p + 1..];
    assert forall a :: 0 <= a < |t| ==> t[a] == s[if a < p then a else a + 1];
    assert s == s[..p] + [s[p]] + s[p + 1..];
  }

  /** Names the first entry of a non-empty sequence. */
  lemma FirstEntry(s: seq<nat>)
    ensures |s| > 0 ==> s[0] in s
  {
  }

  /** Pigeonhole: at most n distinct entries fit below n, and exactly n of
      them are a rearrangement of the identity. */
  lemma {:induction false} DistinctBound(s: seq<nat>, n: nat)
    requires InRange(s, n) && Distinct(s)
    ensures |s| <= n
    ensures |s| == n ==> multiset(s) == multiset(Identity(n))
    decreases n
  {
    if n == 0 {
      FirstEntry(s);
    } else if p :| 0 <= p < |s| && s[p] == n - 1 {
      DropTop(s, n, p);
      DistinctBound(s[..p] + s[p + 1..], n - 1);
      IdentityStep(n - 1);
    } else {
      BelowTop(s, n);
      DistinctBound(s, n - 1);
    }
  }

  /** Removing the entry n-1 from a distinct sequence below n leaves a
      distinct sequence below n-1. */
  lemma DropTop(s: seq<nat>, n: nat, p: nat)
    requires InRange(s, n) && Distinct(s) && p < |s| && s[p] == n - 1
    ensures InRange(s[..p] + s[p + 1..], n - 1) && Distinct(s[..p] + s[p + 1..])
    ensures multiset(s) == multiset(s[..p] + s[p + 1..]) + multiset{(n - 1) as nat}
  {
    var t := s[..p] + s[p + 1..];
    DropDistinct(s, p);
    assert forall a :: 0 <= a < |t| ==> t[a] == s[if a < p then a else a + 1];
  }

  /** A sequence below n without the entry n-1 is below n-1. */
  lemma BelowTop(s: seq<nat>, n: nat)
    requires n > 0 && InRange(s, n) && forall p :: 0 <= p < |s| ==> s[p] != n - 1
    ensures InRange(s, n - 1)
  {
  }

  lemma IdentityStep(n: nat)
    ensures multiset(Identity(n + 1)) == multiset(Identity(n)) + multiset{n}
  {
    assert Identity(n + 1) == Identity(n) + [n];
  }

  lemma CountTwice(s: seq<nat>, a: nat, b: nat)
    requires a < b < |s| && s[a] == s[b]
    ensures multiset(s)[s[a]] >= 2
  {
    assert s == s[..b] + s[b..];
    assert s[a] in multiset(s[..b]) by { assert s[..b][a] == s[a]; }
    assert s[b] in multiset(s[b..]) by { assert s[b..][0] == s[b]; }
  }

  /** Being a permutation of 0..n is the same as being a rearrangement of
      the identity ordering, in both directions. */
  lemma PermutationIsRearrangement(s: seq<nat>, n: nat)
    ensures IsPermutation(s, n) <==> multiset(s) == multiset(Identity(n))
  {
    if IsPermutation(s, n) {
      DistinctBound(s, n);
    }
    if multiset(s) == multiset(Identity(n)) {
      assert |s| == |multiset(s)| == |multiset(Identity(n))| == n;
      forall k | 0 <= k < |s|
        ensures s[k] < n
      {
        assert s[k] in multiset(s);
        IdentityMultiplicity(n, s[k]);
      }
      forall a, b | 0 <= a < b < |s|
        ensures s[a] != s[b]
      {
        if s[a] == s[b] {
          CountTwice(s, a, b);
          IdentityMultiplicity(n, s[a]);
        }
      }
    }
  }

  /** Two permutations of the same n are rearrangements of each other. */
  lemma PermutationsRearrange(s: seq<nat>, u: seq<nat>, n: nat)
    requires IsPermutation(s, n)
    ensures IsPermutation(u, n) <==> multiset(u) == multiset(s)
  {
    PermutationIsRearrangement(s, n);
    PermutationIsRearrangement(u, n);
  }

  lemma IdentityIsPermutation(n: nat)
    ensures IsPermutation(Identity(n), n)
  {
  }

  /** Neighbour-by-neighbour order extends to every pair of positions. */
  lemma {:induction false} NonIncreasingIsDescending(s: seq<nat>)
    requires NonIncreasing(s)
    ensures Descending(s)
  {
    if |s| > 1 {
      var init := s[..|s| - 1];
      assert NonIncreasing(init);
      NonIncreasingIsDescending(init);
      forall a, b | 0 <= a <= b < |s|
        ensures s[a] >= s[b]
      {
        if b == |s| - 1 && a < b {
          assert init[a] >= init[b - 1];
        } else if b < |s| - 1 {
          assert init[a] >= init[b];
        }
      }
    }
  }

  /** In a distinct sequence with no entry below its right neighbour each
      entry is strictly larger than the next one. */
  lemma StrictlyDecreasing(s: seq<nat>)
    requires NonIncreasing(s) && Distinct(s)
    ensures forall a, b :: 0 <= a < b < |s| ==> s[a] > s[b]
  {
    NonIncreasingIsDescending(s);
  }

  lemma {:induction false} DecreasingUpper(s: seq<nat>, n: nat, k: nat)
    requires InRange(s, n) && k < |s|
    requires forall a, b :: 0 <= a < b < |s| ==> s[a] > s[b]
    ensures s[k] + k <= n - 1
  {
    if k > 0 {
      DecreasingUpper(s, n, k - 1);
    }
  }

  lemma {:induction false} DecreasingLower(s: seq<nat>, k: nat)
    requires k < |s|
    requires forall a, b :: 0 <= a < b < |s| ==> s[a] > s[b]
    ensures s[k] + k >= |s| - 1
    decreases |s| - k
  {
    if k < |s| - 1 {
      DecreasingLower(s, k + 1);
    }
  }

  /** The permutations with no entry below its right neighbour are exactly
      the descending one, n-1, ..., 1, 0. */
  lemma LastPermutation(s: seq<nat>, n: nat)
    requires IsPermutation(s, n)
    ensures NonIncreasing(s) <==> forall k :: 0 <= k < n ==> s[k] == n - 1 - k
  {
    if NonIncreasing(s) {
      StrictlyDecreasing(s);
      forall k | 0 <= k < n
        ensures s[k] == n - 1 - k
      {
        DecreasingUpper(s, n, k);
        DecreasingLower(s, k);
      }
    }
  }
}
