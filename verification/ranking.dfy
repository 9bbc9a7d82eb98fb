/** The lexicographic rank of an index state (its Lehmer code read as a
    factorial-base number). The successor step raises the rank of a
    permutation by exactly one, which is how the number of states the
    iterator visits is counted. */
module Ranking {
  import opened Options
  import opened Lex
  import opened Permutations
  import opened NextPermutation

  function Fact(n: nat): (f: nat)
    ensures f >= 1
  {
    if n == 0 then 1 else n * Fact(n - 1)
  }

  /** How many entries of `t` lie below `v`. */
  function CountLess(t: seq<nat>, v: nat): (c: nat)
    ensures c <= |t|
  {
    if t == [] then 0 else (if t[0] < v then 1 else 0) + CountLess(t[1..], v)
  }

  /** For each position, the number of later entries below it, weighted by
      the factorial of the number of later positions. */
  function Rank(s: seq<nat>): (r: nat)
  {
    if s == [] then 0 else CountLess(s[1..], s[0]) * Fact(|s| - 1) + Rank(s[1..])
  }

  lemma {:induction false} CountLessAppend(a: seq<nat>, b: seq<nat>, v: nat)
    ensures CountLess(a + b, v) == CountLess(a, v) + CountLess(b, v)
  {
    if a != [] {
      assert (a + b)[1..] == a[1..] + b;
      CountLessAppend(a[1..], b, v);
    } else {
      assert a + b == b;
    }
  }

  /** The count depends only on which entries there are, not on their
      order. */
  lemma {:induction false} CountLessRearrange(a: seq<nat>, b: seq<nat>, v: nat)
    requires multiset(a) == multiset(b)
    ensures CountLess(a, v) == CountLess(b, v)
    decreases |a|
  {
    assert |a| == |multiset(a)| == |multiset(b)| == |b|;
    if a != [] {
      var x := a[0];
      assert x in multiset(b) by {
        assert x in multiset(a);
      }
      var i :| 0 <= i < |b| && b[i] == x;
      var rest := b[..i] + b[i + 1..];
      RemoveOne(a, b, i);
      CountLessRearrange(a[1..], rest, v);
      CountLessAppend(b[..i] + [x], b[i + 1..], v);
      CountLessAppend(b[..i], [x], v);
      CountLessAppend(b[..i], b[i + 1..], v);
    }
  }

  /** Taking the head of `a` out of `b` at a position where `b` holds it
      leaves a rearrangement of the tail of `a`. */
  lemma RemoveOne(a: seq<nat>, b: seq<nat>, i: nat)
    requires a != [] && i < |b| && b[i] == a[0] && multiset(a) == multiset(b)
    ensures multiset(b[..i] + b[i + 1..]) == multiset(a[1..])
    ensures b == b[..i] + [a[0]] + b[i + 1..]
  {
    var x := a[0];
    var rest := b[..i] + b[i + 1..];
    assert b == b[..i] + [x] + b[i + 1..];
    assert a == [x] + a[1..];
    assert multiset(b) == multiset(rest) + multiset{x};
    assert multiset(a) == multiset(a[1..]) + multiset{x};
    forall y
      ensures multiset(rest)[y] == multiset(a[1..])[y]
    {
      assert multiset(b)[y] == multiset(rest)[y] + multiset{x}[y];
    }
  }

  /** Two thresholds that split the entries of `t` alike give equal
      counts. */
  lemma {:induction false} CountLessAgree(t: seq<nat>, v: nat, w: nat)
    requires forall k :: 0 <= k < |t| ==> (t[k] < v <==> t[k] < w)
    ensures CountLess(t, v) == CountLess(t, w)
  {
    if t != [] {
      CountLessAgree(t[1..], v, w);
    }
  }

  lemma {:induction false} CountLessAll(t: seq<nat>, v: nat)
    requires forall k :: 0 <= k < |t| ==> t[k] < v
    ensures CountLess(t, v) == |t|
  {
    if t != [] {
      CountLessAll(t[1..], v);
    }
  }

  lemma {:induction false} CountLessNone(t: seq<nat>, v: nat)
    requires forall k :: 0 <= k < |t| ==> v <= t[k]
    ensures CountLess(t, v) == 0
  {
    if t != [] {
      CountLessNone(t[1..], v);
    }
  }

  /** Replacing one entry changes the count by what the old entry and the
      new one contribute. */
  lemma CountLessUpdate(t: seq<nat>, k: nat, y: nat, v: nat)
    requires k < |t|
    ensures CountLess(t[k := y], v) + (if t[k] < v then 1 else 0)
         == CountLess(t, v) + (if y < v then 1 else 0)
  {
    assert t == t[..k] + [t[k]] + t[k + 1..];
    assert t[k := y] == t[..k] + [y] + t[k + 1..];
    CountLessAppend(t[..k] + [t[k]], t[k + 1..], v);
    CountLessAppend(t[..k], [t[k]], v);
    CountLessAppend(t[..k] + [y], t[k + 1..], v);
    CountLessAppend(t[..k], [y], v);
  }

  lemma Distribute(c: nat, f: nat)
    ensures (c + 1) * f == c * f + f
  {
  }

  lemma MulMono(a: nat, b: nat, c: nat)
    requires a <= b
    ensures a * c <= b * c
  {
  }

  /** A state of length n has rank below n!. */
  lemma {:induction false} RankBound(s: seq<nat>)
    ensures Rank(s) < Fact(|s|)
  {
    if s != [] {
      var m := |s|;
      RankBound(s[1..]);
      MulMono(CountLess(s[1..], s[0]), m - 1, Fact(m - 1));
      assert Fact(m) == (m - 1) * Fact(m - 1) + Fact(m - 1);
    }
  }

  /** An ascending state, such as the identity, has rank 0. */
  lemma {:induction false} RankOfAscending(s: seq<nat>)
    requires Ascending(s)
    ensures Rank(s) == 0
  {
    if s != [] {
      assert Ascending(s[1..]);
      RankOfAscending(s[1..]);
      CountLessNone(s[1..], s[0]);
    }
  }

  /** A strictly decreasing state has the greatest rank, n! - 1. */
  lemma {:induction false} RankOfDecreasing(s: seq<nat>)
    requires forall a, b :: 0 <= a < b < |s| ==> s[a] > s[b]
    ensures Rank(s) == Fact(|s|) - 1
  {
    if s != [] {
      var t := s[1..];
      DecreasingTail(s);
      RankOfDecreasing(t);
      CountLessAll(t, s[0]);
      RankUnfold(s);
      FactStep(|s|);
    }
  }

  /** The tail of a strictly decreasing state is strictly decreasing and
      lies below its head. */
  lemma DecreasingTail(s: seq<nat>)
    requires |s| > 0 && forall a, b :: 0 <= a < b < |s| ==> s[a] > s[b]
    ensures forall a, b :: 0 <= a < b < |s[1..]| ==> s[1..][a] > s[1..][b]
    ensures forall k :: 0 <= k < |s[1..]| ==> s[1..][k] < s[0]
  {
  }

  lemma FactStep(m: nat)
    requires m > 0
    ensures Fact(m) == (m - 1) * Fact(m - 1) + Fact(m - 1)
  {
  }

  /** A common prefix adds the same amount to the ranks of two suffixes
      that are rearrangements of each other. */
  lemma {:induction false} RankPrefix(p: seq<nat>, a: seq<nat>, b: seq<nat>)
    requires multiset(a) == multiset(b)
    ensures Rank(p + a) + Rank(b) == Rank(p + b) + Rank(a)
  {
    assert |a| == |multiset(a)| == |multiset(b)| == |b|;
    if p == [] {
      assert p + a == a && p + b == b;
    } else {
      RankPrefix(p[1..], a, b);
      assert (p + a)[1..] == p[1..] + a;
      assert (p + b)[1..] == p[1..] + b;
      CountLessAppend(p[1..], a, p[0]);
      CountLessAppend(p[1..], b, p[0]);
      CountLessRearrange(a, b, p[0]);
    }
  }

  /** The arithmetic of one step on the suffix that starts at the pivot:
      one more entry below the head, and the tail goes from the greatest
      rank to the least. */
  lemma SuffixRankStep(a: seq<nat>, b: seq<nat>)
    requires |a| == |b| > 0
    requires Rank(a[1..]) == Fact(|a| - 1) - 1 && Rank(b[1..]) == 0
    requires CountLess(b[1..], b[0]) == CountLess(a[1..], a[0]) + 1
    ensures Rank(b) == Rank(a) + 1
  {
    RankUnfold(a);
    RankUnfold(b);
    StepArith(CountLess(a[1..], a[0]), Fact(|a| - 1), Rank(a), Rank(b));
  }

  lemma RankUnfold(s: seq<nat>)
    requires |s| > 0
    ensures Rank(s) == CountLess(s[1..], s[0]) * Fact(|s| - 1) + Rank(s[1..])
  {
  }

  lemma StepArith(c: nat, f: nat, x: int, y: int)
    requires x == c * f + (f - 1) && y == (c + 1) * f
    ensures y == x + 1
  {
    Distribute(c, f);
  }

  /** With the old pivot entry `s[i - 1]` put at position `j` of the
      suffix, one more entry of the suffix lies below the new pivot entry
      `s[j]` than lay below the old one. */
  lemma {:induction false} TailCountStep(s: seq<nat>, i: nat, j: nat)
    requires 0 < i <= j < |s| && Distinct(s) && s[i - 1] < s[j]
    requires Descending(s[i..])
    requires forall k :: j < k < |s| ==> s[k] <= s[i - 1]
    ensures CountLess(s[i..][j - i := s[i - 1]], s[j]) == CountLess(s[i..], s[i - 1]) + 1
  {
    var p := i - 1;
    CountLessUpdate(s[i..], j - i, s[p], s[j]);
    ThresholdsAgree(s, i, j);
    CountLessAgree(s[i..], s[j], s[p]);
  }

  /** Counting in the reversed suffix after the exchange is counting in
      the old suffix with the pivot entry put at position `j`. */
  lemma SwappedSuffixCount(s: seq<nat>, i: nat, j: nat, v: nat)
    requires 0 < i <= j < |s|
    ensures CountLess(Reverse(Swap(s, i - 1, j)[i..]), v) == CountLess(s[i..][j - i := s[i - 1]], v)
  {
    var w := Swap(s, i - 1, j);
    ReverseMultiset(w[i..]);
    CountLessRearrange(Reverse(w[i..]), w[i..], v);
    assert w[i..] == s[i..][j - i := s[i - 1]];
  }

  /** In the descending suffix, the old pivot entry and its replacement
      `s[j]` split the suffix entries alike. */
  lemma ThresholdsAgree(s: seq<nat>, i: nat, j: nat)
    requires 0 < i <= j < |s| && Distinct(s) && s[i - 1] < s[j]
    requires Descending(s[i..])
    requires forall k :: j < k < |s| ==> s[k] <= s[i - 1]
    ensures forall k :: 0 <= k < |s[i..]| ==> (s[i..][k] < s[j] <==> s[i..][k] < s[i - 1])
  {
    forall k | 0 <= k < |s[i..]|
      ensures s[i..][k] < s[j] <==> s[i..][k] < s[i - 1]
    {
      if i + k <= j {
        assert s[i..][k] >= s[i..][j - i];
      } else {
        assert s[i + k] != s[i - 1];
      }
    }
  }

  /** Rank arithmetic of one step across the unchanged prefix. */
  lemma RankAcrossPrefix(s: seq<nat>, t: seq<nat>, p: nat)
    requires p <= |s| == |t| && t[..p] == s[..p] && multiset(t) == multiset(s)
    ensures Rank(s) + Rank(t[p..]) == Rank(t) + Rank(s[p..])
  {
    assert s == s[..p] + s[p..];
    assert t == s[..p] + t[p..] by {
      assert t == t[..p] + t[p..];
    }
    SuffixMultiset(t, s, p);
    RankPrefix(s[..p], s[p..], t[p..]);
  }

  /** A non-increasing run of distinct entries strictly decreases. */
  lemma DistinctSuffixDecreasing(s: seq<nat>, i: nat)
    requires i <= |s| && Distinct(s) && Descending(s[i..])
    ensures forall x, y :: 0 <= x < y < |s[i..]| ==> s[i..][x] > s[i..][y]
  {
    forall x, y | 0 <= x < y < |s[i..]|
      ensures s[i..][x] > s[i..][y]
    {
      assert s[i..][x] >= s[i..][y];
      assert s[i + x] != s[i + y];
    }
  }

  lemma SuffixSplit(s: seq<nat>, k: nat)
    requires k < |s|
    ensures s[k..][0] == s[k] && s[k..][1..] == s[k + 1..]
  {
  }

  /** Rank arithmetic of one step on the suffix from the pivot on. */
  lemma RankFromPivot(s: seq<nat>, t: seq<nat>, i: nat, j: nat)
    requires 0 < i <= j < |s| && |t| == |s| && Distinct(s) && s[i - 1] < s[j]
    requires Descending(s[i..])
    requires forall k :: j < k < |s| ==> s[k] <= s[i - 1]
    requires t[i - 1] == s[j]
    requires t[i..] == Reverse(Swap(s, i - 1, j)[i..]) && Ascending(t[i..])
    ensures Rank(t[i - 1..]) == Rank(s[i - 1..]) + 1
  {
    var a := s[i - 1..];
    var b := t[i - 1..];
    SuffixSplit(s, i - 1);
    SuffixSplit(t, i - 1);
    SuffixRanks(s, t, i, j);
    SuffixRankStep(a, b);
  }

  /** The ranks and counts of the two suffixes right of the pivot: the
      old one is the last arrangement of its entries, the new one the
      first, and the new pivot entry has one more entry below it. */
  lemma SuffixRanks(s: seq<nat>, t: seq<nat>, i: nat, j: nat)
    requires 0 < i <= j < |s| && |t| == |s| && Distinct(s) && s[i - 1] < s[j]
    requires Descending(s[i..])
    requires forall k :: j < k < |s| ==> s[k] <= s[i - 1]
    requires t[i..] == Reverse(Swap(s, i - 1, j)[i..]) && Ascending(t[i..])
    ensures Rank(s[i..]) == Fact(|s| - i) - 1 && Rank(t[i..]) == 0
    ensures CountLess(t[i..], s[j]) == CountLess(s[i..], s[i - 1]) + 1
  {
    DescendingSuffixRank(s, i);
    RankOfAscending(t[i..]);
    SwappedSuffixCount(s, i, j, s[j]);
    TailCountStep(s, i, j);
  }

  /** A non-increasing suffix of distinct entries is the last arrangement
      of its entries. */
  lemma DescendingSuffixRank(s: seq<nat>, i: nat)
    requires i <= |s| && Distinct(s) && Descending(s[i..])
    ensures Rank(s[i..]) == Fact(|s| - i) - 1
  {
    DistinctSuffixDecreasing(s, i);
    RankOfDecreasing(s[i..]);
  }

  /** Rank arithmetic of one step, stated on the shape the successor
      step produces. */
  lemma RankStep(s: seq<nat>, t: seq<nat>, i: nat, j: nat)
    requires 0 < i <= j < |s| && |t| == |s| && Distinct(s) && s[i - 1] < s[j]
    requires Descending(s[i..])
    requires forall k :: j < k < |s| ==> s[k] <= s[i - 1]
    requires t[..i - 1] == s[..i - 1] && t[i - 1] == s[j]
    requires t[i..] == Reverse(Swap(s, i - 1, j)[i..]) && Ascending(t[i..])
    requires multiset(t) == multiset(s)
    ensures Rank(t) == Rank(s) + 1
  {
    RankAcrossPrefix(s, t, i - 1);
    RankFromPivot(s, t, i, j);
  }

  /** The successor of a state with distinct entries has rank one more. */
  lemma RankSuccessor(s: seq<nat>)
    requires Distinct(s) && Successor(s).Some?
    ensures Rank(Successor(s).value) == Rank(s) + 1
  {
    var n := |s|;
    var i := ScanPivot(s, n - 1);
    var j := ScanSuccessor(s, i - 1, n - 1);
    ScanFacts(s, i, j);
    SuccessorShape(s, i, j);
    RankStep(s, Successor(s).value, i, j);
  }

  /** A state with distinct entries and no successor has rank n! - 1. */
  lemma RankOfLast(s: seq<nat>)
    requires Distinct(s) && Successor(s).None?
    ensures Rank(s) == Fact(|s|) - 1
  {
    SuccessorNone(s);
    StrictlyDecreasing(s);
    RankOfDecreasing(s);
  }

  lemma RankOfIdentity(n: nat)
    ensures Rank(Identity(n)) == 0
  {
    RankOfAscending(Identity(n));
  }
}
