/** The lexicographic successor of an index state: the next-permutation
    step of the iterator (Knuth, The Art of Computer Programming, Vol. 4A,
    section 7.2.1.2, Algorithm L), as pure functions on sequences, and its
    characterisation as the least rearrangement strictly after its input. */
module NextPermutation {
  import opened Options
  import opened Lex
  import opened Permutations

  /** The pivot scan: from position `i`, step left while the entry before
      is not smaller. The result is the position just right of the pivot,
      or 0 when there is no pivot. */
  function ScanPivot(s: seq<nat>, i: nat): (r: nat)
    requires i < |s|
    ensures r <= i
    ensures r == 0 || s[r - 1] < s[r]
    decreases i
  {
    if i > 0 && s[i - 1] >= s[i] then ScanPivot(s, i - 1) else i
  }

  /** The stretch the pivot scan walks over is non-increasing. */
  lemma {:induction false} ScanPivotDescends(s: seq<nat>, i: nat)
    requires i < |s|
    ensures forall a, b :: ScanPivot(s, i) <= a <= b <= i ==> s[a] >= s[b]
    decreases i
  {
    if i > 0 && s[i - 1] >= s[i] {
      ScanPivotDescends(s, i - 1);
      forall a, b | ScanPivot(s, i) <= a <= b <= i
        ensures s[a] >= s[b]
      {
        if b == i && a < i {
          assert s[a] >= s[i - 1];
        }
      }
    }
  }

  /** The successor scan: from position `j`, step left while the entry is
      not larger than the pivot entry `s[p]`. The entry right of the pivot
      is larger, so the scan stops before passing it. */
  function ScanSuccessor(s: seq<nat>, p: nat, j: nat): (r: nat)
    requires p < j < |s| && s[p] < s[p + 1]
    ensures p < r <= j && s[p] < s[r]
    ensures forall k :: r < k <= j ==> s[k] <= s[p]
    decreases j
  {
    if s[j] <= s[p] then ScanSuccessor(s, p, j - 1) else j
  }

  /** Exchange of two entries: each of the two positions receives the
      other's entry, and every other position keeps its own. */
  function Swap(s: seq<nat>, a: nat, b: nat): (r: seq<nat>)
    requires a < |s| && b < |s|
    ensures |r| == |s|
    ensures r[a] == s[b] && r[b] == s[a]
    ensures forall k :: 0 <= k < |s| && k != a && k != b ==> r[k] == s[k]
  {
    s[a := s[b]][b := s[a]]
  }

  lemma SwapMultiset(s: seq<nat>, a: nat, b: nat)
    requires a < |s| && b < |s|
    ensures multiset(Swap(s, a, b)) == multiset(s)
  {
  }

  /** The entries of `s` in the opposite order. */
  function Reverse(s: seq<nat>): (r: seq<nat>)
    ensures |r| == |s|
    ensures forall k :: 0 <= k < |s| ==> r[k] == s[|s| - 1 - k]
  {
    if s == [] then [] else Reverse(s[1..]) + [s[0]]
  }

  lemma {:induction false} ReverseMultiset(s: seq<nat>)
    ensures multiset(Reverse(s)) == multiset(s)
  {
    if s != [] {
      ReverseMultiset(s[1..]);
      assert s == [s[0]] + s[1..];
    }
  }

  lemma ReverseDescending(s: seq<nat>)
    requires Descending(s)
    ensures Ascending(Reverse(s))
  {
  }

  /** The index state that follows `s`, or None when `s` is the last one.
      For a state of length 0 there is no pivot to scan for, so there is no
      successor. */
  function Successor(s: seq<nat>): (r: Option<seq<nat>>)
    ensures r.Some? ==> |r.value| == |s|
  {
    if |s| == 0 then None
    else
      var i := ScanPivot(s, |s| - 1);
      if i == 0 then None
      else
        var j := ScanSuccessor(s, i - 1, |s| - 1);
        var w := Swap(s, i - 1, j);
        Some(w[..i] + Reverse(w[i..]))
  }

  /** There is no successor exactly when the state never increases from
      one position to the next. */
  lemma SuccessorNone(s: seq<nat>)
    ensures Successor(s).None? <==> NonIncreasing(s)
  {
    if |s| > 0 {
      ScanPivotDescends(s, |s| - 1);
    }
  }

  /** `t` rearranges `s`, comes strictly after it, and no rearrangement of
      `s` lies strictly between the two. */
  ghost predicate IsLexSuccessor(s: seq<nat>, t: seq<nat>) {
    && multiset(t) == multiset(s)
    && LexLess(s, t)
    && forall u: seq<nat> :: multiset(u) == multiset(s) && LexLess(s, u) ==> LexLessEq(t, u)
  }

  /** No rearrangement of `s` comes after `s`. */
  ghost predicate IsLast(s: seq<nat>) {
    forall u: seq<nat> :: multiset(u) == multiset(s) ==> LexLessEq(u, s)
  }

  /** What the two scans establish when a pivot exists: the suffix right
      of the pivot is non-increasing, and `s[j]` is the least entry of that
      suffix above the pivot entry. */
  lemma {:induction false} ScanFacts(s: seq<nat>, i: nat, j: nat)
    requires 0 < i < |s| && i == ScanPivot(s, |s| - 1)
    requires j == ScanSuccessor(s, i - 1, |s| - 1)
    ensures s[i - 1] < s[i] && i <= j < |s| && s[i - 1] < s[j]
    ensures Descending(s[i..])
    ensures forall m :: i <= m < |s| && s[i - 1] < s[m] ==> s[j] <= s[m]
    ensures forall k :: j < k < |s| ==> s[k] <= s[i - 1]
  {
    ScanPivotDescends(s, |s| - 1);
    assert Descending(s[i..]) by {
      forall a, b | 0 <= a <= b < |s[i..]|
        ensures s[i..][a] >= s[i..][b]
      {
        assert s[i + a] >= s[i + b];
      }
    }
    forall m | i <= m < |s| && s[i - 1] < s[m]
      ensures s[j] <= s[m]
    {
      if m <= j {
        assert s[i..][m - i] >= s[i..][j - i];
      }
    }
  }

  /** Exchanging the pivot entry with the least larger suffix entry keeps
      the suffix non-increasing. */
  lemma SwapKeepsSuffixDescending(s: seq<nat>, i: nat, j: nat)
    requires 0 < i <= j < |s| && s[i - 1] < s[j] && Descending(s[i..])
    requires forall k :: j < k < |s| ==> s[k] <= s[i - 1]
    ensures Descending(Swap(s, i - 1, j)[i..])
  {
    var w := Swap(s, i - 1, j);
    forall a, b | 0 <= a <= b < |w[i..]|
      ensures w[i..][a] >= w[i..][b]
    {
      assert s[i..][a] >= s[i..][b];
      if i + b == j && a < b {
        assert s[i..][a] >= s[i..][j - i];
      }
    }
  }

  /** The sequence the successor step builds from the scans' results:
      prefix kept, least larger entry at the pivot, rest ascending. */
  lemma BuiltShape(s: seq<nat>, w: seq<nat>, t: seq<nat>, i: nat, j: nat)
    requires 0 < i <= j < |s| && s[i - 1] < s[j] && Descending(s[i..])
    requires forall k :: j < k < |s| ==> s[k] <= s[i - 1]
    requires w == Swap(s, i - 1, j) && t == w[..i] + Reverse(w[i..])
    ensures t[..i - 1] == s[..i - 1] && t[i - 1] == s[j]
    ensures t[i..] == Reverse(w[i..]) && Ascending(t[i..])
    ensures multiset(t) == multiset(s)
  {
    assert Ascending(t[i..]) by {
      SwapKeepsSuffixDescending(s, i, j);
      ReverseDescending(w[i..]);
      assert t[i..] == Reverse(w[i..]);
    }
    assert t[..i - 1] == s[..i - 1];
    assert multiset(t) == multiset(s) by {
      ReverseMultiset(w[i..]);
      SwapMultiset(s, i - 1, j);
      assert w == w[..i] + w[i..];
    }
  }

  /** The shape of the successor: same prefix before the pivot, the
      successor entry at the pivot, an ascending suffix after it. */
  lemma SuccessorShape(s: seq<nat>, i: nat, j: nat)
    requires 0 < i < |s| && i == ScanPivot(s, |s| - 1)
    requires j == ScanSuccessor(s, i - 1, |s| - 1)
    ensures Successor(s).Some?
    ensures Successor(s).value[..i - 1] == s[..i - 1]
    ensures Successor(s).value[i - 1] == s[j]
    ensures Successor(s).value[i..] == Reverse(Swap(s, i - 1, j)[i..])
    ensures Ascending(Successor(s).value[i..])
    ensures multiset(Successor(s).value) == multiset(s)
  {
    ScanFacts(s, i, j);
    SuccessorUnfold(s, i, j);
    var w := Swap(s, i - 1, j);
    BuiltShape(s, w, w[..i] + Reverse(w[i..]), i, j);
  }

  /** The successor when a pivot exists, spelled out. */
  lemma SuccessorUnfold(s: seq<nat>, i: nat, j: nat)
    requires 0 < i < |s| && i == ScanPivot(s, |s| - 1)
    requires j == ScanSuccessor(s, i - 1, |s| - 1)
    ensures Successor(s) == Some(Swap(s, i - 1, j)[..i] + Reverse(Swap(s, i - 1, j)[i..]))
  {
  }

  /** When the pivot scan reaches 0 there is no successor. */
  lemma NoPivot(s: seq<nat>)
    requires |s| > 0 && ScanPivot(s, |s| - 1) == 0
    ensures Successor(s).None?
  {
  }

  /** A rearrangement that agrees with `s` before position `k >= i`, inside
      the non-increasing suffix, cannot be larger than `s` at `k`. */
  lemma SuffixCannotGrow(s: seq<nat>, u: seq<nat>, i: nat, k: nat)
    requires i <= k < |s| && Descending(s[i..])
    requires multiset(u) == multiset(s) && k <= |u| && u[..k] == s[..k]
    ensures k < |u| && u[k] <= s[k]
  {
    assert |u| == |multiset(u)| == |s|;
    SuffixMultiset(u, s, k);
    assert u[k] in multiset(s[k..]) by {
      assert u[k..][0] == u[k];
    }
    var m :| 0 <= m < |s[k..]| && s[k..][m] == u[k];
    assert s[i..][k - i] >= s[i..][k + m - i];
  }

  /** A rearrangement `u` that agrees with `s` before the pivot `i - 1` and
      is larger there is at least `t`, the sequence that puts the least
      larger suffix entry `s[j]` at the pivot and the rest in ascending
      order. */
  lemma {:induction false} LeastAtPivot(s: seq<nat>, t: seq<nat>, u: seq<nat>, i: nat, j: nat)
    requires 0 < i <= j < |s| && |t| == |s| && |u| == |s|
    requires forall m :: i <= m < |s| && s[i - 1] < s[m] ==> s[j] <= s[m]
    requires t[..i - 1] == s[..i - 1] && t[i - 1] == s[j] && Ascending(t[i..])
    requires multiset(t) == multiset(s) && multiset(u) == multiset(s)
    requires u[..i - 1] == s[..i - 1] && s[i - 1] < u[i - 1]
    ensures LexLessEq(t, u)
  {
    var p := i - 1;
    PivotEntryBound(s, u, i, j);
    if t[p] < u[p] {
      assert t[..p] == u[..p];
      assert LexLess(t, u);
    } else {
      AgreeThroughPivot(t, u, i);
    }
  }

  /** The entry `u` puts at the pivot comes from the suffix of `s` and
      exceeds the pivot entry, so it is at least `s[j]`. */
  lemma PivotEntryBound(s: seq<nat>, u: seq<nat>, i: nat, j: nat)
    requires 0 < i <= j < |s| && |u| == |s|
    requires forall m :: i <= m < |s| && s[i - 1] < s[m] ==> s[j] <= s[m]
    requires multiset(u) == multiset(s)
    requires u[..i - 1] == s[..i - 1] && s[i - 1] < u[i - 1]
    ensures s[j] <= u[i - 1]
  {
    var p := i - 1;
    SuffixMultiset(u, s, p);
    assert u[p] in multiset(s[p..]) by {
      assert u[p..][0] == u[p];
    }
    var m :| 0 <= m < |s[p..]| && s[p..][m] == u[p];
    assert s[p + m] == u[p];
  }

  /** Two rearrangements that agree up to and including the pivot, the
      first ascending after it: the first is at most the second. */
  lemma AgreeThroughPivot(t: seq<nat>, u: seq<nat>, i: nat)
    requires 0 < i <= |t| && |u| == |t| && multiset(u) == multiset(t)
    requires t[..i - 1] == u[..i - 1] && t[i - 1] == u[i - 1] && Ascending(t[i..])
    ensures LexLessEq(t, u)
  {
    var p := i - 1;
    assert t[..i] == u[..i] by {
      assert t[..i] == t[..p] + [t[p]];
      assert u[..i] == u[..p] + [u[p]];
    }
    SuffixMultiset(u, t, i);
    AscendingIsLeast(t[i..], u[i..]);
    LexLessEqPrefix(t[..i], t[i..], u[i..]);
    assert t == t[..i] + t[i..];
    assert u == u[..i] + u[i..];
  }

  /** The successor is at most every rearrangement strictly after `s`. */
  lemma {:induction false} SuccessorIsLeast(s: seq<nat>, u: seq<nat>)
    requires Successor(s).Some?
    requires multiset(u) == multiset(s) && LexLess(s, u)
    ensures LexLessEq(Successor(s).value, u)
  {
    var i := ScanPivot(s, |s| - 1);
    var j := ScanSuccessor(s, i - 1, |s| - 1);
    var p := i - 1;
    SuccessorShape(s, i, j);
    var t := Successor(s).value;
    var k :| 0 <= k < |s| && s[..k] == u[..k] && s[k] < u[k];
    if k < p {
      LessBeforePivot(s, t, u, p, k);
    } else if k == p {
      ScanFacts(s, i, j);
      LeastAtPivot(s, t, u, i, j);
    } else {
      ScanFacts(s, i, j);
      SuffixCannotGrow(s, u, i, k);
      assert false;
    }
  }

  /** A rearrangement that first exceeds `s` left of the pivot also
      exceeds the successor, which keeps that prefix. */
  lemma LessBeforePivot(s: seq<nat>, t: seq<nat>, u: seq<nat>, p: nat, k: nat)
    requires k < p < |s| && |t| == |s| && |u| == |s| && t[..p] == s[..p]
    requires s[..k] == u[..k] && s[k] < u[k]
    ensures LexLess(t, u)
  {
    PrefixShrink(t, s, p, k);
    assert t[k] == t[..p][k] == s[..p][k] == s[k];
  }

  /** Without a pivot the state is the greatest of its rearrangements. */
  lemma NoSuccessorIsLast(s: seq<nat>)
    requires Successor(s).None?
    ensures IsLast(s)
  {
    SuccessorNone(s);
    NonIncreasingIsDescending(s);
    forall u: seq<nat> | multiset(u) == multiset(s)
      ensures LexLessEq(u, s)
    {
      DescendingIsGreatest(s, u);
    }
  }

  /** When a successor exists it is the lexicographic successor. */
  lemma SuccessorIsLexSuccessor(s: seq<nat>)
    requires Successor(s).Some?
    ensures IsLexSuccessor(s, Successor(s).value)
  {
    var t := Successor(s).value;
    var i := ScanPivot(s, |s| - 1);
    SuccessorShape(s, i, ScanSuccessor(s, i - 1, |s| - 1));
    forall u: seq<nat> | multiset(u) == multiset(s) && LexLess(s, u)
      ensures LexLessEq(t, u)
    {
      SuccessorIsLeast(s, u);
    }
    assert s[..i - 1] == t[..i - 1];
    assert LexLess(s, t);
  }

  /** A sequence has at most one lexicographic successor. */
  lemma LexSuccessorUnique(s: seq<nat>, t1: seq<nat>, t2: seq<nat>)
    requires IsLexSuccessor(s, t1) && IsLexSuccessor(s, t2)
    ensures t1 == t2
  {
    assert LexLessEq(t1, t2) && LexLessEq(t2, t1);
    if t1 != t2 {
      LexLessAsymmetric(t1, t2);
    }
  }

  /** A sequence with a lexicographic successor is not the last one. */
  lemma LastHasNoLexSuccessor(s: seq<nat>, t: seq<nat>)
    requires IsLexSuccessor(s, t)
    ensures !IsLast(s)
  {
    LexLessAsymmetric(s, t);
    assert !LexLessEq(t, s);
  }

  /** The successor step is exactly the lexicographic successor among the
      rearrangements of the state, and reports none exactly at the last
      one; both directions. */
  lemma SuccessorCharacterization(s: seq<nat>, t: seq<nat>)
    ensures Successor(s) == Some(t) <==> IsLexSuccessor(s, t)
    ensures Successor(s).None? <==> IsLast(s)
  {
    if Successor(s).None? {
      NoSuccessorIsLast(s);
      if IsLexSuccessor(s, t) {
        LastHasNoLexSuccessor(s, t);
      }
    } else {
      SuccessorIsLexSuccessor(s);
      LastHasNoLexSuccessor(s, Successor(s).value);
      if IsLexSuccessor(s, t) {
        LexSuccessorUnique(s, t, Successor(s).value);
      }
    }
  }

  /** Stepping a permutation of 0..n gives a permutation of 0..n. */
  lemma SuccessorPreservesPermutation(s: seq<nat>, n: nat)
    requires IsPermutation(s, n) && Successor(s).Some?
    ensures IsPermutation(Successor(s).value, n)
  {
    SuccessorMultiset(s);
    PermutationsRearrange(s, Successor(s).value, n);
  }

  /** The successor rearranges the entries of the state. */
  lemma SuccessorMultiset(s: seq<nat>)
    requires Successor(s).Some?
    ensures multiset(Successor(s).value) == multiset(s)
  {
    var i := ScanPivot(s, |s| - 1);
    SuccessorShape(s, i, ScanSuccessor(s, i - 1, |s| - 1));
  }
}
