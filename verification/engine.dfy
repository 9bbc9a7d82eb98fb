/** The `Permutator` iterator: its state, its constructor and its `next`
    call. The borrowed input is an immutable sequence and the accessor a
    pure function passed to each call. */
module Engine {
  import opened Options
  import opened Lex
  import opened Permutations
  import opened NextPermutation

  /** The borrowed input, the current index state, and whether the last
      permutation has already been handed out. */
  datatype Permutator<T> = Permutator(data: seq<T>, indices: seq<nat>, done: bool)

  /** The invariant of every reachable state: the indices arrange the
      positions of the input. */
  predicate Valid<T>(p: Permutator<T>) {
    IsPermutation(p.indices, |p.data|)
  }

  /** A fresh generator: the identity ordering, not exhausted. */
  function New<T>(data: seq<T>): (p: Permutator<T>)
    ensures p.data == data && !p.done && Valid(p)
    ensures |p.indices| == |data| && forall k :: 0 <= k < |data| ==> p.indices[k] == k
  {
    Permutator(data, Identity(|data|), false)
  }

  /** One output: every index of the state sent through the accessor, in
      index order. */
  function Project<T, U>(data: seq<T>, indices: seq<nat>, f: T -> U): (out: seq<U>)
    requires InRange(indices, |data|)
    ensures |out| == |indices|
    ensures forall k :: 0 <= k < |indices| ==> out[k] == f(data[indices[k]])
  {
    seq(|indices|, k requires 0 <= k < |indices| => f(data[indices[k]]))
  }

  /** What one call of `next` returns, and the state it leaves behind. */
  datatype Step<T, U> = Step(item: Option<seq<U>>, after: Permutator<T>)

  /** One call of `next`. An exhausted generator answers None and stays as
      it is. Otherwise the current state is projected into the output and
      the indices advance to their lexicographic successor; when there is
      none the generator becomes exhausted and keeps its indices. An empty
      input yields one empty permutation. */
  function Next<T, U>(p: Permutator<T>, f: T -> U): (r: Step<T, U>)
    requires Valid(p)
    ensures r.after.data == p.data && Valid(r.after)
    ensures p.done ==> r.item.None? && r.after == p
    ensures !p.done ==> r.item.Some? && |r.item.value| == |p.data|
    ensures !p.done ==> forall k :: 0 <= k < |p.data| ==> r.item.value[k] == f(p.data[p.indices[k]])
    ensures !p.done ==> (r.after.done <==> NonIncreasing(p.indices))
    ensures r.after.done ==> r.after.indices == p.indices
    ensures !r.after.done ==> Successor(p.indices) == Some(r.after.indices)
  {
    if p.done then Step(None, p)
    else
      var out := Project(p.data, p.indices, f);
      match Successor(p.indices)
      case None =>
        SuccessorNone(p.indices);
        Step(Some(out), p.(done := true))
      case Some(t) =>
        SuccessorPreservesPermutation(p.indices, |p.data|);
        SuccessorNone(p.indices);
        Step(Some(out), p.(indices := t))
  }

  /** The step sets the exhausted flag exactly at the descending state
      n-1, ..., 1, 0. */
  lemma NextDoneAtLast<T, U>(p: Permutator<T>, f: T -> U)
    requires Valid(p) && !p.done
    ensures Next(p, f).after.done <==> forall k :: 0 <= k < |p.data| ==> p.indices[k] == |p.data| - 1 - k
  {
    LastPermutation(p.indices, |p.data|);
  }

  /** When the step does not exhaust the generator, the new indices form
      the least permutation of 0..n-1 strictly after the old ones. */
  lemma NextIsLeastLater<T, U>(p: Permutator<T>, f: T -> U)
    requires Valid(p) && !p.done && !Next(p, f).after.done
    ensures IsPermutation(Next(p, f).after.indices, |p.data|)
    ensures LexLess(p.indices, Next(p, f).after.indices)
    ensures forall u :: IsPermutation(u, |p.data|) && LexLess(p.indices, u) ==> LexLessEq(Next(p, f).after.indices, u)
  {
    var t := Next(p, f).after.indices;
    SuccessorIsLexSuccessor(p.indices);
    forall u | IsPermutation(u, |p.data|) && LexLess(p.indices, u)
      ensures LexLessEq(t, u)
    {
      PermutationsRearrange(p.indices, u, |p.data|);
    }
  }

  /** What a call of `next` can end in, as the source is written: it
      returns, or it panics. */
  datatype Outcome<T, U> = Panicked | Returned(step: Step<T, U>)

  /** `next` as written: the projection, then the index work, which on a
      non-empty state is the successor step: the pivot scan from
      `indices.len() - 1`, then either the exhausted flag or the exchange
      and the reversal of the suffix. With no indices that start position
      underflows, so the first call on an empty input panics instead of
      yielding the empty permutation. */
  function NextAsWritten<T, U>(p: Permutator<T>, f: T -> U): (o: Outcome<T, U>)
    requires |p.indices| == |p.data| && InRange(p.indices, |p.data|)
    ensures o.Panicked? <==> !p.done && |p.data| == 0
    ensures o.Returned? ==> o.step.after.data == p.data
  {
    if p.done then Returned(Step(None, p))
    else if |p.indices| == 0 then Panicked
    else
      var out := Project(p.data, p.indices, f);
      match Successor(p.indices)
      case None => Returned(Step(Some(out), p.(done := true)))
      case Some(t) => Returned(Step(Some(out), p.(indices := t)))
  }

  /** The discrepancy on the empty input: the code as written panics on
      the first call, where the corrected step yields one empty
      permutation and becomes exhausted. */
  lemma EmptyInputPanics<T, U>(f: T -> U)
    ensures NextAsWritten(New<T>([]), f) == Panicked
    ensures Next(New<T>([]), f) == Step(Some([]), Permutator([], [], true))
  {
  }

  /** On every state except a live one over an empty input, the code as
      written and the corrected step return the same item and leave the
      same state. */
  lemma AsWrittenAgrees<T, U>(p: Permutator<T>, f: T -> U)
    requires Valid(p) && (p.done || |p.data| > 0)
    ensures NextAsWritten(p, f) == Returned(Next(p, f))
  {
    if !p.done {
      NextLive(p, f);
    }
  }

  /** What `next` does to a live generator, in terms of the successor
      step on its indices. */
  lemma NextLive<T, U>(p: Permutator<T>, f: T -> U)
    requires Valid(p) && !p.done
    ensures Next(p, f).item == Some(Project(p.data, p.indices, f))
    ensures Successor(p.indices).None? ==> Next(p, f).after == p.(done := true)
    ensures Successor(p.indices).Some? ==> Next(p, f).after == p.(indices := Successor(p.indices).value)
  {
  }

  /** The pivot scan of `next` on the index array. */
  method FindPivot(a: array<nat>) returns (i: nat)
    requires a.Length >= 1
    ensures i == ScanPivot(a[..], a.Length - 1)
  {
    i := a.Length - 1;
    while i > 0 && a[i - 1] >= a[i]
      invariant 0 <= i <= a.Length - 1
      invariant ScanPivot(a[..], i) == ScanPivot(a[..], a.Length - 1)
      decreases i
    {
      i := i - 1;
    }
  }

  /** The successor scan of `next` on the index array, given the position
      `i` right of the pivot. */
  method FindSuccessor(a: array<nat>, i: nat) returns (j: nat)
    requires 0 < i < a.Length && a[i - 1] < a[i]
    ensures j == ScanSuccessor(a[..], i - 1, a.Length - 1)
  {
    j := a.Length - 1;
    while a[j] <= a[i - 1]
      invariant i <= j <= a.Length - 1
      invariant ScanSuccessor(a[..], i - 1, j) == ScanSuccessor(a[..], i - 1, a.Length - 1)
      decreases j
    {
      j := j - 1;
    }
  }

  /** The exchange of two entries of the index array. */
  method Exchange(a: array<nat>, x: nat, y: nat)
    requires x < a.Length && y < a.Length
    modifies a
    ensures a[..] == Swap(old(a[..]), x, y)
  {
    a[x], a[y] := a[y], a[x];
  }

  /** The in-place reversal of the suffix that starts at `i`. */
  method ReverseSuffix(a: array<nat>, i: nat)
    requires i <= a.Length
    modifies a
    ensures a[..] == old(a[..])[..i] + Reverse(old(a[..])[i..])
  {
    ghost var w := a[..];
    var n := a.Length;
    if i == n {
      assert w[i..] == [];
      return;
    }
    var lo, hi := i, n - 1;
    while lo < hi
      invariant i <= lo <= hi + 1 <= n && lo + hi == i + n - 1
      invariant forall m :: 0 <= m < i ==> a[m] == w[m]
      invariant forall m :: i <= m < lo || hi < m < n ==> a[m] == w[i + n - 1 - m]
      invariant forall m :: lo <= m <= hi ==> a[m] == w[m]
      decreases hi - lo
    {
      a[lo], a[hi] := a[hi], a[lo];
      lo, hi := lo + 1, hi - 1;
    }
    ReversedFrom(w, a[..], i);
  }

  /** A sequence that keeps `w` before `i` and mirrors it from `i` on is
      `w` with its suffix reversed. */
  lemma ReversedFrom(w: seq<nat>, r: seq<nat>, i: nat)
    requires i <= |w| == |r|
    requires forall m :: 0 <= m < i ==> r[m] == w[m]
    requires forall m :: i <= m < |w| ==> r[m] == w[i + |w| - 1 - m]
    ensures r == w[..i] + Reverse(w[i..])
  {
    var v := w[..i] + Reverse(w[i..]);
    assert forall m :: i <= m < |w| ==> v[m] == Reverse(w[i..])[m - i];
  }

  /** The projection loop of `next`. */
  method ProjectLoop<T, U>(data: seq<T>, s: seq<nat>, f: T -> U) returns (result: seq<U>)
    requires InRange(s, |data|)
    ensures result == Project(data, s, f)
  {
    result := [];
    var k := 0;
    while k < |s|
      invariant 0 <= k <= |s| && |result| == k
      invariant forall m :: 0 <= m < k ==> result[m] == f(data[s[m]])
    {
      result := result + [f(data[s[k]])];
      k := k + 1;
    }
  }

  /** The advancing half of `next`, in place on the index array: reports
      whether there was no pivot, and otherwise leaves the lexicographic
      successor of the old contents behind. */
  method AdvanceInPlace(a: array<nat>) returns (last: bool)
    requires a.Length >= 1
    modifies a
    ensures last <==> Successor(old(a[..])).None?
    ensures last ==> a[..] == old(a[..])
    ensures !last ==> Successor(old(a[..])) == Some(a[..])
  {
    var i := FindPivot(a);
    if i == 0 {
      return true;
    }
    AdvanceFromPivot(a, i);
    return false;
  }

  /** The rest of the advancing half once the pivot scan has found the
      position `i` right of the pivot. */
  method AdvanceFromPivot(a: array<nat>, i: nat)
    requires 0 < i < a.Length && i == ScanPivot(a[..], a.Length - 1)
    modifies a
    ensures Successor(old(a[..])) == Some(a[..])
  {
    ghost var s := a[..];
    var j := FindSuccessor(a, i);
    SuccessorUnfold(s, i, j);
    Exchange(a, i - 1, j);
    ghost var w := a[..];
    ReverseSuffix(a, i);
    assert a[..] == w[..i] + Reverse(w[i..]);
  }

  /** The advancing half of `next` on a fresh array holding the indices
      `s`. */
  method AdvanceIndices(s: seq<nat>) returns (last: bool, t: seq<nat>)
    requires |s| >= 1
    ensures last <==> Successor(s).None?
    ensures !last ==> Successor(s) == Some(t)
  {
    var n := |s|;
    var a := new nat[n](m requires 0 <= m < n => s[m]);
    assert a[..] == s;
    last := AdvanceInPlace(a);
    t := a[..];
  }

  /** `next` as the source runs it: the projection loop, then, on a
      mutable array of indices, the right-to-left pivot scan, the
      right-to-left successor scan, the exchange and the in-place reversal
      of the suffix. */
  method NextMethod<T, U>(p: Permutator<T>, f: T -> U) returns (o: Outcome<T, U>)
    requires |p.indices| == |p.data| && InRange(p.indices, |p.data|)
    ensures o == NextAsWritten(p, f)
  {
    if p.done {
      return Returned(Step(None, p));
    }
    var result := ProjectLoop(p.data, p.indices, f);
    if |p.indices| == 0 {
      // `indices.len() - 1` underflows
      return Panicked;
    }
    var last, t := AdvanceIndices(p.indices);
    if last {
      return Returned(Step(Some(result), p.(done := true)));
    }
    return Returned(Step(Some(result), p.(indices := t)));
  }
}
