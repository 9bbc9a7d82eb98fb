/** The whole run of a generator: every item `next` hands out until it
    answers None. A fresh generator over n items hands out exactly n!
    outputs, one per arrangement of the positions, in strictly increasing
    lexicographic order of the index states. */
module Enumeration {
  import opened Options
  import opened Lex
  import opened Permutations
  import opened NextPermutation
  import opened Ranking
  import opened Engine

  /** How many more items the generator hands out before it answers None. */
  function Remaining<T>(p: Permutator<T>): (r: nat)
    requires Valid(p)
    ensures r == 0 <==> p.done
  {
    if p.done then 0 else |Trace(p.indices)|
  }

  /** Every call of `next` on a live generator uses up exactly one of the
      remaining items. */
  lemma NextCountsDown<T, U>(p: Permutator<T>, f: T -> U)
    requires Valid(p) && !p.done
    ensures Valid(Next(p, f).after)
    ensures Remaining(Next(p, f).after) == Remaining(p) - 1
  {
    NextLive(p, f);
    TraceStep(p.indices);
  }

  /** The items `next` hands out, in order, until it first answers None:
      as many as the count of remaining items says. */
  function Run<T, U>(p: Permutator<T>, f: T -> U): (r: seq<seq<U>>)
    requires Valid(p)
    ensures |r| == Remaining(p)
    decreases Remaining(p)
  {
    var r := Next(p, f);
    if r.item.None? then []
    else
      NextCountsDown(p, f);
      [r.item.value] + Run(r.after, f)
  }

  /** One live step of the run. */
  lemma RunLive<T, U>(p: Permutator<T>, f: T -> U)
    requires Valid(p) && !p.done
    ensures Valid(Next(p, f).after)
    ensures Run(p, f) == [Project(p.data, p.indices, f)] + Run(Next(p, f).after, f)
  {
    NextLive(p, f);
    NextCountsDown(p, f);
  }

  /** The index states a live generator passes through, starting at `s`:
      `s`, then its successor, and so on up to the last arrangement. */
  function Trace(s: seq<nat>): (tr: seq<seq<nat>>)
    requires IsPermutation(s, |s|)
    ensures |tr| > 0 && tr[0] == s
    decreases Fact(|s|) - Rank(s)
  {
    RankBound(s);
    if Successor(s).None? then
      [s]
    else
      var t := Successor(s).value;
      RankSuccessor(s);
      SuccessorPreservesPermutation(s, |s|);
      [s] + Trace(t)
  }

  /** One step of the trace. */
  lemma TraceStep(s: seq<nat>)
    requires IsPermutation(s, |s|)
    ensures Successor(s).None? ==> Trace(s) == [s]
    ensures Successor(s).Some? ==> IsPermutation(Successor(s).value, |s|)
    ensures Successor(s).Some? ==> Trace(s) == [s] + Trace(Successor(s).value)
  {
    if Successor(s).Some? {
      SuccessorPreservesPermutation(s, |s|);
    }
  }

  /** A trace from `s` is as long as the ranks from that of `s` up to
      n! - 1. */
  lemma {:induction false} TraceLength(s: seq<nat>)
    requires IsPermutation(s, |s|)
    ensures |Trace(s)| == Fact(|s|) - Rank(s)
    decreases Fact(|s|) - Rank(s)
  {
    TraceStep(s);
    if Successor(s).None? {
      RankOfLast(s);
    } else {
      var t := Successor(s).value;
      RankSuccessor(s);
      RankBound(t);
      TraceLength(t);
    }
  }

  /** The trace holds only arrangements of 0..n-1. */
  lemma {:induction false} TraceEntries(s: seq<nat>)
    requires IsPermutation(s, |s|)
    ensures forall k :: 0 <= k < |Trace(s)| ==> IsPermutation(Trace(s)[k], |s|)
    decreases |Trace(s)|
  {
    TraceStep(s);
    if Successor(s).Some? {
      var t := Successor(s).value;
      TraceEntries(t);
      PermutationsCons(s, Trace(t), |s|);
    }
  }

  lemma PermutationsCons(s: seq<nat>, rest: seq<seq<nat>>, n: nat)
    requires IsPermutation(s, n)
    requires forall k :: 0 <= k < |rest| ==> IsPermutation(rest[k], n)
    ensures forall k :: 0 <= k < |[s] + rest| ==> IsPermutation(([s] + rest)[k], n)
  {
    var tr := [s] + rest;
    forall k | 0 < k < |tr|
      ensures IsPermutation(tr[k], n)
    {
      assert tr[k] == rest[k - 1];
    }
  }

  /** The trace ends at an arrangement with no pivot. */
  lemma {:induction false} TraceLast(s: seq<nat>)
    requires IsPermutation(s, |s|)
    ensures NonIncreasing(Trace(s)[|Trace(s)| - 1])
    decreases |Trace(s)|
  {
    TraceStep(s);
    if Successor(s).None? {
      SuccessorNone(s);
    } else {
      var t := Successor(s).value;
      TraceLast(t);
      LastOfCons(s, Trace(t));
    }
  }

  lemma LastOfCons<X>(x: X, rest: seq<X>)
    requires |rest| > 0
    ensures ([x] + rest)[|[x] + rest| - 1] == rest[|rest| - 1]
  {
  }

  /** `out` lists the index states of `tr`, each sent through the
      accessor. */
  ghost predicate Projects<T, U>(data: seq<T>, tr: seq<seq<nat>>, out: seq<seq<U>>, f: T -> U)
    decreases |tr|
  {
    && |out| == |tr|
    && (|tr| > 0 ==>
          && InRange(tr[0], |data|)
          && out[0] == Project(data, tr[0], f)
          && Projects(data, tr[1..], out[1..], f))
  }

  lemma ProjectsCons<T, U>(data: seq<T>, s: seq<nat>, tr: seq<seq<nat>>, out: seq<seq<U>>, f: T -> U)
    requires InRange(s, |data|) && Projects(data, tr, out, f)
    ensures Projects(data, [s] + tr, [Project(data, s, f)] + out, f)
  {
    assert ([s] + tr)[1..] == tr;
    assert ([Project(data, s, f)] + out)[1..] == out;
  }

  /** Each entry of `out` is the projection of the matching entry of `tr`. */
  lemma {:induction false} ProjectsEntry<T, U>(data: seq<T>, tr: seq<seq<nat>>, out: seq<seq<U>>, f: T -> U, k: nat)
    requires Projects(data, tr, out, f) && k < |tr|
    ensures |out| == |tr| && InRange(tr[k], |data|) && out[k] == Project(data, tr[k], f)
    decreases k
  {
    if k > 0 {
      ProjectsEntry(data, tr[1..], out[1..], f, k - 1);
    }
  }

  /** The outputs of a live generator are its trace of index states, each
      sent through the accessor. */
  lemma {:induction false} RunProjectsTrace<T, U>(p: Permutator<T>, f: T -> U)
    requires Valid(p) && !p.done
    ensures Projects(p.data, Trace(p.indices), Run(p, f), f)
    decreases Remaining(p)
  {
    var s := p.indices;
    var q := Next(p, f).after;
    RunLive(p, f);
    TraceStep(s);
    NextLive(p, f);
    NextCountsDown(p, f);
    if Successor(s).Some? {
      RunProjectsTrace(q, f);
      ProjectsCons(p.data, s, Trace(q.indices), Run(q, f), f);
    } else {
      assert q.done;
      ProjectsCons(p.data, s, [], Run(q, f), f);
    }
  }

  /** Each index state of the trace is strictly after all earlier ones. */
  lemma {:induction false} TraceIncreasing(s: seq<nat>)
    requires IsPermutation(s, |s|)
    ensures forall a, b :: 0 <= a < b < |Trace(s)| ==> LexLess(Trace(s)[a], Trace(s)[b])
    decreases |Trace(s)|
  {
    TraceStep(s);
    if Successor(s).Some? {
      var t := Successor(s).value;
      TraceIncreasing(t);
      SuccessorIsLexSuccessor(s);
      ConsIncreasing(s, Trace(t));
    }
  }

  /** Putting a sequence strictly before the head of a strictly increasing
      list keeps it strictly increasing. */
  lemma ConsIncreasing(s: seq<nat>, rest: seq<seq<nat>>)
    requires |rest| > 0 && LexLess(s, rest[0])
    requires forall a, b :: 0 <= a < b < |rest| ==> LexLess(rest[a], rest[b])
    ensures forall a, b :: 0 <= a < b < |[s] + rest| ==> LexLess(([s] + rest)[a], ([s] + rest)[b])
  {
    var tr := [s] + rest;
    forall a, b | 0 <= a < b < |tr|
      ensures LexLess(tr[a], tr[b])
    {
      if a == 0 {
        if b > 1 {
          LexLessTransitive(s, rest[0], rest[b - 1]);
        }
      } else {
        assert tr[a] == rest[a - 1] && tr[b] == rest[b - 1];
      }
    }
  }

  /** Every arrangement of the entries of `s` that is not before `s` occurs
      in the trace from `s`. */
  lemma {:induction false} TraceComplete(s: seq<nat>, u: seq<nat>)
    requires IsPermutation(s, |s|)
    requires multiset(u) == multiset(s) && LexLessEq(s, u)
    ensures u in Trace(s)
    decreases |Trace(s)|
  {
    TraceStep(s);
    if u != s {
      assert LexLess(s, u);
      if Successor(s).None? {
        NoSuccessorIsLast(s);
        assert LexLessEq(u, s);
        LexLessAsymmetric(s, u);
        assert false;
      } else {
        var t := Successor(s).value;
        SuccessorIsLexSuccessor(s);
        SuccessorIsLeast(s, u);
        TraceComplete(t, u);
        assert Trace(s)[1..] == Trace(t);
      }
    }
  }

  /** A fresh generator over n items hands out exactly n! outputs. */
  lemma RunLength<T, U>(data: seq<T>, f: T -> U)
    ensures |Run(New(data), f)| == Fact(|data|)
  {
    var p := New(data);
    assert |Run(p, f)| == |Trace(p.indices)|;
    FreshTraceEnds(|data|);
  }

  /** The index states of a fresh generator are exactly the arrangements
      of 0..n-1, in strictly increasing lexicographic order, from the
      identity up to the descending one n-1, ..., 1, 0. */
  lemma AllPermutationsInOrder(n: nat)
    ensures |Trace(Identity(n))| == Fact(n)
    ensures Trace(Identity(n))[0] == Identity(n)
    ensures Trace(Identity(n))[|Trace(Identity(n))| - 1] == Countdown(n)
    ensures forall u :: IsPermutation(u, n) <==> u in Trace(Identity(n))
    ensures forall a, b :: 0 <= a < b < Fact(n) ==> LexLess(Trace(Identity(n))[a], Trace(Identity(n))[b])
  {
    IdentityIsPermutation(n);
    FreshTraceEnds(n);
    TraceIncreasing(Identity(n));
    FreshTraceComplete(n);
  }

  lemma FreshTraceEnds(n: nat)
    ensures |Trace(Identity(n))| == Fact(n)
    ensures Trace(Identity(n))[|Trace(Identity(n))| - 1] == Countdown(n)
  {
    IdentityIsPermutation(n);
    assert |Trace(Identity(n))| == Fact(n) by {
      TraceLength(Identity(n));
      RankOfIdentity(n);
    }
    TraceEndsDescending(Identity(n));
  }

  /** The trace from any arrangement ends at the descending one. */
  lemma TraceEndsDescending(s: seq<nat>)
    requires IsPermutation(s, |s|)
    ensures Trace(s)[|Trace(s)| - 1] == Countdown(|s|)
  {
    TraceEntries(s);
    TraceLast(s);
    var last := Trace(s)[|Trace(s)| - 1];
    LastPermutation(last, |s|);
    IsCountdown(last, |s|);
  }

  lemma FreshTraceComplete(n: nat)
    ensures IsPermutation(Identity(n), n)
    ensures forall u :: IsPermutation(u, n) <==> u in Trace(Identity(n))
  {
    var id := Identity(n);
    IdentityIsPermutation(n);
    TraceEntries(id);
    forall u | IsPermutation(u, n)
      ensures u in Trace(id)
    {
      PermutationsRearrange(id, u, n);
      AscendingIsLeast(id, u);
      TraceComplete(id, u);
    }
  }

  lemma IsCountdown(s: seq<nat>, n: nat)
    requires |s| == n && forall k :: 0 <= k < n ==> s[k] == n - 1 - k
    ensures s == Countdown(n)
  {
  }

  /** No arrangement is handed out twice. */
  lemma TraceDistinct(s: seq<nat>)
    requires IsPermutation(s, |s|)
    ensures forall a, b :: 0 <= a < b < |Trace(s)| ==> Trace(s)[a] != Trace(s)[b]
  {
    TraceIncreasing(s);
    forall a, b | 0 <= a < b < |Trace(s)|
      ensures Trace(s)[a] != Trace(s)[b]
    {
      LexLessAsymmetric(Trace(s)[a], Trace(s)[b]);
    }
  }

  /** The outputs of a fresh generator: n! of them, the first the input
      in order, the last the input reversed, and the projection of every
      arrangement of the input positions among them. */
  lemma FreshRun<T, U>(data: seq<T>, f: T -> U)
    ensures |Run(New(data), f)| == Fact(|data|)
    ensures Run(New(data), f)[0] == Project(data, Identity(|data|), f)
    ensures Run(New(data), f)[|Run(New(data), f)| - 1] == Project(data, Countdown(|data|), f)
    ensures forall u :: IsPermutation(u, |data|) ==> Project(data, u, f) in Run(New(data), f)
  {
    RunLength(data, f);
    RunEnds(New(data), f);
    FreshRunCovers(data, f);
  }

  /** The first output of a live generator projects its current indices,
      the last one projects the descending arrangement. */
  lemma RunEnds<T, U>(p: Permutator<T>, f: T -> U)
    requires Valid(p) && !p.done
    ensures |Run(p, f)| > 0
    ensures Run(p, f)[0] == Project(p.data, p.indices, f)
    ensures Run(p, f)[|Run(p, f)| - 1] == Project(p.data, Countdown(|p.data|), f)
  {
    var out := Run(p, f);
    var tr := Trace(p.indices);
    assert Projects(p.data, tr, out, f) by {
      RunProjectsTrace(p, f);
    }
    assert tr[|tr| - 1] == Countdown(|p.data|) by {
      TraceEndsDescending(p.indices);
    }
    ProjectsEntry(p.data, tr, out, f, 0);
    ProjectsEntry(p.data, tr, out, f, |tr| - 1);
  }

  lemma FreshRunCovers<T, U>(data: seq<T>, f: T -> U)
    ensures forall u :: IsPermutation(u, |data|) ==> Project(data, u, f) in Run(New(data), f)
  {
    var n := |data|;
    var p := New(data);
    var out := Run(p, f);
    var tr := Trace(Identity(n));
    assert Projects(data, tr, out, f) by {
      RunProjectsTrace(p, f);
    }
    FreshTraceComplete(n);
    forall u | IsPermutation(u, n)
      ensures Project(data, u, f) in out
    {
      ProjectedMember(data, tr, out, f, u);
    }
  }

  lemma ProjectedMember<T, U>(data: seq<T>, tr: seq<seq<nat>>, out: seq<seq<U>>, f: T -> U, u: seq<nat>)
    requires Projects(data, tr, out, f) && u in tr && InRange(u, |data|)
    ensures Project(data, u, f) in out
  {
    var k :| 0 <= k < |tr| && tr[k] == u;
    ProjectsEntry(data, tr, out, f, k);
  }

  /** `permute`: everything a fresh generator over `data` hands out. There
      are n! outputs and every arrangement of the input is among them. */
  function Permute<T, U>(data: seq<T>, f: T -> U): (out: seq<seq<U>>)
    ensures |out| == Fact(|data|)
    ensures forall u :: IsPermutation(u, |data|) ==> Project(data, u, f) in out
  {
    FreshRun(data, f);
    Run(New(data), f)
  }

  /** An empty input yields one empty output and then nothing (where the
      code as written panics on the first call). */
  lemma EmptyRun<T, U>(f: T -> U)
    ensures Run(New<T>([]), f) == [[]]
  {
    var p := New<T>([]);
    RunLive(p, f);
    assert Next(p, f).after.done;
  }

  /** A single item yields itself once. */
  lemma SingleRun<T, U>(x: T, f: T -> U)
    ensures Run(New([x]), f) == [[f(x)]]
  {
    var p := New([x]);
    assert p.indices == [0];
    assert NonIncreasing([0]);
    RunLive(p, f);
    NextLive(p, f);
    assert Next(p, f).after.done;
    assert |Run(Next(p, f).after, f)| == 0;
    assert Project([x], [0], f) == [f(x)];
  }

  /** One live call of `next` in the run, with the successor of the
      indices given. */
  lemma RunStep<T, U>(p: Permutator<T>, f: T -> U, t: seq<nat>)
    requires Valid(p) && !p.done && Successor(p.indices) == Some(t)
    ensures Valid(p.(indices := t))
    ensures Run(p, f) == [Project(p.data, p.indices, f)] + Run(p.(indices := t), f)
  {
    RunLive(p, f);
    NextLive(p, f);
  }

  /** The last live call of `next` in the run. */
  lemma RunEnd<T, U>(p: Permutator<T>, f: T -> U)
    requires Valid(p) && !p.done && Successor(p.indices).None?
    ensures Run(p, f) == [Project(p.data, p.indices, f)]
  {
    RunLive(p, f);
    NextLive(p, f);
    assert Next(p, f).after.done;
  }

  /** The successor steps over three positions, one by one; each result
      is written as a rearrangement of the entries of `s`. */
  lemma Step012(s: seq<nat>)
    requires |s| == 3 && s[0] == 0 && s[1] == 1 && s[2] == 2
    ensures Successor(s) == Some([s[0], s[2], s[1]])
  {
    assert ScanPivot(s, 2) == 2;
    assert ScanSuccessor(s, 1, 2) == 2;
    var w := Swap(s, 1, 2);
    assert w == [s[0], s[2], s[1]];
    assert Reverse(w[2..]) == [s[1]];
    SuccessorUnfold(s, 2, 2);
    assert w[..2] + Reverse(w[2..]) == [s[0], s[2], s[1]];
  }

  lemma Step021(s: seq<nat>)
    requires |s| == 3 && s[0] == 0 && s[1] == 2 && s[2] == 1
    ensures Successor(s) == Some([s[2], s[0], s[1]])
  {
    assert ScanPivot(s, 2) == 1;
    assert ScanPivot(s, 1) == 1;
    assert ScanSuccessor(s, 0, 2) == 2;
    var w := Swap(s, 0, 2);
    assert w == [s[2], s[1], s[0]];
    assert Reverse(w[1..][1..]) == w[1..][1..];
    assert Reverse(w[1..]) == [s[0], s[1]];
    SuccessorUnfold(s, 1, 2);
    assert w[..1] + Reverse(w[1..]) == [s[2], s[0], s[1]];
  }

  lemma Step102(s: seq<nat>)
    requires |s| == 3 && s[0] == 1 && s[1] == 0 && s[2] == 2
    ensures Successor(s) == Some([s[0], s[2], s[1]])
  {
    assert ScanPivot(s, 2) == 2;
    assert ScanSuccessor(s, 1, 2) == 2;
    var w := Swap(s, 1, 2);
    assert w == [s[0], s[2], s[1]];
    assert Reverse(w[2..]) == [s[1]];
    SuccessorUnfold(s, 2, 2);
    assert w[..2] + Reverse(w[2..]) == [s[0], s[2], s[1]];
  }

  lemma Step120(s: seq<nat>)
    requires |s| == 3 && s[0] == 1 && s[1] == 2 && s[2] == 0
    ensures Successor(s) == Some([s[1], s[2], s[0]])
  {
    assert ScanPivot(s, 2) == 1;
    assert ScanPivot(s, 1) == 1;
    assert ScanSuccessor(s, 0, 2) == 1;
    assert ScanSuccessor(s, 0, 1) == 1;
    var w := Swap(s, 0, 1);
    assert w == [s[1], s[0], s[2]];
    assert Reverse(w[1..][1..]) == w[1..][1..];
    assert Reverse(w[1..]) == [s[2], s[0]];
    SuccessorUnfold(s, 1, 1);
    assert w[..1] + Reverse(w[1..]) == [s[1], s[2], s[0]];
  }

  lemma Step201(s: seq<nat>)
    requires |s| == 3 && s[0] == 2 && s[1] == 0 && s[2] == 1
    ensures Successor(s) == Some([s[0], s[2], s[1]])
  {
    assert ScanPivot(s, 2) == 2;
    assert ScanSuccessor(s, 1, 2) == 2;
    var w := Swap(s, 1, 2);
    assert w == [s[0], s[2], s[1]];
    assert Reverse(w[2..]) == [s[1]];
    SuccessorUnfold(s, 2, 2);
    assert w[..2] + Reverse(w[2..]) == [s[0], s[2], s[1]];
  }

  lemma Step210(s: seq<nat>)
    requires |s| == 3 && s[0] == 2 && s[1] == 1 && s[2] == 0
    ensures Successor(s).None?
  {
    assert NonIncreasing(s);
  }

  /** The output for three items at the index state `s`. */
  lemma ProjectThree<T, U>(x: T, y: T, z: T, f: T -> U, s: seq<nat>)
    requires |s| == 3 && InRange(s, 3)
    ensures Project([x, y, z], s, f) == [f([x, y, z][s[0]]), f([x, y, z][s[1]]), f([x, y, z][s[2]])]
  {
  }

  /** `ss` lists successive index states: each is the successor of the one
      before, and the last has none. */
  ghost predicate Chain(ss: seq<seq<nat>>)
    decreases |ss|
  {
    && |ss| > 0
    && (|ss| == 1 ==> Successor(ss[0]).None?)
    && (|ss| > 1 ==> Successor(ss[0]) == Some(ss[1]) && Chain(ss[1..]))
  }

  /** A live generator whose index states follow the chain `ss` hands out
      the projection of each state of the chain, in order. */
  lemma {:induction false} RunFollowsChain<T, U>(p: Permutator<T>, f: T -> U, ss: seq<seq<nat>>)
    requires Valid(p) && !p.done && Chain(ss) && ss[0] == p.indices
    ensures Projects(p.data, ss, Run(p, f), f)
    decreases |ss|
  {
    var out := Run(p, f);
    if |ss| == 1 {
      RunEnd(p, f);
      assert out[1..] == [] && ss[1..] == [];
    } else {
      var q := p.(indices := ss[1]);
      RunStep(p, f, ss[1]);
      assert Projects(p.data, ss[1..], Run(q, f), f) by {
        RunFollowsChain(q, f, ss[1..]);
      }
      assert out[1..] == Run(q, f);
    }
  }

  /** A chain of one state without successor. */
  lemma ChainSingle(s: seq<nat>)
    requires Successor(s).None?
    ensures Chain([s])
  {
  }

  /** A chain extends to the front by a state that steps to its first
      state. */
  lemma ChainCons(s: seq<nat>, ss: seq<seq<nat>>)
    requires Chain(ss) && Successor(s) == Some(ss[0])
    ensures Chain([s] + ss)
  {
    assert ([s] + ss)[1..] == ss;
  }

  /** Six states written as nested single-element prefixes. */
  lemma SixCons<X>(x0: X, x1: X, x2: X, x3: X, x4: X, x5: X)
    ensures [x0] + ([x1] + ([x2] + ([x3] + ([x4] + [x5])))) == [x0, x1, x2, x3, x4, x5]
  {
  }

  /** The six index states over three positions, in the order the
      successor step visits them. */
  lemma {:induction false} ThreeChain(s0: seq<nat>, s1: seq<nat>, s2: seq<nat>, s3: seq<nat>, s4: seq<nat>, s5: seq<nat>)
    requires |s0| == 3 && s0[0] == 0 && s0[1] == 1 && s0[2] == 2
    requires s1 == [s0[0], s0[2], s0[1]] && s2 == [s0[1], s0[0], s0[2]] && s3 == [s0[1], s0[2], s0[0]]
    requires s4 == [s0[2], s0[0], s0[1]] && s5 == [s0[2], s0[1], s0[0]]
    ensures Chain([s0, s1, s2, s3, s4, s5])
  {
    Step012(s0);
    Step021(s1);
    Step102(s2);
    Step120(s3);
    Step201(s4);
    Step210(s5);
    ChainOfSix(s0, s1, s2, s3, s4, s5);
  }

  /** Six states, each the successor of the one before and the last with
      none, form a chain. */
  lemma {:induction false} ChainOfSix(s0: seq<nat>, s1: seq<nat>, s2: seq<nat>, s3: seq<nat>, s4: seq<nat>, s5: seq<nat>)
    requires Successor(s0) == Some(s1) && Successor(s1) == Some(s2) && Successor(s2) == Some(s3)
    requires Successor(s3) == Some(s4) && Successor(s4) == Some(s5) && Successor(s5).None?
    ensures Chain([s0, s1, s2, s3, s4, s5])
  {
    var c5 := [s5];
    ChainSingle(s5);
    var c4 := [s4] + c5;
    ChainCons(s4, c5);
    var c3 := [s3] + c4;
    ChainCons(s3, c4);
    var c2 := [s2] + c3;
    ChainCons(s2, c3);
    var c1 := [s1] + c2;
    ChainCons(s1, c2);
    ChainCons(s0, c1);
    SixCons(s0, s1, s2, s3, s4, s5);
  }

  /** The six outputs projected from six listed states. */
  lemma {:induction false} ProjectsSix<T, U>(data: seq<T>, ss: seq<seq<nat>>, out: seq<seq<U>>, f: T -> U,
                          s0: seq<nat>, s1: seq<nat>, s2: seq<nat>, s3: seq<nat>, s4: seq<nat>, s5: seq<nat>)
    requires ss == [s0, s1, s2, s3, s4, s5] && Projects(data, ss, out, f)
    ensures InRange(s0, |data|) && InRange(s1, |data|) && InRange(s2, |data|)
    ensures InRange(s3, |data|) && InRange(s4, |data|) && InRange(s5, |data|)
    ensures out == [Project(data, s0, f), Project(data, s1, f), Project(data, s2, f),
                    Project(data, s3, f), Project(data, s4, f), Project(data, s5, f)]
  {
    ProjectsEntry(data, ss, out, f, 0);
    ProjectsEntry(data, ss, out, f, 1);
    ProjectsEntry(data, ss, out, f, 2);
    ProjectsEntry(data, ss, out, f, 3);
    ProjectsEntry(data, ss, out, f, 4);
    ProjectsEntry(data, ss, out, f, 5);
  }

  /** A live generator whose index states follow a chain of six hands out
      exactly the six projections of those states. */
  lemma {:induction false} RunSix<T, U>(p: Permutator<T>, f: T -> U,
                                        s1: seq<nat>, s2: seq<nat>, s3: seq<nat>, s4: seq<nat>, s5: seq<nat>)
    requires Valid(p) && !p.done && Chain([p.indices, s1, s2, s3, s4, s5])
    ensures InRange(s1, |p.data|) && InRange(s2, |p.data|) && InRange(s3, |p.data|)
    ensures InRange(s4, |p.data|) && InRange(s5, |p.data|)
    ensures Run(p, f) == [Project(p.data, p.indices, f), Project(p.data, s1, f), Project(p.data, s2, f),
                          Project(p.data, s3, f), Project(p.data, s4, f), Project(p.data, s5, f)]
  {
    var ss := [p.indices, s1, s2, s3, s4, s5];
    RunFollowsChain(p, f, ss);
    ProjectsSix(p.data, ss, Run(p, f), f, p.indices, s1, s2, s3, s4, s5);
  }

  /** Three items, in the order the iterator hands them out: the
      arrangements 123, 132, 213, 231, 312, 321. */
  lemma ThreeItems<T, U>(x: T, y: T, z: T, f: T -> U)
    ensures Run(New([x, y, z]), f) == [[f(x), f(y), f(z)], [f(x), f(z), f(y)], [f(y), f(x), f(z)],
                                       [f(y), f(z), f(x)], [f(z), f(x), f(y)], [f(z), f(y), f(x)]]
  {
    var d := [x, y, z];
    var p := New(d);
    var s0 := p.indices;
    var s1, s2, s3 := [s0[0], s0[2], s0[1]], [s0[1], s0[0], s0[2]], [s0[1], s0[2], s0[0]];
    var s4, s5 := [s0[2], s0[0], s0[1]], [s0[2], s0[1], s0[0]];
    ThreeChain(s0, s1, s2, s3, s4, s5);
    RunSix(p, f, s1, s2, s3, s4, s5);
    ProjectThree(x, y, z, f, s0);
    ProjectThree(x, y, z, f, s1);
    ProjectThree(x, y, z, f, s2);
    ProjectThree(x, y, z, f, s3);
    ProjectThree(x, y, z, f, s4);
    ProjectThree(x, y, z, f, s5);
  }

  /** The two tests: permuting three items, by reference or cloned, gives
      the six arrangements in lexicographic order. */
  lemma PermuteThree<T, U>(x: T, y: T, z: T, f: T -> U)
    ensures Permute([x, y, z], f) == [[f(x), f(y), f(z)], [f(x), f(z), f(y)], [f(y), f(x), f(z)],
                                      [f(y), f(z), f(x)], [f(z), f(x), f(y)], [f(z), f(y), f(x)]]
  {
    ThreeItems(x, y, z, f);
  }
}
