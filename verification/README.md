# Permutator: a lazy lexicographic permutation generator

The Rust crate provides `permute(data, accessor)`. It borrows a slice of
`n` items and returns an iterator. Each call of `next` hands out one
arrangement of the items as a fresh vector, with every item passed through
the accessor. The iterator does not copy the items around. It keeps a vector
of indices, starting at the identity `0, 1, ..., n-1`, and steps it to its
lexicographic successor in place. The step is the classic next-permutation
algorithm:

- a right-to-left scan for the pivot, the last position whose entry is
  smaller than its right neighbour;
- a right-to-left scan for the last entry larger than the pivot entry;
- an exchange of the two;
- a reversal of the suffix right of the pivot.

When no pivot exists, the current arrangement is the last one. The iterator
hands it out and sets its `done` flag. Every later call answers `None`.

The Dafny model has seven modules:

- `Options`: the `Option` datatype for an answer that may be absent, as
  Rust's `Option`.
- `Lex`: lexicographic order on index sequences. It proves that an ascending
  arrangement is the least of its rearrangements and a descending one the
  greatest.
- `Permutations`: index states. A permutation of `0..n-1` is a sequence of
  `n` distinct entries below `n`. The module proves this is the same as
  being a rearrangement of the identity.
- `NextPermutation`: the two scans, the exchange, the reversal and the
  successor step, as pure functions. It proves that the step yields exactly
  the lexicographic successor of its input among the input's
  rearrangements, and yields none exactly at the last one.
- `Engine`: the generator itself. It holds the `Permutator` state, `new`,
  `next` as a pure function with the empty-input underflow corrected,
  `next` as written (a pure function that mirrors the code's control flow:
  the underflow check on an empty input, then the successor step, which on
  a non-empty state is the index work of the code), and `next` as the source runs it: projection loop,
  array scans, exchange and in-place reversal. Theorems tie the imperative
  version to the as-written function and that function to the corrected
  step.
- `Ranking`: the rank of an index state, its Lehmer code read in the
  factorial number system. The identity has rank 0, the descending
  arrangement has rank n!-1, and each step adds exactly 1.
- `Enumeration`: the whole run of a generator. It proves:
  - a fresh generator over `n` items hands out exactly n! outputs;
  - the index states behind them are every arrangement of `0..n-1`, in
    strictly increasing lexicographic order;
  - the first output is the input and the last one is the input reversed;
  - the two unit tests of the crate, on three items, come out as written.

The accessor is a pure function `T -> U`, passed to `next`. The borrowed
slice is an immutable sequence.

## Model

| member | source | states |
|---|---|---|
| Engine.New | src/lib.rs:17-28 | A fresh generator keeps the input and holds the identity indices: position k holds k, for every k below n. It is not exhausted, and its indices are a permutation of 0..n-1. |
| Engine.Next | src/lib.rs:33-63 | An exhausted generator answers None and stays unchanged, so the done state is idempotent. A live one answers an output of length n whose k-th element is the accessor applied to `data[indices[k]]`. It becomes exhausted exactly when no entry is smaller than its right neighbour, and then keeps its indices. Otherwise its indices become the successor of the old ones. Either way the indices stay a permutation. |
| Engine.NextDoneAtLast | src/lib.rs:45-51 | `next` sets `done` exactly when the indices it started from are n-1, ..., 1, 0. |
| Engine.NextIsLeastLater | src/lib.rs:53-59 | When `next` does not exhaust the generator, the new indices are a permutation of 0..n-1. They are strictly lexicographically greater than the old ones, and no greater than any other permutation that is strictly greater than the old ones. |
| Engine.Project | src/lib.rs:38-43 | The output has one element per index, and its k-th element is the accessor applied to `data[indices[k]]`. |
| Engine.NextAsWritten | src/lib.rs:33-63 | As the code is written, a call panics exactly when the generator is live and the input is empty. A call that returns keeps the input. |
| Engine.EmptyInputPanics | src/lib.rs:45 | On the empty input, the first call as written panics. The corrected step hands out one empty arrangement and becomes exhausted. |
| Engine.AsWrittenAgrees | src/lib.rs:33-63 | On every state other than a live one over an empty input, the code as written returns the same item and leaves the same state as the corrected step. |
| Engine.FindPivot | src/lib.rs:45-48 | The `while` loop over the index array stops where the pivot scan stops. |
| Engine.FindSuccessor | src/lib.rs:53-56 | The `while` loop over the index array stops where the successor scan stops. |
| Engine.ProjectLoop | src/lib.rs:38-43 | The projection loop builds the output whose k-th element is the accessor applied to `data[s[k]]`. |
| Engine.Exchange | src/lib.rs:58 | The exchange on the index array leaves the two entries exchanged and every other entry in place. |
| Engine.ReverseSuffix | src/lib.rs:59 | The in-place reversal leaves the entries before `i` alone and the entries from `i` on in the opposite order. |
| Engine.AdvanceFromPivot | src/lib.rs:53-59 | Once the pivot scan has stopped at `i > 0`, the successor scan, exchange and reversal leave the successor of the old array contents behind. |
| Engine.AdvanceInPlace | src/lib.rs:45-60 | The scans, exchange and reversal on the index array report "no pivot" exactly when the old contents have no successor, and then leave the array as it was. Otherwise they leave the successor behind. |
| Engine.AdvanceIndices | src/lib.rs:45-60 | The in-place scans, exchange and reversal on an array report "no pivot" exactly when the successor step gives none. Otherwise they leave the successor behind. |
| Engine.NextMethod | src/lib.rs:33-63 | The imperative `next` returns exactly what `next` as written returns, the panic on the live empty input included. |
| NextPermutation.Successor | src/lib.rs:45-60 | When the step yields a new index state, it has as many entries as the old one. |
| NextPermutation.Swap | src/lib.rs:58 | The exchange puts each of the two entries at the other's position and keeps every other entry. |
| NextPermutation.Reverse | src/lib.rs:59 | The reversal has the same length, and its k-th entry is the input's k-th entry from the end. |
| NextPermutation.ScanPivot | src/lib.rs:45-48 | The pivot scan stops at 0 or at a position whose left neighbour is smaller. |
| NextPermutation.ScanPivotDescends | src/lib.rs:45-48 | Every stretch the pivot scan walks over is non-increasing. |
| NextPermutation.ScanSuccessor | src/lib.rs:53-56 | The successor scan stops right of the pivot, at an entry larger than the pivot entry, so it never runs past the pivot. Every entry it walked over is at most the pivot entry. |
| NextPermutation.SuccessorNone | src/lib.rs:45-51 | There is no successor exactly when no entry is smaller than its right neighbour. |
| NextPermutation.SuccessorShape | src/lib.rs:53-59 | After the exchange and reversal, the prefix before the pivot is unchanged. The pivot holds the entry the successor scan found, the suffix is ascending, and the entries are a rearrangement of the old ones. |
| NextPermutation.SuccessorIsLeast | src/lib.rs:53-59 | The successor is at most every rearrangement that is strictly after the old state. |
| NextPermutation.SuccessorCharacterization | src/lib.rs:45-59 | The step yields `t` if and only if `t` is the lexicographic successor of the state among its rearrangements. It yields none if and only if the state is the greatest of its rearrangements. |
| NextPermutation.SuccessorPreservesPermutation | src/lib.rs:58-59 | Exchange plus reversal turns a permutation of 0..n-1 into a permutation of 0..n-1. |
| NextPermutation.LexSuccessorUnique | src/lib.rs:53-59 | A state has at most one lexicographic successor. |
| Permutations.PermutationIsRearrangement | src/lib.rs:24 | Being a permutation of 0..n-1 is the same as being a rearrangement of the identity, in both directions. |
| Permutations.LastPermutation | src/lib.rs:46-51 | A permutation has no entry below its right neighbour exactly when it is n-1, ..., 1, 0. |
| Ranking.RankSuccessor | src/lib.rs:53-59 | Each step raises the rank of the index state by exactly one. |
| Ranking.RankOfIdentity | src/lib.rs:24 | The starting state has rank 0. |
| Ranking.RankOfLast | src/lib.rs:50-51 | The state at which the generator stops has rank n!-1. |
| Ranking.RankBound | src/lib.rs:45-59 | Every state of length n has rank below n!. |
| Enumeration.Run | src/lib.rs:73 | Collecting the iterator gives as many outputs as the count of remaining outputs says: zero on an exhausted generator. |
| Enumeration.NextCountsDown | src/lib.rs:33-63 | Every live call of `next` uses up exactly one of the remaining outputs. |
| Enumeration.RunLength | src/lib.rs:2-7 | A fresh generator over n items hands out exactly n! outputs before it answers None. |
| Enumeration.AllPermutationsInOrder | src/lib.rs:17-63 | Starting from the identity, the index states of a run number n! and begin at the identity. They end at n-1, ..., 0, contain every permutation of 0..n-1 and nothing else, and are in strictly increasing lexicographic order. |
| Enumeration.TraceComplete | src/lib.rs:53-59 | Every rearrangement not before the current state is reached later in the run. |
| Enumeration.TraceDistinct | src/lib.rs:53-59 | No index state occurs twice in a run. |
| Enumeration.RunProjectsTrace | src/lib.rs:38-43 | The outputs of a run are its index states, each sent through the accessor, in order. |
| Enumeration.FreshRun | src/lib.rs:2-7 | A fresh generator hands out n! outputs. The first is the input in order and the last is the input reversed, each item passed through the accessor. The projection of every permutation of the positions is among them. |
| Enumeration.Permute | src/lib.rs:2-7 | `permute` yields n! outputs, and the projection of every arrangement of the input is among them. |
| Enumeration.EmptyRun | src/lib.rs:33-63 | With the underflow corrected, an empty input yields one empty output and then nothing. |
| Enumeration.SingleRun | src/lib.rs:33-63 | A single item yields itself once. |
| Enumeration.ThreeItems | src/lib.rs:70-94 | A fresh generator over three items hands out 123, 132, 213, 231, 312, 321 through the accessor, and nothing else. |
| Enumeration.PermuteThree | src/lib.rs:70-94 | `permute` on three items gives the six arrangements the two tests expect, in their order. This holds for the identity accessor and for `clone` alike. |

## Left out

- Lifetimes, borrowing and the `impl Iterator` / `collect` plumbing. The
  borrowed slice becomes an immutable sequence. Collecting the iterator
  becomes the function `Run`, which repeats `next` until it answers `None`.
- The accessor is modelled as a pure function `T -> U`. A `FnMut` accessor
  with internal state, or one that drives the same generator re-entrantly,
  is not modelled.
- `usize` width is not modelled. Indices are unbounded naturals. The only
  place the width matters is the underflow of `indices.len() - 1` on an
  empty input, which is modelled (see Findings). No other index operation
  can leave the range 0..n-1, as the scan contracts show.
- The projection references the items (`&T`). References and clones are not
  told apart: both test accessors are modelled as functions on the item.
- NextPermutation.Successor: its own contract gives only the length of
  the new state. What the step means is proved about it in
  `SuccessorCharacterization`, `SuccessorShape`, `SuccessorIsLeast` and
  `SuccessorNone`, to keep the function's unfolding cheap for the provers.

## Findings

An empty input has 0! = 1 arrangement, the empty one. A single item
yields its one arrangement and then exhaustion, and nothing in the code
treats the empty input as a separate case. So the evidently intended
behaviour is one empty permutation followed by exhaustion. The code as
written panics instead. The model keeps both: `Engine.NextAsWritten` and
`Engine.NextMethod` follow the code, and `Engine.Next` and the rest of the
model follow the intended behaviour.

| source | as written | input that shows it | evidently intended | confidence | as-written member | corrected member |
|---|---|---|---|---|---|---|
| src/lib.rs:45 | `let mut i = self.indices.len() - 1;` subtracts 1 from a `usize` length of 0, which panics in a debug build and wraps around in a release build, where the index `self.indices[i - 1]` on line 46 is out of bounds and panics instead | `permute(&[] as &[i32], Clone::clone).next()` | an empty input yields exactly one permutation, the empty one, and then the iterator is exhausted, the same as for a single item | not executed | Engine.NextAsWritten (with Engine.EmptyInputPanics and Engine.NextMethod) | Engine.Next (with Enumeration.EmptyRun) |
