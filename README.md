# Iterator tools: permutations, zipping, chaining, folding

A Dafny model of the core of the Go package `it`, a small set of tools over
Go's `iter.Seq` iterators inspired by Python's itertools. It covers:

- the permutation generator `Perm` and both of its forms: `permIter`, the
  counter-array loop that `Perm` uses, and `permRec`, the recursive form of
  Heap's algorithm;
- the combinators `Zip`, `Concat` and `Chain`;
- the reductions `Fold` and `All`;
- `CollectErr`, which drains an iterator of (value, error) pairs.

A Go iterator is a function that pushes values into a `yield` callback and
stops as soon as `yield` returns `false`. The model has three parts:

- **Producers.** A producer is the finite sequence of values it would offer.
- **Consumers.** The consumer is a function `consumer(k, x)`: its answer to the
  `k`-th offered value `x`.
- **What gets delivered.** `Lazy.Accepted(full, consumer, k)` is what the
  consumer actually receives: the offered values up to and including the first
  one it declines, and nothing after it. Every producer method returns the
  values it delivered, and its contract ties them to `Accepted` of a
  specification sequence.

The permutation generators work on real arrays. `data` is permuted in place,
and each delivery copies `data` into a reused buffer `ret` of the same length.
A delivery is recorded as a snapshot of `ret`.

Each generator is specified by a run, `Run(deliveries, final)`: the orderings
it offers when nothing is declined, and the state in which it leaves the slice.

- `Perm.Heap(k, s)` and `Perm.HeapLoop` are the recursive specification of
  `perm(k, s)`.
- `Perm.IterFrom(s, c, i)` is the specification of the counter loop. It takes
  one step per loop iteration, and its termination measure is a
  factorial-base weight of the counters.
- `Perm.IterIsRec` proves that the two forms make the same run.
- From that run, the count `n!`, the first delivery and the multiset of every
  delivery follow for both forms.
- `PermDistinct` proves that no ordering is offered twice when the slice has no
  repeated element. It follows which element of the slice each position holds
  in each block of `perm(k, s)`, each block being one call of `perm(k - 1, ·)`.

Modules, one file each: `Wrappers` (Option), `Lazy` (the consumer protocol),
`Perm` (perm.go), `PermDistinct` (perm.go, no ordering twice), `It` (it.go),
`Fold` (fold.go), `Errors` (errors.go).

## Model

| member | source | states |
|---|---|---|
| Lazy.AcceptedPrefix | it.go:40-44 | what a consumer receives is a prefix of what is offered and it accepted all of it except possibly the last element; it receives everything exactly when it accepts everything, otherwise the last element received is the one it declined |
| Lazy.AcceptedStops | it.go:22-24 | once the consumer declines an element, nothing offered after it is delivered and the whole offer counts as not accepted |
| Lazy.AcceptedAppend | it.go:39-45 | offering `a`, all accepted, then `b` delivers `a` followed by what the consumer takes of `b` |
| Lazy.AcceptedDeclined | perm.go:32-34 | once a decline has happened within `a`, nothing of what follows `a` is delivered |
| Lazy.AllAcceptedSplit | it.go:39-45 | the consumer accepts all of `a + b` exactly when it accepts all of `a` and then all of `b` |
| Lazy.AllAcceptedAt | it.go:40-44 | accepting a whole sequence means answering "continue" at every position, in both directions |
| Perm.SwapExchanges | perm.go:37 | a swap exchanges the two positions, leaves every other position alone and keeps the multiset of elements |
| Perm.Heap | perm.go:27-46 | the run of `perm(k, s)` offers at least one ordering, the first being `s` itself |
| Perm.HeapCount | perm.go:27-46 | `perm(k, s)` offers exactly `k!` orderings |
| Perm.HeapLoopCount | perm.go:35-44 | iterations `i..k-2` of the loop of `perm(k, s)` offer `(k-1-i)·(k-1)!` orderings |
| Perm.HeapRearranges | perm.go:27-46 | every ordering `perm(k, s)` offers, and the state it leaves `s` in, has the multiset of `s` and keeps every position from `k` on |
| Perm.HeapLoopRearranges | perm.go:35-44 | the same for iterations `i..k-2` of the loop |
| Perm.HeapTwo | perm.go:32-43 | `perm(2, s)` offers `s` and then `s` with its first two elements exchanged |
| Perm.WeightBound | perm.go:70-86 | the factorial-base weight of a counter state lies between 0 and `n! - 1` |
| Perm.WeightSwap | perm.go:71-81 | a swap step bumps `c[i]`, restarts the scan at 1, keeps the counters well formed and raises the weight by exactly one |
| Perm.WeightReset | perm.go:82-84 | a reset step clears `c[i]`, advances the scan and keeps the weight |
| Perm.IterStepSwap | perm.go:71-81 | one swap step of permIter's loop delivers the swapped slice and continues from scan position 1 with `c[i]` bumped |
| Perm.IterStepReset | perm.go:82-84 | a reset step delivers nothing and continues from position `i + 1` with `c[i]` cleared |
| Perm.SwapsAgree | perm.go:36-40 | the swap permIter makes at scan position `k` with counter `c[k]` is the swap `perm(k + 1, ·)` makes in iteration `c[k]` |
| Perm.IterSim | perm.go:70-86 | started after a delivery with every counter below `k` at zero, permIter's loop delivers what `perm(k, s)` still delivers after its first ordering, and then reaches scan position `k` with the slice as `perm(k, s)` leaves it |
| Perm.IterSimLoop | perm.go:35-44 | at scan position `k` with counter `c[k] = j`, permIter's loop delivers what iterations `j..k-1` of the loop of `perm(k + 1, s)` deliver, then moves past position `k` with that counter reset |
| Perm.IterIsRec | perm.go:9-12 | permIter and permRec offer the same orderings in the same order and leave the slice in the same state |
| Perm.RecDeliveries | perm.go:15-49 | permRec offers nothing for an empty slice and otherwise `n!` orderings, the first the slice itself, each with the slice's length and multiset, and it leaves the slice rearranged |
| Perm.IterDeliveries | perm.go:51-88 | the same for permIter |
| Perm.RecSingle | perm.go:20-22 | a one-element slice is offered exactly once, as itself |
| Perm.PermOneTwoThree | perm_test.go:13-31 | Perm offers `[1,2,3]`, `[2,1,3]`, `[3,1,2]`, `[1,3,2]`, `[2,3,1]`, `[3,2,1]` in that order |
| PermDistinct.HeapFinal | perm.go:27-46 | the state `perm(k, s)` leaves: `s` itself for `k = 1`; the first and the `k`-th element exchanged for odd `k` and for `k = 2`; for even `k >= 4` the order `s[k-3], s[k-2], s[1], ..., s[k-4], s[k-1], s[0]`; every position from `k` on untouched |
| PermDistinct.EvenStart | perm.go:35-37 | for even `k >= 4`, which element of `s` each position holds at the start of block `i`, for `1 <= i <= k - 2` |
| PermDistinct.OddStart | perm.go:35-39 | for odd `k`, one block to the next moves the elements by one fixed rearrangement of the first `k` positions |
| PermDistinct.OddCycle | perm.go:38-39 | for odd `k`, that rearrangement is a single cycle through all `k` positions: applied `k` times it gives back every position |
| PermDistinct.OddOrbit | perm.go:38-39 | for odd `k`, following position `k - 1` back through that rearrangement block by block visits `k - 1`, then `k - 4` down to `1`, then `k - 3`, `k - 2` and `0` |
| PermDistinct.LoopBlocks | perm.go:35-44 | the loop of `perm(k, s)` after block `i` delivers blocks `i+1..k-1` and leaves the state the last block leaves |
| PermDistinct.HeapBlocks | perm.go:27-46 | `perm(k, s)` delivers its `k` blocks one after the other |
| PermDistinct.LastAt | perm.go:35-44 | block `i` of `perm(k, s)` keeps at position `k - 1` the element of `s` at `Last(k, i)` |
| PermDistinct.LastInjective | perm.go:35-44 | different blocks take that element from different positions of `s` |
| PermDistinct.BlockStartDistinct | perm.go:35-43 | every block starts from a state without repeated elements when `s` has none |
| PermDistinct.BlocksDistinct | perm.go:35-44 | blocks `i..k-1` offer no ordering twice, and none of their orderings holds at position `k - 1` what an earlier block keeps there |
| PermDistinct.HeapDistinct | perm.go:27-46 | `perm(k, s)` offers no ordering twice when `s` has no repeated element |
| PermDistinct.RecDistinct | perm.go:15-49 | permRec offers no ordering twice when the slice has no repeated element |
| PermDistinct.IterDistinct | perm.go:5-13 | for a slice without repeated elements, Perm offers `n!` orderings, each a rearrangement of the slice, no two the same |
| Perm.CopyInto | perm.go:29 | the buffer becomes an exact copy of the slice |
| Perm.YieldCopy | perm.go:57-60 | `yieldCopy` copies the slice into the buffer, leaves the slice alone and hands the copy to the consumer |
| Perm.SwapInPlace | perm.go:73 | the array becomes the swap of its old contents |
| Perm.SwapAt | perm.go:72-76 | permIter swaps `data[0]` with `data[i]` for even `i` and `data[c[i]]` with `data[i]` for odd `i` |
| Perm.PermIter | perm.go:51-88 | permIter delivers exactly the prefix of its run that the consumer takes; after a decline the slice is left as the last delivery and otherwise as the run's final state |
| Perm.CounterLoop | perm.go:70-86 | the counter loop, entered after accepted deliveries, completes the same delivery prefix and final state |
| Perm.HeapPerm | perm.go:27-46 | `perm(k, s)` returns `false` exactly when the consumer declines one of its orderings, having delivered the prefix of the run of `perm(k, s)` up to that point; the slice is left as the run's final state or as the last delivery |
| Perm.HeapPermLoop | perm.go:35-45 | the loop of `perm(k, s)` completes the same delivered prefix, answer and slice state |
| Perm.SwapAndPerm | perm.go:36-43 | one loop iteration, the parity-dependent swap and then `perm(k - 1, s)`, delivers the prefix of the run of `perm(k - 1, ·)` on the swapped slice |
| Perm.PermRec | perm.go:15-49 | permRec delivers the prefix of its run that the consumer takes, with the same final state |
| Perm.Perm | perm.go:8-13 | Perm delivers what permIter delivers |
| It.ZipPairs | it.go:17-25 | the pairs Zip offers: as many as the shorter input, pair `k` being `(xs[k], ys[k])` |
| It.PullSource.constructor | it.go:15 | a fresh pull source is at the start of its items and has not been released |
| It.PullSource.Next | it.go:18 | `next` yields the following item and advances, or nothing once the items are exhausted or the source is released |
| It.PullSource.Stop | it.go:16 | `stop` records one more release |
| It.Zip | it.go:13-27 | Zip delivers the prefix of the pairs that the consumer takes; it pulls from `xs` exactly as many items as it delivers, and releases the pull source exactly once |
| It.FlattenAppend | it.go:39-45 | flattening distributes over joining the outer sequence |
| It.FlattenSnoc | it.go:39 | flattening one more inner sequence appends it |
| It.FlattenAt | it.go:40 | element `i` of inner sequence `t` sits in the flattening right after the earlier inner sequences and its own first `i` elements |
| It.Concat | it.go:37-47 | Concat delivers the prefix of the flattened sequences that the consumer takes; when the consumer declines, the last delivery lies in the last inner sequence started, so no later inner sequence is started; otherwise all are |
| It.Chain | it.go:32-34 | Chain delivers what Concat over its argument list delivers, and nothing for no arguments |
| It.RepeatAt | it_test.go:69 | copy `q` of `s` repeated `n` times holds `s` at its positions |
| It.ChainCopies | it_test.go:59-69 | chaining `n` copies of `s` gives `s` repeated `n` times, and no arguments give nothing |
| Fold.FoldSnoc | fold.go:9-11 | folding one more element at the end applies the combining function once more to that element and the previous accumulator |
| Fold.Fold | fold.go:7-13 | Fold returns the left fold of its elements from `z`; an empty sequence returns `z` |
| Fold.FoldSnocAppends | fold_test.go:12-14 | folding with append from `acc` gives `acc` followed by the sequence |
| Fold.FoldCollects | fold_test.go:10-18 | folding with append from the empty slice gives back the input |
| Fold.All | fold.go:17-29 | All is true exactly when every element is true, true for an empty sequence; it stops after the first false element and consumes nothing after it |
| Fold.FoldAndAll | fold.go:18-21 | the conjunction fold from `acc` is `acc` and "every element is true" |
| Fold.AllIsFold | fold.go:18-22 | All agrees with the plain `Fold(bs, true, &&)` it replaces |
| Errors.FirstError | errors.go:13-16 | the position of the first element carrying an error: every element before it carries none, and it carries one unless it is the end |
| Errors.FirstErrorAt | errors.go:13-19 | that position is the unique `i` with no error before it and an error at `i` or `i` the end |
| Errors.CollectErr | errors.go:11-20 | the values are the first components of exactly the elements before the first error, in order; the error is that first error, or none; the value paired with it is dropped; nothing after it is consumed |

## Left out

- The coroutine machinery of `iter.Pull` behind `Zip` (it.go:15) is not modelled. The first input is a sequence with a cursor (`PullSource`) and a count of releases; the goroutine hand-off is left out.
- Infinite and side-effecting producers are not modelled. Every producer is a finite sequence, and the consumer is a function of the delivery's position and value.
- Aliasing of the reused `ret` buffer across deliveries (perm.go:6-7, perm.go:56) is not modelled. Each delivery is recorded as a snapshot; a consumer that writes into the buffer it is handed is not modelled.
- For a one-element slice, `permRec` hands the consumer `data` itself rather than a copy (perm.go:21). The model records the snapshot, which is the same value.
- The distinction between a `nil` and an empty Go slice (for `CollectErr` and `Chain` with no arguments) is not modelled; both are the empty sequence.
- Benchmarks and test plumbing (`fmt.Sprint`, `sort.Ints`, go-cmp) are not modelled.
- Operators that are not part of it.go, fold.go, errors.go or perm.go are not modelled. These include Map, Filter, Take, TakeWhile, Batch, Const and Enumerate.
- Go's generic constraint `S ~[]E` is not modelled: the slice type is `array<T>` and its snapshots are `seq<T>`.
- Empty input: permIter and permRec deliver nothing for an empty slice (perm.go:17-19, perm.go:53-55), so the count is `0` there rather than `0! = 1`. The model follows the code.
- PermDistinct.IterDistinct: it does not state that the orderings are all the rearrangements of the slice, although `n!` pairwise different rearrangements are all of them. That counting step is not proved.
- Slices with repeated elements: no distinctness is claimed for these, since the code then offers some orderings more than once.
