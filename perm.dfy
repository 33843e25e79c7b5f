/** Heap's method for generating every ordering of a slice in place
    (perm.go): `permRec`, the recursive form, and `permIter`, the counter-array
    loop that `Perm` uses.  Each delivery is recorded as a snapshot of the
    buffer the consumer is handed. */
module Perm {
  import opened Lazy

  function Fact(n: nat): (r: nat)
    ensures 1 <= r
  {
    if n == 0 then 1 else n * Fact(n - 1)
  }

  /** The slice with the elements at `i` and `j` exchanged. */
  function Swap<T>(s: seq<T>, i: nat, j: nat): (r: seq<T>)
    requires i < |s| && j < |s|
    ensures |r| == |s|
  {
    s[i := s[j]][j := s[i]]
  }

  /** A swap exchanges the two elements, leaves every other position alone
      and keeps the multiset of elements. */
  lemma SwapExchanges<T>(s: seq<T>, i: nat, j: nat)
    requires i < |s| && j < |s|
    ensures var r := Swap(s, i, j);
      && r[i] == s[j] && r[j] == s[i]
      && (forall m :: 0 <= m < |s| && m != i && m != j ==> r[m] == s[m])
      && multiset(r) == multiset(s)
  {
    var r := s[i := s[j]];
    assert multiset(r) == multiset(s) - multiset{s[i]} + multiset{s[j]};
  }

  /** The orderings a generator delivers, in order, and the state it leaves
      its buffer in once it has run to the end. */
  datatype Run<T> = Run(deliveries: seq<seq<T>>, final: seq<T>)

  // ---------------------------------------------------------------------
  // permRec: the inner closure perm(k, s)

  /** What `perm(k, s)` delivers when every delivery is accepted, and the
      state it leaves `s` in. */
  function Heap<T>(k: nat, s: seq<T>): (r: Run<T>)
    requires 1 <= k <= |s|
    ensures |r.final| == |s|
    ensures r.deliveries != [] && r.deliveries[0] == s
    decreases k, 1, 0
  {
    if k == 1 then Run([s], s)
    else
      var first := Heap(k - 1, s);
      var rest := HeapLoop(k, 0, first.final);
      Run(first.deliveries + rest.deliveries, rest.final)
  }

  /** The `for i := range k - 1` loop of `perm(k, s)`, from iteration `i` on:
      one swap, then a full `perm(k - 1, s)`, per iteration. */
  function HeapLoop<T>(k: nat, i: nat, s: seq<T>): (r: Run<T>)
    requires 2 <= k <= |s| && i <= k - 1
    ensures |r.final| == |s|
    decreases k, 0, k - 1 - i
  {
    if i == k - 1 then Run([], s)
    else
      var t := HeapSwap(s, k, i);
      var inner := Heap(k - 1, t);
      var rest := HeapLoop(k, i + 1, inner.final);
      Run(inner.deliveries + rest.deliveries, rest.final)
  }

  /** The swap of iteration `i` of `perm(k, s)`: `s[i]` with `s[k-1]` when
      `k` is even, `s[0]` with `s[k-1]` when it is odd. */
  function HeapSwap<T>(s: seq<T>, k: nat, i: nat): (r: seq<T>)
    requires i < k <= |s|
    ensures |r| == |s|
  {
    Swap(s, if k % 2 == 0 then i else 0, k - 1)
  }

  /** permRec's full run: nothing for an empty slice, the slice itself for a
      single element, otherwise `perm(len(data), data)`. */
  function RecRun<T>(s: seq<T>): Run<T>
  {
    if |s| == 0 then Run([], s) else Heap(|s|, s)
  }

  // ---------------------------------------------------------------------
  // permIter: the counter loop

  /** The states the loop of permIter reaches: `n` counters with
      `0 <= c[j] <= j`, scan position `i <= n`, and every counter below `i`
      reset to zero. */
  predicate Counters(c: seq<int>, i: nat, n: nat)
  {
    && |c| == n && i <= n
    && (forall j :: 0 <= j < n ==> 0 <= c[j] <= j)
    && (forall j :: 0 <= j < i ==> c[j] == 0)
  }

  /** The counters from position `i` up, read as a number in the factorial
      base: digit `j` is worth `j!`. */
  function DigitSum(c: seq<int>, i: nat): int
    requires i <= |c|
    decreases |c| - i
  {
    if i == |c| then 0 else c[i] * Fact(i) + DigitSum(c, i + 1)
  }

  /** How far the loop has progressed: the number of swaps performed so far.
      Scanning past a full counter leaves it unchanged; every swap adds one. */
  function Weight(c: seq<int>, i: nat): int
    requires i <= |c|
  {
    DigitSum(c, i) + Fact(i) - 1
  }

  lemma {:induction false} DigitSumFrame(c: seq<int>, d: seq<int>, i: nat)
    requires i <= |c| == |d|
    requires forall j :: i <= j < |c| ==> c[j] == d[j]
    ensures DigitSum(c, i) == DigitSum(d, i)
    decreases |c| - i
  {
    if i < |c| {
      DigitSumFrame(c, d, i + 1);
    }
  }

  lemma {:induction false} DigitSumZeros(c: seq<int>, a: nat, b: nat)
    requires a <= b <= |c|
    requires forall j :: a <= j < b ==> c[j] == 0
    ensures DigitSum(c, a) == DigitSum(c, b)
    decreases b - a
  {
    if a < b {
      DigitSumZeros(c, a + 1, b);
    }
  }

  /** The counters never stand for more than `n! - 1` swaps. */
  lemma {:induction false} DigitSumBound(c: seq<int>, i: nat)
    requires i <= |c|
    requires forall j :: i <= j < |c| ==> 0 <= c[j] <= j
    ensures 0 <= DigitSum(c, i) <= Fact(|c|) - Fact(i)
    decreases |c| - i
  {
    if i < |c| {
      DigitSumBound(c, i + 1);
      assert 0 <= c[i] * Fact(i) <= i * Fact(i) by {
        MulMono(c[i], i, Fact(i));
      }
      assert Fact(i + 1) == (i + 1) * Fact(i) == i * Fact(i) + Fact(i);
    }
  }

  lemma MulMono(a: int, b: int, f: nat)
    requires 0 <= a <= b
    ensures 0 <= a * f <= b * f
  {
  }

  lemma WeightBound(c: seq<int>, i: nat, n: nat)
    requires Counters(c, i, n)
    ensures 0 <= Weight(c, i) <= Fact(n) - 1
  {
    DigitSumBound(c, i);
  }

  /** A swap at position `i` moves the loop one step on. */
  lemma WeightSwap(c: seq<int>, i: nat, n: nat)
    requires Counters(c, i, n) && i < n && c[i] < i
    ensures Counters(c[i := c[i] + 1], 1, n)
    ensures Weight(c[i := c[i] + 1], 1) == Weight(c, i) + 1
  {
    var d := c[i := c[i] + 1];
    DigitSumZeros(d, 1, i);
    DigitSumFrame(c, d, i + 1);
    assert DigitSum(d, i) == d[i] * Fact(i) + DigitSum(d, i + 1);
    assert d[i] == c[i] + 1;
    MulSucc(c[i], Fact(i));
  }

  /** Passing a full counter resets it and leaves the progress unchanged. */
  lemma WeightReset(c: seq<int>, i: nat, n: nat)
    requires Counters(c, i, n) && i < n && c[i] >= i
    ensures Counters(c[i := 0], i + 1, n)
    ensures Weight(c[i := 0], i + 1) == Weight(c, i)
  {
    var d := c[i := 0];
    DigitSumFrame(c, d, i + 1);
    assert c[i] == i;
    assert Fact(i + 1) == i * Fact(i) + Fact(i);
  }

  /** The swap permIter makes at scan position `i`: `s[0]` with `s[i]` when
      `i` is even, `s[c[i]]` with `s[i]` when it is odd. */
  function IterSwap<T>(s: seq<T>, c: seq<int>, i: nat): (r: seq<T>)
    requires i < |s| == |c| && 0 <= c[i] < |s|
    ensures |r| == |s|
  {
    Swap(s, if i % 2 == 0 then 0 else c[i], i)
  }

  /** What the loop of permIter delivers from the state (`s`, `c`, `i`) on,
      when every delivery is accepted, and the state it leaves `s` in. */
  function IterFrom<T>(s: seq<T>, c: seq<int>, i: nat): (r: Run<T>)
    requires Counters(c, i, |s|)
    ensures |r.final| == |s|
    decreases Fact(|s|) - 1 - Weight(c, i), |s| - i
  {
    if i == |s| then Run([], s)
    else if c[i] < i then
      WeightSwap(c, i, |s|);
      WeightBound(c[i := c[i] + 1], 1, |s|);
      var t := IterSwap(s, c, i);
      var rest := IterFrom(t, c[i := c[i] + 1], 1);
      Run([t] + rest.deliveries, rest.final)
    else
      WeightReset(c, i, |s|);
      WeightBound(c, i, |s|);
      IterFrom(s, c[i := 0], i + 1)
  }

  /** `n` counters, all zero. */
  function Zeros(n: nat): (r: seq<int>)
    ensures |r| == n && forall j :: 0 <= j < n ==> r[j] == 0
  {
    seq(n, _ => 0)
  }

  /** permIter's full run: nothing for an empty slice; otherwise the slice as
      given, then everything the loop delivers from fresh counters. */
  function IterRun<T>(s: seq<T>): Run<T>
  {
    if |s| == 0 then Run([], s)
    else
      var rest := IterFrom(s, Zeros(|s|), 0);
      Run([s] + rest.deliveries, rest.final)
  }

  // ---------------------------------------------------------------------
  // The two forms agree

  /** Started just after a delivery with every counter below `k` at zero,
      the loop of permIter delivers exactly what `perm(k, s)` still delivers
      after its first delivery, and then arrives at scan position `k` with
      the buffer as `perm(k, s)` leaves it and the counters unchanged. */
  lemma {:induction false} IterSim<T>(k: nat, s: seq<T>, c: seq<int>)
    requires 1 <= k <= |s| && Counters(c, k, |s|)
    ensures var h := Heap(k, s);
      && IterFrom(s, c, 1).deliveries == h.deliveries[1..] + IterFrom(h.final, c, k).deliveries
      && IterFrom(s, c, 1).final == IterFrom(h.final, c, k).final
    decreases k, 0, 0
  {
    if k > 1 {
      CountersWeaken(c, k, 1, |s|);
      CountersWeaken(c, k, k - 1, |s|);
      var first := Heap(k - 1, s);
      var loop := HeapLoop(k, 0, first.final);
      var h := Heap(k, s);
      assert h.deliveries == first.deliveries + loop.deliveries && h.final == loop.final;
      IterSim(k - 1, s, c);
      assert c[k - 1 := 0] == c;
      IterSimLoop(k - 1, 0, first.final, c, c);
      SpliceSim(IterFrom(s, c, 1), first, IterFrom(first.final, c, k - 1), loop, h,
        IterFrom(h.final, c, k));
    }
  }

  /** The bookkeeping of IterSim: after the first delivery of `first`
      (`perm(k - 1, s)`) the loop reaches `mid`, which delivers the loop
      iterations `loop` of `perm(k, s)` before `tail`. */
  lemma SpliceSim<T>(x: Run<T>, first: Run<T>, mid: Run<T>, loop: Run<T>, h: Run<T>, tail: Run<T>)
    requires first.deliveries != []
    requires x.deliveries == first.deliveries[1..] + mid.deliveries && x.final == mid.final
    requires mid.deliveries == loop.deliveries + tail.deliveries && mid.final == tail.final
    requires h.deliveries == first.deliveries + loop.deliveries
    ensures x.deliveries == h.deliveries[1..] + tail.deliveries && x.final == tail.final
  {
    calc {
      x.deliveries;
      first.deliveries[1..] + (loop.deliveries + tail.deliveries);
      { AppendAssoc(first.deliveries[1..], loop.deliveries, tail.deliveries); }
      (first.deliveries[1..] + loop.deliveries) + tail.deliveries;
      { DropFirstAppend(first.deliveries, loop.deliveries); }
      h.deliveries[1..] + tail.deliveries;
    }
  }

  /** At scan position `k` with counter `c[k] = j`, the loop of permIter
      delivers what the remaining iterations `j..k-1` of the `for` loop of
      `perm(k + 1, s)` deliver, and then moves past position `k` with that
      counter reset. */
  lemma {:induction false} IterSimLoop<T>(k: nat, j: nat, s: seq<T>, c: seq<int>, e: seq<int>)
    requires 1 <= k < |s| && Counters(c, k, |s|) && c[k] == j && e == c[k := 0]
    ensures var h := HeapLoop(k + 1, j, s);
      && IterFrom(s, c, k).deliveries == h.deliveries + IterFrom(h.final, e, k + 1).deliveries
      && IterFrom(s, c, k).final == IterFrom(h.final, e, k + 1).final
    decreases k, 1, k - j
  {
    if j == k {
      assert IterFrom(s, c, k) == IterFrom(s, e, k + 1);
    } else {
      var t := IterSwap(s, c, k);
      var d := c[k := j + 1];
      var inner := Heap(k, t);
      var rest := HeapLoop(k + 1, j + 1, inner.final);
      var h := HeapLoop(k + 1, j, s);
      HeapLoopSwap(s, c, k);
      IterStepSwap(s, c, k, d);
      CountersBump(c, k, |s|, d);
      assert d[k := 0] == e;
      IterSimLoop(k, j + 1, inner.final, d, e);
      IterSim(k, t, d);
      var tail := IterFrom(rest.final, e, k + 1);
      assert IterFrom(h.final, e, k + 1) == tail;
      SpliceRuns(IterFrom(s, c, k), t, IterFrom(t, d, 1), inner, IterFrom(inner.final, d, k),
        rest, h, tail);
    }
  }

  /** The bookkeeping of IterSimLoop: the swap `t` is delivered, then the rest
      of `perm(k, t)` (`inner`), taking the loop to `mid`, which delivers the
      remaining iterations `rest` of the enclosing loop before `tail`. */
  lemma SpliceRuns<T>(x: Run<T>, t: seq<T>, step: Run<T>, inner: Run<T>, mid: Run<T>,
                      rest: Run<T>, h: Run<T>, tail: Run<T>)
    requires x.deliveries == [t] + step.deliveries && x.final == step.final
    requires inner.deliveries != [] && inner.deliveries[0] == t
    requires step.deliveries == inner.deliveries[1..] + mid.deliveries && step.final == mid.final
    requires mid.deliveries == rest.deliveries + tail.deliveries && mid.final == tail.final
    requires h.deliveries == inner.deliveries + rest.deliveries
    ensures x.deliveries == h.deliveries + tail.deliveries && x.final == tail.final
  {
    calc {
      x.deliveries;
      [t] + (inner.deliveries[1..] + (rest.deliveries + tail.deliveries));
      { assert [t] + inner.deliveries[1..] == inner.deliveries; }
      inner.deliveries + rest.deliveries + tail.deliveries;
    }
  }

  lemma AppendAssoc<U>(a: seq<U>, b: seq<U>, c: seq<U>)
    ensures a + (b + c) == (a + b) + c
  {
  }

  lemma DropFirstAppend<U>(a: seq<U>, b: seq<U>)
    requires a != []
    ensures (a + b)[1..] == a[1..] + b
  {
  }

  lemma CountersWeaken(c: seq<int>, k: nat, j: nat, n: nat)
    requires Counters(c, k, n) && j <= k
    ensures Counters(c, j, n) && (j < k ==> c[j] == 0)
  {
  }

  lemma CountersBump(c: seq<int>, k: nat, n: nat, d: seq<int>)
    requires Counters(c, k, n) && k < n && c[k] < k && d == c[k := c[k] + 1]
    ensures Counters(d, k, n)
  {
  }

  /** One swap of the loop at scan position `k`. */
  lemma IterStepSwap<T>(s: seq<T>, c: seq<int>, k: nat, d: seq<int>)
    requires Counters(c, k, |s|) && k < |s| && c[k] < k && d == c[k := c[k] + 1]
    ensures Counters(d, 1, |s|)
    ensures var t := IterSwap(s, c, k);
      && IterFrom(s, c, k).deliveries == [t] + IterFrom(t, d, 1).deliveries
      && IterFrom(s, c, k).final == IterFrom(t, d, 1).final
  {
    WeightSwap(c, k, |s|);
  }

  /** Scanning past a full counter at position `k`. */
  lemma IterStepReset<T>(s: seq<T>, c: seq<int>, k: nat)
    requires Counters(c, k, |s|) && k < |s| && k <= c[k]
    ensures Counters(c[k := 0], k + 1, |s|)
    ensures IterFrom(s, c, k) == IterFrom(s, c[k := 0], k + 1)
  {
    WeightReset(c, k, |s|);
  }

  /** Iteration `c[k]` of the loop of `perm(k + 1, s)`, unfolded: the swap
      permIter makes at scan position `k`, then `perm(k, ·)`, then the
      remaining iterations. */
  lemma HeapLoopSwap<T>(s: seq<T>, c: seq<int>, k: nat)
    requires 1 <= k < |s| == |c| && 0 <= c[k] < k
    ensures var t := IterSwap(s, c, k);
      var inner := Heap(k, t);
      var rest := HeapLoop(k + 1, c[k] + 1, inner.final);
      && HeapLoop(k + 1, c[k], s).deliveries == inner.deliveries + rest.deliveries
      && HeapLoop(k + 1, c[k], s).final == rest.final
  {
    SwapsAgree(s, c, k);
  }

  /** Scan position `k` of permIter is iteration `c[k]` of the loop of
      `perm(k + 1, s)`: both make the same swap. */
  lemma SwapsAgree<T>(s: seq<T>, c: seq<int>, k: nat)
    requires k < |s| == |c| && 0 <= c[k] < k
    ensures IterSwap(s, c, k) == HeapSwap(s, k + 1, c[k])
  {
    assert (k + 1) % 2 == 0 <==> k % 2 != 0;
  }

  /** permIter and permRec deliver the same orderings in the same order and
      leave the slice in the same state. */
  lemma IterIsRec<T>(s: seq<T>)
    ensures IterRun(s) == RecRun(s)
  {
    if |s| > 0 {
      var zeros := Zeros(|s|);
      assert zeros[0 := 0] == zeros;
      IterSim(|s|, s, zeros);
      assert [s] + Heap(|s|, s).deliveries[1..] == Heap(|s|, s).deliveries;
    }
  }

  // ---------------------------------------------------------------------
  // What the deliveries are

  /** `d` rearranges `s`, leaving every position from `k` on in place. */
  ghost predicate Keeps<T>(d: seq<T>, s: seq<T>, k: nat)
  {
    && |d| == |s| && k <= |s| && multiset(d) == multiset(s)
    && forall m {:trigger d[m]} :: k <= m < |s| ==> d[m] == s[m]
  }

  lemma KeepsTrans<T>(a: seq<T>, b: seq<T>, c: seq<T>, k: nat)
    requires Keeps(a, b, k) && Keeps(b, c, k)
    ensures Keeps(a, c, k)
  {
  }

  lemma KeepsWiden<T>(d: seq<T>, s: seq<T>, k: nat)
    requires 1 <= k && Keeps(d, s, k - 1) && k <= |s|
    ensures Keeps(d, s, k)
  {
  }

  lemma SwapKeeps<T>(s: seq<T>, a: nat, b: nat, k: nat)
    requires a < k && b < k <= |s|
    ensures Keeps(Swap(s, a, b), s, k)
  {
    SwapExchanges(s, a, b);
  }

  lemma HeapSwapKeeps<T>(s: seq<T>, k: nat, i: nat)
    requires i < k - 1 && k <= |s|
    ensures Keeps(HeapSwap(s, k, i), s, k)
  {
    var a := if k % 2 == 0 then i else 0;
    assert HeapSwap(s, k, i) == Swap(s, a, k - 1);
    SwapKeeps(s, a, k - 1, k);
  }

  lemma FactStep(k: nat)
    requires 1 <= k
    ensures Fact(k) == Fact(k - 1) + (k - 1) * Fact(k - 1)
  {
  }

  lemma MulSucc(a: nat, b: nat)
    ensures (a + 1) * b == b + a * b
  {
  }

  /** Every delivery in `ds` rearranges `s` within its first `k` positions. */
  ghost predicate AllKeep<T>(ds: seq<seq<T>>, s: seq<T>, k: nat)
  {
    forall d | d in ds :: Keeps(d, s, k)
  }

  /** The bookkeeping of the rearrangement lemmas: a swap within the first
      `k` positions taking `s` to `t`, a run `ds` from `t` to `u` that moves
      only the first `k - 1`, then a run `es` from `u` to `v` that moves only
      the first `k`. */
  lemma KeepsSplice<T>(s: seq<T>, t: seq<T>, ds: seq<seq<T>>, u: seq<T>, es: seq<seq<T>>, v: seq<T>, k: nat,
                       r: Run<T>)
    requires 1 <= k && Keeps(t, s, k)
    requires AllKeep(ds, t, k - 1) && Keeps(u, t, k - 1)
    requires AllKeep(es, u, k) && Keeps(v, u, k)
    requires r.deliveries == ds + es && r.final == v
    ensures AllKeep(r.deliveries, s, k) && Keeps(r.final, s, k)
  {
    KeepsWiden(u, t, k);
    KeepsTrans(u, t, s, k);
    forall d | d in ds ensures Keeps(d, s, k) {
      KeepsWiden(d, t, k);
      KeepsTrans(d, t, s, k);
    }
    forall d | d in es ensures Keeps(d, s, k) {
      KeepsTrans(d, u, s, k);
    }
    KeepsTrans(v, u, s, k);
  }

  /** `perm(k, s)` delivers `k!` orderings. */
  lemma {:induction false} HeapCount<T>(k: nat, s: seq<T>)
    requires 1 <= k <= |s|
    ensures |Heap(k, s).deliveries| == Fact(k)
    decreases k, 1, 0
  {
    if k > 1 {
      var first := Heap(k - 1, s);
      var loop := HeapLoop(k, 0, first.final);
      assert Heap(k, s).deliveries == first.deliveries + loop.deliveries;
      HeapCount(k - 1, s);
      HeapLoopCount(k, 0, first.final);
      FactStep(k);
    }
  }

  /** Iterations `i..k-2` of the loop of `perm(k, s)` deliver
      `(k - 1 - i) * (k - 1)!` orderings. */
  lemma {:induction false} HeapLoopCount<T>(k: nat, i: nat, s: seq<T>)
    requires 2 <= k <= |s| && i <= k - 1
    ensures |HeapLoop(k, i, s).deliveries| == (k - 1 - i) * Fact(k - 1)
    decreases k, 0, k - 1 - i
  {
    if i < k - 1 {
      var t := HeapSwap(s, k, i);
      var inner := Heap(k - 1, t);
      var rest := HeapLoop(k, i + 1, inner.final);
      assert HeapLoop(k, i, s).deliveries == inner.deliveries + rest.deliveries;
      HeapCount(k - 1, t);
      HeapLoopCount(k, i + 1, inner.final);
      var m := k - 1 - i;
      assert k - 1 - (i + 1) == m - 1;
      MulSucc(m - 1, Fact(k - 1));
    }
  }

  /** Every ordering `perm(k, s)` delivers rearranges `s` and moves only its
      first `k` positions; so does the state it leaves `s` in. */
  lemma {:induction false} HeapRearranges<T>(k: nat, s: seq<T>)
    requires 1 <= k <= |s|
    ensures AllKeep(Heap(k, s).deliveries, s, k) && Keeps(Heap(k, s).final, s, k)
    decreases k, 1, 0
  {
    if k > 1 {
      var first := Heap(k - 1, s);
      var loop := HeapLoop(k, 0, first.final);
      var r := Heap(k, s);
      assert r.deliveries == first.deliveries + loop.deliveries && r.final == loop.final;
      HeapRearranges(k - 1, s);
      HeapLoopRearranges(k, 0, first.final);
      assert Keeps(s, s, k);
      KeepsSplice(s, s, first.deliveries, first.final, loop.deliveries, loop.final, k, r);
    }
  }

  /** The same for iterations `i..k-2` of the loop of `perm(k, s)`. */
  lemma {:induction false} HeapLoopRearranges<T>(k: nat, i: nat, s: seq<T>)
    requires 2 <= k <= |s| && i <= k - 1
    ensures AllKeep(HeapLoop(k, i, s).deliveries, s, k) && Keeps(HeapLoop(k, i, s).final, s, k)
    decreases k, 0, k - 1 - i
  {
    if i < k - 1 {
      var t := HeapSwap(s, k, i);
      var inner := Heap(k - 1, t);
      var rest := HeapLoop(k, i + 1, inner.final);
      var r := HeapLoop(k, i, s);
      assert r.deliveries == inner.deliveries + rest.deliveries && r.final == rest.final;
      HeapRearranges(k - 1, t);
      HeapLoopRearranges(k, i + 1, inner.final);
      HeapSwapKeeps(s, k, i);
      KeepsSplice(s, t, inner.deliveries, inner.final, rest.deliveries, rest.final, k, r);
    }
  }

  /** permRec offers nothing for an empty slice and otherwise `n!`
      orderings of it, the first being the slice as given, each one a
      rearrangement of the slice, which it also leaves rearranged. */
  lemma RecDeliveries<T>(s: seq<T>)
    ensures var r := RecRun(s);
      && |r.deliveries| == (if |s| == 0 then 0 else Fact(|s|))
      && (|s| > 0 ==> r.deliveries[0] == s)
      && (forall d | d in r.deliveries :: |d| == |s| && multiset(d) == multiset(s))
      && |r.final| == |s| && multiset(r.final) == multiset(s)
  {
    if |s| > 0 {
      HeapCount(|s|, s);
      HeapRearranges(|s|, s);
    }
  }

  /** permIter, which Perm uses, offers the same: nothing for an empty slice,
      otherwise `n!` rearrangements starting with the slice itself. */
  lemma IterDeliveries<T>(s: seq<T>)
    ensures var r := IterRun(s);
      && |r.deliveries| == (if |s| == 0 then 0 else Fact(|s|))
      && (|s| > 0 ==> r.deliveries[0] == s)
      && (forall d | d in r.deliveries :: |d| == |s| && multiset(d) == multiset(s))
      && |r.final| == |s| && multiset(r.final) == multiset(s)
  {
    IterIsRec(s);
    RecDeliveries(s);
  }

  /** A single-element slice is offered once, as itself. */
  lemma RecSingle<T>(x: T)
    ensures RecRun([x]) == Run([[x]], [x])
  {
  }

  /** `perm(2, s)` offers `s` and then `s` with its first two elements
      exchanged. */
  lemma HeapTwo<T>(s: seq<T>)
    requires 2 <= |s|
    ensures Heap(2, s) == Run([s, Swap(s, 0, 1)], Swap(s, 0, 1))
  {
    assert HeapLoop(2, 1, Swap(s, 0, 1)) == Run([], Swap(s, 0, 1));
  }

  /** The orderings Perm offers for `[1, 2, 3]`, in order. */
  lemma PermOneTwoThree()
    ensures IterRun([1, 2, 3]).deliveries == [[1, 2, 3], [2, 1, 3], [3, 1, 2], [1, 3, 2], [2, 3, 1], [3, 2, 1]]
  {
    var s := [1, 2, 3];
    IterIsRec(s);
    assert Swap(s, 0, 1) == [2, 1, 3];
    HeapTwo(s);
    assert HeapSwap([2, 1, 3], 3, 0) == [3, 1, 2];
    assert Swap([3, 1, 2], 0, 1) == [1, 3, 2];
    HeapTwo([3, 1, 2]);
    assert HeapSwap([1, 3, 2], 3, 1) == [2, 3, 1];
    assert Swap([2, 3, 1], 0, 1) == [3, 2, 1];
    HeapTwo([2, 3, 1]);
    assert HeapLoop(3, 2, [3, 2, 1]) == Run([], [3, 2, 1]);
    assert HeapLoop(3, 1, [1, 3, 2]) == Run([[2, 3, 1], [3, 2, 1]], [3, 2, 1]);
    assert HeapLoop(3, 0, [2, 1, 3]) == Run([[3, 1, 2], [1, 3, 2], [2, 3, 1], [3, 2, 1]], [3, 2, 1]);
  }

  // ---------------------------------------------------------------------
  // The generators over a slice

  /** `copy(ret, data)`: the buffer the consumer is handed becomes a copy of
      the slice being permuted. */
  method CopyInto<T>(ret: array<T>, data: array<T>)
    requires ret != data && ret.Length == data.Length
    modifies ret
    ensures ret[..] == data[..]
  {
    forall j | 0 <= j < ret.Length {
      ret[j] := data[j];
    }
  }

  /** `yieldCopy`: copy the slice into the buffer and hand the buffer to
      the consumer as its `index`-th delivery. */
  method YieldCopy<T>(data: array<T>, ret: array<T>, consumer: (nat, seq<T>) -> bool, index: nat)
    returns (more: bool, view: seq<T>)
    requires ret != data && ret.Length == data.Length
    modifies ret
    ensures view == data[..] == old(data[..]) && ret[..] == view
    ensures more == consumer(index, view)
  {
    CopyInto(ret, data);
    view := ret[..];
    more := consumer(index, view);
  }

  /** Exchanges `data[a]` and `data[b]` in place. */
  method SwapInPlace<T>(data: array<T>, a: nat, b: nat)
    requires a < data.Length && b < data.Length
    modifies data
    ensures data[..] == Swap(old(data[..]), a, b)
  {
    data[a], data[b] := data[b], data[a];
  }

  /** `permIter(data)` run against `consumer`.  It returns the orderings the
      consumer was handed.  They are what the counter loop offers up to and
      including the first one declined.  After a decline `data` is left as
      that last delivery; otherwise it is left as the loop's final state. */
  method PermIter<T(0)>(data: array<T>, consumer: (nat, seq<T>) -> bool) returns (delivered: seq<seq<T>>)
    modifies data
    ensures var full := IterRun(old(data[..]));
      && delivered == Accepted(full.deliveries, consumer, 0)
      && data[..] == (if AllAccepted(full.deliveries, consumer, 0) then full.final
                      else delivered[|delivered| - 1])
  {
    ghost var s0 := data[..];
    ghost var full := IterRun(s0);
    var n := data.Length;
    if n == 0 {
      return [];
    }
    var ret := new T[n];
    var c := new int[n];
    for j := 0 to n
      invariant forall m :: 0 <= m < j ==> c[m] == 0
      invariant data[..] == s0
    {
      c[j] := 0;
    }
    ghost var zeros := Zeros(n);
    assert c[..] == zeros;
    assert full == Run([s0] + IterFrom(s0, zeros, 0).deliveries, IterFrom(s0, zeros, 0).final);
    var more, view := YieldCopy(data, ret, consumer, 0);
    delivered := [view];
    if !more {
      AcceptedStops([], view, full.deliveries[1..], consumer, 0);
      assert [view] + full.deliveries[1..] == full.deliveries;
      return;
    }
    assert ScanAt(data[..], c[..], 0, delivered, full);
    delivered := CounterLoop(data, ret, c, consumer, full, delivered);
  }

  /** The `for i := 0; i < len(data);` loop of permIter, entered with the
      counters `c` all zero after the consumer has accepted the `prefix`
      deliveries; `full` is everything permIter offers when nothing is
      declined. */
  method CounterLoop<T>(data: array<T>, ret: array<T>, c: array<int>, consumer: (nat, seq<T>) -> bool,
                        ghost full: Run<T>, prefix: seq<seq<T>>) returns (delivered: seq<seq<T>>)
    requires ret != data && ret.Length == data.Length == c.Length && c as object != data && c as object != ret
    requires AllAccepted(prefix, consumer, 0) && ScanAt(data[..], c[..], 0, prefix, full)
    modifies data, ret, c
    ensures delivered == Accepted(full.deliveries, consumer, 0)
    ensures data[..] == (if AllAccepted(full.deliveries, consumer, 0) then full.final
                         else delivered[|delivered| - 1])
  {
    var n := data.Length;
    delivered := prefix;
    var count := |prefix|;
    var i := 0;
    while i < n
      invariant ret != data && ret.Length == n == data.Length == c.Length && c as object != data && c as object != ret
      invariant count == |delivered| && AllAccepted(delivered, consumer, 0)
      invariant ScanAt(data[..], c[..], i, delivered, full)
      decreases Fact(n) - 1 - Weight(c[..], i), n - i
    {
      ghost var s, cs := data[..], c[..];
      if c[i] < i {
        WeightSwap(cs, i, n);
        WeightBound(cs[i := cs[i] + 1], 1, n);
        ScanSwapNext(s, cs, i, delivered, full);
        ghost var rest := IterFrom(IterSwap(s, cs, i), cs[i := cs[i] + 1], 1).deliveries;
        SwapAt(data, c, i);
        var more, view := YieldCopy(data, ret, consumer, count);
        OfferNext(delivered, view, rest, full.deliveries, consumer, 0);
        delivered := delivered + [view];
        if !more {
          return;
        }
        count := count + 1;
        c[i] := c[i] + 1;
        assert c[..] == cs[i := cs[i] + 1];
        i := 1;
      } else {
        WeightReset(cs, i, n);
        WeightBound(cs, i, n);
        ScanReset(s, cs, i, delivered, full);
        c[i] := 0;
        assert c[..] == cs[i := 0];
        i := i + 1;
      }
    }
    ScanDone(data[..], c[..], delivered, full);
    AcceptedPrefix(full.deliveries, consumer, 0);
  }

  /** The swap permIter makes at scan position `i`: `data[0]` with `data[i]`
      for even `i`, `data[c[i]]` with `data[i]` for odd `i`. */
  method SwapAt<T>(data: array<T>, c: array<int>, i: nat)
    requires i < data.Length == c.Length && c as object != data && 0 <= c[i] < data.Length
    modifies data
    ensures data[..] == IterSwap(old(data[..]), c[..], i)
  {
    if i % 2 == 0 {
      SwapInPlace(data, 0, i);
    } else {
      SwapInPlace(data, c[i], i);
    }
  }

  /** The state of permIter's loop at scan position `i`: the deliveries `p`
      so far, followed by what the loop offers from slice `s` and counters
      `c` on, make up `full`. */
  ghost predicate ScanAt<T>(s: seq<T>, c: seq<int>, i: nat, p: seq<seq<T>>, full: Run<T>)
  {
    Counters(c, i, |s|)
    && p + IterFrom(s, c, i).deliveries == full.deliveries
    && IterFrom(s, c, i).final == full.final
  }

  /** The swap at scan position `i` delivers the swapped slice and continues
      the scan from position 1 with `c[i]` bumped. */
  lemma ScanSwapNext<T>(s: seq<T>, c: seq<int>, i: nat, p: seq<seq<T>>, full: Run<T>)
    requires ScanAt(s, c, i, p, full) && i < |s| && c[i] < i
    ensures var t, d := IterSwap(s, c, i), c[i := c[i] + 1];
      && Counters(d, 1, |t|)
      && p + [t] + IterFrom(t, d, 1).deliveries == full.deliveries
      && ScanAt(t, d, 1, p + [t], full)
  {
    var t, d := IterSwap(s, c, i), c[i := c[i] + 1];
    IterStepSwap(s, c, i, d);
    AppendAssoc(p, [t], IterFrom(t, d, 1).deliveries);
  }

  /** Scanning past a full counter keeps the loop state. */
  lemma ScanReset<T>(s: seq<T>, c: seq<int>, i: nat, p: seq<seq<T>>, full: Run<T>)
    requires ScanAt(s, c, i, p, full) && i < |s| && i <= c[i]
    ensures ScanAt(s, c[i := 0], i + 1, p, full)
  {
    IterStepReset(s, c, i);
  }

  /** When the scan runs off the end, everything has been delivered. */
  lemma ScanDone<T>(s: seq<T>, c: seq<int>, p: seq<seq<T>>, full: Run<T>)
    requires ScanAt(s, c, |s|, p, full)
    ensures p == full.deliveries && s == full.final
  {
    assert p + [] == p;
  }

  /** `perm(k, s)` of permRec run against `consumer`, whose earlier answers
      numbered `0..start-1`.  It returns `false` as soon as the consumer
      declines, and the orderings the consumer was handed. */
  method HeapPerm<T>(k: nat, s: array<T>, ret: array<T>, consumer: (nat, seq<T>) -> bool, start: nat)
    returns (more: bool, delivered: seq<seq<T>>)
    requires ret != s && ret.Length == s.Length && 1 <= k <= s.Length
    modifies s, ret
    ensures var r := Heap(k, old(s[..]));
      && delivered == Accepted(r.deliveries, consumer, start)
      && (more <==> AllAccepted(r.deliveries, consumer, start))
      && s[..] == (if more then r.final else delivered[|delivered| - 1])
    decreases k, 2
  {
    ghost var s0 := s[..];
    if k == 1 {
      var view;
      more, view := YieldCopy(s, ret, consumer, start);
      delivered := [view];
      return;
    }
    ghost var full := Heap(k, s0);
    ghost var first := Heap(k - 1, s0);
    ghost var loop := HeapLoop(k, 0, first.final);
    assert full.deliveries == first.deliveries + loop.deliveries && full.final == loop.final;
    more, delivered := HeapPerm(k - 1, s, ret, consumer, start);
    if !more {
      SpliceDeclined([], full.deliveries, first.deliveries, loop.deliveries, full.deliveries, delivered, consumer, start);
      assert [] + delivered == delivered;
      return;
    }
    AcceptedPrefix(first.deliveries, consumer, start);
    assert LoopAt(k, 0, s[..], delivered, full);
    more, delivered := HeapPermLoop(k, s, ret, consumer, start, full, delivered);
  }

  /** The `for i := range k - 1` loop of `perm(k, s)`, entered after the
      consumer has accepted the `prefix` deliveries; `full` is everything
      `perm(k, ·)` offers when nothing is declined. */
  method HeapPermLoop<T>(k: nat, s: array<T>, ret: array<T>, consumer: (nat, seq<T>) -> bool, start: nat,
                         ghost full: Run<T>, prefix: seq<seq<T>>)
    returns (more: bool, delivered: seq<seq<T>>)
    requires ret != s && ret.Length == s.Length && 2 <= k <= s.Length
    requires AllAccepted(prefix, consumer, start) && LoopAt(k, 0, s[..], prefix, full)
    modifies s, ret
    ensures delivered == Accepted(full.deliveries, consumer, start)
    ensures more <==> AllAccepted(full.deliveries, consumer, start)
    ensures s[..] == (if more then full.final else delivered[|delivered| - 1])
    decreases k, 1
  {
    delivered := prefix;
    for i := 0 to k - 1
      invariant ret != s && ret.Length == s.Length
      invariant AllAccepted(delivered, consumer, start) && LoopAt(k, i, s[..], delivered, full)
    {
      ghost var si := s[..];
      var m, d := SwapAndPerm(k, i, s, ret, consumer, start + |delivered|);
      if !m {
        LoopDeclined(k, i, si, delivered, d, full, consumer, start);
        delivered := delivered + d;
        more := false;
        return;
      }
      LoopAccepted(k, i, si, delivered, d, full, consumer, start);
      delivered := delivered + d;
    }
    LoopDone(k, s[..], delivered, full);
    AcceptedPrefix(full.deliveries, consumer, start);
    more := true;
  }

  /** The body of one iteration of that loop: the swap, then
      `perm(k - 1, s)`. */
  method SwapAndPerm<T>(k: nat, i: nat, s: array<T>, ret: array<T>, consumer: (nat, seq<T>) -> bool, start: nat)
    returns (more: bool, delivered: seq<seq<T>>)
    requires ret != s && ret.Length == s.Length && 2 <= k <= s.Length && i < k - 1
    modifies s, ret
    ensures var r := Heap(k - 1, HeapSwap(old(s[..]), k, i));
      && delivered == Accepted(r.deliveries, consumer, start)
      && (more <==> AllAccepted(r.deliveries, consumer, start))
      && s[..] == (if more then r.final else delivered[|delivered| - 1])
    decreases k, 0
  {
    ghost var s0 := s[..];
    if k % 2 == 0 {
      SwapInPlace(s, i, k - 1);
    } else {
      SwapInPlace(s, 0, k - 1);
    }
    assert s[..] == HeapSwap(s0, k, i);
    more, delivered := HeapPerm(k - 1, s, ret, consumer, start);
  }

  /** The state of the loop of `perm(k, ·)` before iteration `i`: the
      deliveries `p` so far, followed by what the loop offers from `s` on, make
      up `full`. */
  ghost predicate LoopAt<T>(k: nat, i: nat, s: seq<T>, p: seq<seq<T>>, full: Run<T>)
  {
    2 <= k <= |s| && i <= k - 1
    && p + HeapLoop(k, i, s).deliveries == full.deliveries
    && HeapLoop(k, i, s).final == full.final
  }

  /** Iteration `i` when the consumer accepts all of `perm(k - 1, ·)`. */
  lemma LoopAccepted<T>(k: nat, i: nat, s: seq<T>, p: seq<seq<T>>, d: seq<seq<T>>, full: Run<T>,
                        consumer: (nat, seq<T>) -> bool, start: nat)
    requires LoopAt(k, i, s, p, full) && i < k - 1 && AllAccepted(p, consumer, start)
    requires var inner := Heap(k - 1, HeapSwap(s, k, i));
      d == Accepted(inner.deliveries, consumer, start + |p|)
      && AllAccepted(inner.deliveries, consumer, start + |p|)
    ensures AllAccepted(p + d, consumer, start)
    ensures LoopAt(k, i + 1, Heap(k - 1, HeapSwap(s, k, i)).final, p + d, full)
  {
    var inner := Heap(k - 1, HeapSwap(s, k, i));
    var rest := HeapLoop(k, i + 1, inner.final);
    HeapLoopUnfold(k, i, s, HeapSwap(s, k, i));
    SpliceAccepted(p, HeapLoop(k, i, s).deliveries, inner.deliveries, rest.deliveries,
      full.deliveries, d, consumer, start);
  }

  /** Iteration `i` when the consumer declines within `perm(k - 1, ·)`. */
  lemma LoopDeclined<T>(k: nat, i: nat, s: seq<T>, p: seq<seq<T>>, d: seq<seq<T>>, full: Run<T>,
                        consumer: (nat, seq<T>) -> bool, start: nat)
    requires LoopAt(k, i, s, p, full) && i < k - 1 && AllAccepted(p, consumer, start)
    requires var inner := Heap(k - 1, HeapSwap(s, k, i));
      d == Accepted(inner.deliveries, consumer, start + |p|)
      && !AllAccepted(inner.deliveries, consumer, start + |p|)
    ensures p + d == Accepted(full.deliveries, consumer, start)
    ensures !AllAccepted(full.deliveries, consumer, start)
    ensures d != [] && (p + d)[|p + d| - 1] == d[|d| - 1]
  {
    var inner := Heap(k - 1, HeapSwap(s, k, i));
    var rest := HeapLoop(k, i + 1, inner.final);
    HeapLoopUnfold(k, i, s, HeapSwap(s, k, i));
    SpliceDeclined(p, HeapLoop(k, i, s).deliveries, inner.deliveries, rest.deliveries,
      full.deliveries, d, consumer, start);
  }

  /** After the last iteration the deliveries are all of `full`. */
  lemma LoopDone<T>(k: nat, s: seq<T>, p: seq<seq<T>>, full: Run<T>)
    requires 2 <= k && LoopAt(k, k - 1, s, p, full)
    ensures p == full.deliveries && s == full.final
  {
    assert HeapLoop(k, k - 1, s) == Run([], s);
    assert p + [] == p;
  }

  /** The bookkeeping of HeapPerm when the consumer declines within a call
      `perm(k - 1, ·)` whose offer is `a`, made after the deliveries `p`, with
      `b` still to come: what it has received is exactly what it would
      receive from the whole offer `full`. */
  lemma SpliceDeclined<U>(p: seq<U>, l: seq<U>, a: seq<U>, b: seq<U>, full: seq<U>, d: seq<U>,
                          consumer: (nat, U) -> bool, start: nat)
    requires AllAccepted(p, consumer, start) && p + l == full && l == a + b
    requires d == Accepted(a, consumer, start + |p|) && !AllAccepted(a, consumer, start + |p|)
    ensures p + d == Accepted(full, consumer, start) && !AllAccepted(full, consumer, start)
    ensures d != [] && (p + d)[|p + d| - 1] == d[|d| - 1]
  {
    DeclinedWithin(p, a, b, consumer, start);
    AcceptedPrefix(a, consumer, start + |p|);
  }

  /** The same when the consumer accepts all of `a`. */
  lemma SpliceAccepted<U>(p: seq<U>, l: seq<U>, a: seq<U>, b: seq<U>, full: seq<U>, d: seq<U>,
                          consumer: (nat, U) -> bool, start: nat)
    requires AllAccepted(p, consumer, start) && p + l == full && l == a + b
    requires d == Accepted(a, consumer, start + |p|) && AllAccepted(a, consumer, start + |p|)
    ensures AllAccepted(p + d, consumer, start) && (p + d) + b == full
  {
    AcceptedWithin(p, a, consumer, start);
  }

  /** One iteration of the loop of `perm(k, s)`, taking `s` to `t` by the
      swap. */
  lemma HeapLoopUnfold<T>(k: nat, i: nat, s: seq<T>, t: seq<T>)
    requires 2 <= k <= |s| && i < k - 1 && t == HeapSwap(s, k, i)
    ensures var inner := Heap(k - 1, t);
      && HeapLoop(k, i, s).deliveries == inner.deliveries + HeapLoop(k, i + 1, inner.final).deliveries
      && HeapLoop(k, i, s).final == HeapLoop(k, i + 1, inner.final).final
  {
  }

  /** permRec(data) run against `consumer`: nothing for an empty slice; the
      slice itself, uncopied, for a single element; otherwise
      `perm(len(data), data)`, delivering copies in a fresh buffer. */
  method PermRec<T(0)>(data: array<T>, consumer: (nat, seq<T>) -> bool) returns (delivered: seq<seq<T>>)
    modifies data
    ensures var full := RecRun(old(data[..]));
      && delivered == Accepted(full.deliveries, consumer, 0)
      && data[..] == (if AllAccepted(full.deliveries, consumer, 0) then full.final
                      else delivered[|delivered| - 1])
  {
    if data.Length == 0 {
      return [];
    } else if data.Length == 1 {
      var more := consumer(0, data[..]);
      delivered := [data[..]];
      return;
    }
    var ret := new T[data.Length];
    var more;
    more, delivered := HeapPerm(data.Length, data, ret, consumer, 0);
  }

  /** `Perm(data)`: the iterative form. */
  method Perm<T(0)>(data: array<T>, consumer: (nat, seq<T>) -> bool) returns (delivered: seq<seq<T>>)
    modifies data
    ensures var full := IterRun(old(data[..]));
      && delivered == Accepted(full.deliveries, consumer, 0)
      && data[..] == (if AllAccepted(full.deliveries, consumer, 0) then full.final
                      else delivered[|delivered| - 1])
  {
    delivered := PermIter(data, consumer);
  }
}

