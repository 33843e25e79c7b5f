/** Heap's method never offers the same ordering twice when the elements of
    the slice are pairwise different (perm.go:27-46, perm.go:70-86).

    The proof follows where each element of the slice goes.  `perm(k, s)`
    runs `k` blocks, each a full `perm(k - 1, ·)` that leaves position `k - 1`
    alone; block `i` starts from `BlockStart(k, s, i)`.  The index maps below
    say which element of `s` each position of the block starts and of the
    final state holds, and from them the element at position `k - 1` is a
    different one in every block. */
module PermDistinct {
  import opened Perm

  /** No element occurs twice in `s`. */
  ghost predicate DistinctElems<T>(s: seq<T>)
  {
    forall a, b :: 0 <= a < b < |s| ==> s[a] != s[b]
  }

  /** No ordering occurs twice in `ds`. */
  ghost predicate NoRepeats<T>(ds: seq<seq<T>>)
  {
    forall a, b :: 0 <= a < b < |ds| ==> ds[a] != ds[b]
  }

  // ---------------------------------------------------------------------
  // Index maps

  /** The position whose element a swap of `a` and `b` moves to `j`. */
  function SwapIndex(j: nat, a: nat, b: nat): nat
  {
    if j == a then b else if j == b then a else j
  }

  lemma SwapMoves<T>(s: seq<T>, a: nat, b: nat)
    requires a < |s| && b < |s|
    ensures forall j :: 0 <= j < |s| ==> Swap(s, a, b)[j] == s[SwapIndex(j, a, b)]
  {
    SwapExchanges(s, a, b);
  }

  /** The position of `s` whose element `perm(k, s)` leaves at position `j`:
      the identity for `k = 1`, the exchange of the first and the last of
      the first `k` positions for odd `k` and for `k = 2`, and for even
      `k >= 4` the arrangement
      `s[k-3], s[k-2], s[1], ..., s[k-4], s[k-1], s[0]`. */
  function FinalIndex(k: nat, j: nat): (r: nat)
    ensures j < k ==> r < k
    ensures k <= j ==> r == j
  {
    if j >= k || k == 1 then j
    else if k % 2 == 1 || k == 2 then SwapIndex(j, 0, k - 1)
    else if j == 0 then k - 3
    else if j == 1 then k - 2
    else if j <= k - 3 then j - 1
    else if j == k - 2 then k - 1
    else 0
  }

  /** For even `k >= 4`, the position of `s` whose element block `i`
      (`1 <= i <= k - 2`) of `perm(k, s)` starts with at position `j`. */
  function EvenIndex(k: nat, i: nat, j: nat): (r: nat)
    requires 4 <= k && 1 <= i <= k - 2
    ensures j < k ==> r < k
    ensures k <= j ==> r == j
  {
    if j == 0 then (if i % 2 == 0 then 0 else k - 1)
    else if j == 1 && 2 <= i then k - 2
    else if 2 <= j <= i - 1 then j - 1
    else if i <= j <= k - 3 then j
    else if j == k - 2 then (if i % 2 == 0 then k - 1 else 0)
    else if j == k - 1 then (if i == 1 then k - 2 else i - 1)
    else j
  }

  /** For odd `k >= 3`, where each position of one block start of
      `perm(k, s)` takes its element from in the previous block start: the
      final state of `perm(k - 1, ·)` followed by the odd-`k` swap. */
  function OddStep(k: nat, j: nat): (r: nat)
    requires 3 <= k
    ensures j < k ==> r < k
    ensures k <= j ==> r == j
  {
    FinalIndex(k - 1, SwapIndex(j, 0, k - 1))
  }

  /** `OddStep` applied `i` times. */
  function OddPow(k: nat, i: nat, j: nat): (r: nat)
    requires 3 <= k
    ensures j < k ==> r < k
    ensures k <= j ==> r == j
  {
    if i == 0 then j else OddStep(k, OddPow(k, i - 1, j))
  }

  /** For odd `k`, the position of `s` whose element block `i` of
      `perm(k, s)` starts with at position `k - 1`: `k - 1`, then
      `k - 4` down to `1`, then `k - 3`, `k - 2` and `0`. */
  function Orbit(k: nat, i: nat): (r: nat)
    requires 3 <= k && i <= k - 1
    ensures r < k
  {
    var m := k - 1;
    if i == 0 then m
    else if i == m then 0
    else if i == m - 1 then m - 1
    else if i == m - 2 then m - 2
    else m - 2 - i
  }

  /** The position of `s` whose element block `i` of `perm(k, s)` keeps at
      position `k - 1`. */
  function Last(k: nat, i: nat): (r: nat)
    requires 2 <= k && i <= k - 1
    ensures r < k
  {
    if k % 2 == 1 then Orbit(k, i)
    else if i == 0 then k - 1
    else if i == 1 then k - 2
    else if i == k - 1 then 0
    else i - 1
  }

  /** Every block keeps a different element of `s` at position `k - 1`. */
  lemma LastInjective(k: nat, a: nat, b: nat)
    requires 2 <= k && a <= k - 1 && b <= k - 1 && a != b
    ensures Last(k, a) != Last(k, b)
  {
  }

  lemma OrbitInvolution(k: nat, i: nat)
    requires 3 <= k && i <= k - 1
    ensures Orbit(k, Orbit(k, i)) == i
  {
  }

  lemma OrbitStep(k: nat, i: nat)
    requires 3 <= k && k % 2 == 1 && i < k - 1
    ensures OddStep(k, Orbit(k, i)) == Orbit(k, i + 1)
  {
  }

  lemma {:induction false} OddPowShift(k: nat, i: nat, j: nat)
    requires 3 <= k
    ensures OddPow(k, i, OddStep(k, j)) == OddStep(k, OddPow(k, i, j))
  {
    if i > 0 {
      OddPowShift(k, i - 1, j);
    }
  }

  lemma OddPowNext(k: nat, i: nat, j: nat)
    requires 3 <= k && 1 <= i
    ensures OddPow(k, i - 1, OddStep(k, j)) == OddPow(k, i, j)
  {
    OddPowShift(k, i - 1, j);
  }

  /** Position `k - 1` of the odd-`k` block starts runs through `Orbit`. */
  lemma {:induction false} OddOrbit(k: nat, i: nat)
    requires 3 <= k && k % 2 == 1 && i <= k - 1
    ensures OddPow(k, i, k - 1) == Orbit(k, i)
  {
    if i > 0 {
      OddOrbit(k, i - 1);
      OrbitStep(k, i - 1);
    }
  }

  /** `OddStep` is a single cycle through the first `k` positions, so `k`
      applications of it are the identity. */
  lemma OddCycle(k: nat, j: nat)
    requires 3 <= k && k % 2 == 1
    ensures OddPow(k, k, j) == j
  {
    if j < k {
      var r := Orbit(k, j);
      OrbitInvolution(k, j);
      OddOrbit(k, r);
      OddFull(k);
      CycleFrom(k, r);
    }
  }

  /** `k` steps take position `k - 1` round the cycle back to itself. */
  lemma OddFull(k: nat)
    requires 3 <= k && k % 2 == 1
    ensures OddPow(k, k, k - 1) == k - 1
  {
    OddOrbit(k, k - 1);
    assert OddPow(k, k, k - 1) == OddStep(k, OddPow(k, k - 1, k - 1));
  }

  /** Once `k` steps bring position `k - 1` back, they bring back every
      position on its cycle. */
  lemma {:induction false} CycleFrom(k: nat, r: nat)
    requires 3 <= k && OddPow(k, k, k - 1) == k - 1
    ensures OddPow(k, k, OddPow(k, r, k - 1)) == OddPow(k, r, k - 1)
  {
    if r > 0 {
      var y := OddPow(k, r - 1, k - 1);
      CycleFrom(k, r - 1);
      OddPowShift(k, k, y);
    }
  }

  lemma EvenIndexFirst(k: nat, j: nat)
    requires 4 <= k && k % 2 == 0
    ensures EvenIndex(k, 1, j) == FinalIndex(k - 1, SwapIndex(j, 0, k - 1))
  {
  }

  lemma EvenIndexStep(k: nat, i: nat, j: nat)
    requires 4 <= k && k % 2 == 0 && 1 <= i <= k - 3
    ensures EvenIndex(k, i + 1, j) == EvenIndex(k, i, FinalIndex(k - 1, SwapIndex(j, i, k - 1)))
  {
  }

  lemma EvenIndexFinal(k: nat, j: nat)
    requires 4 <= k && k % 2 == 0
    ensures FinalIndex(k, j)
      == EvenIndex(k, k - 2, FinalIndex(k - 1, SwapIndex(FinalIndex(k - 1, j), k - 2, k - 1)))
  {
  }

  // ---------------------------------------------------------------------
  // The blocks of perm(k, s)

  /** What block `i` of `perm(k, s)` starts from: `s` itself for the first
      call of `perm(k - 1, s)`, and for iteration `i - 1` of the loop the
      swap applied to the state the previous block left. */
  function BlockStart<T>(k: nat, s: seq<T>, i: nat): (r: seq<T>)
    requires 2 <= k <= |s| && i <= k - 1
    ensures |r| == |s|
  {
    if i == 0 then s else HeapSwap(Heap(k - 1, BlockStart(k, s, i - 1)).final, k, i - 1)
  }

  /** What blocks `i..k-1` of `perm(k, s)` deliver. */
  function Blocks<T>(k: nat, s: seq<T>, i: nat): seq<seq<T>>
    requires 2 <= k <= |s| && i <= k
    decreases k - i
  {
    if i == k then [] else Heap(k - 1, BlockStart(k, s, i)).deliveries + Blocks(k, s, i + 1)
  }

  /** The loop of `perm(k, s)` after block `i` runs blocks `i+1..k-1`. */
  lemma {:induction false} LoopBlocks<T>(k: nat, s: seq<T>, i: nat)
    requires 2 <= k <= |s| && i <= k - 1
    ensures HeapLoop(k, i, Heap(k - 1, BlockStart(k, s, i)).final)
      == Run(Blocks(k, s, i + 1), Heap(k - 1, BlockStart(k, s, k - 1)).final)
    decreases k - i
  {
    if i < k - 1 {
      LoopBlocks(k, s, i + 1);
    }
  }

  /** `perm(k, s)` is its `k` blocks, and leaves the state the last block
      leaves. */
  lemma HeapBlocks<T>(k: nat, s: seq<T>)
    requires 2 <= k <= |s|
    ensures Heap(k, s) == Run(Blocks(k, s, 0), Heap(k - 1, BlockStart(k, s, k - 1)).final)
  {
    LoopBlocks(k, s, 0);
  }

  /** Each block start of `perm(k, s)` has no repeated element when `s`
      has none. */
  lemma {:induction false} BlockStartDistinct<T>(k: nat, s: seq<T>, i: nat)
    requires 2 <= k <= |s| && i <= k - 1 && DistinctElems(s)
    ensures DistinctElems(BlockStart(k, s, i))
  {
    if i > 0 {
      var p := BlockStart(k, s, i - 1);
      var f := Heap(k - 1, p).final;
      var a := if k % 2 == 0 then i - 1 else 0;
      assert BlockStart(k, s, i) == Swap(f, a, k - 1);
      BlockStartDistinct(k, s, i - 1);
      HeapFinal(k - 1, p);
      DistinctStep(k, p, f, BlockStart(k, s, i), a);
    }
  }

  lemma FinalIndexInjective(k: nat, a: nat, b: nat)
    requires a != b
    ensures FinalIndex(k, a) != FinalIndex(k, b)
  {
  }

  /** The state `perm(k, p)` leaves has no repeated element when `p` has
      none. */
  lemma DistinctFinal<T>(k: nat, p: seq<T>, f: seq<T>)
    requires k <= |p| && |f| == |p| && DistinctElems(p)
    requires forall j :: 0 <= j < |p| ==> f[j] == p[FinalIndex(k, j)]
    ensures DistinctElems(f)
  {
    forall a, b | 0 <= a < b < |f|
      ensures f[a] != f[b]
    {
      FinalIndexInjective(k, a, b);
      var x, y := FinalIndex(k, a), FinalIndex(k, b);
      assert x < y || y < x;
    }
  }

  lemma DistinctSwap<T>(f: seq<T>, a: nat, b: nat)
    requires a < |f| && b < |f| && DistinctElems(f)
    ensures DistinctElems(Swap(f, a, b))
  {
    var t := Swap(f, a, b);
    SwapMoves(f, a, b);
    forall x, y | 0 <= x < y < |t|
      ensures t[x] != t[y]
    {
      var x', y' := SwapIndex(x, a, b), SwapIndex(y, a, b);
      assert x' < y' || y' < x';
    }
  }

  /** One block start to the next, on plain sequences: `p` has no repeated
      element, `f` is the state `perm(k - 1, p)` leaves and `t` its swap. */
  lemma DistinctStep<T>(k: nat, p: seq<T>, f: seq<T>, t: seq<T>, a: nat)
    requires 2 <= k <= |p| && a < k && |f| == |p| && DistinctElems(p)
    requires forall j :: 0 <= j < |p| ==> f[j] == p[FinalIndex(k - 1, j)]
    requires t == Swap(f, a, k - 1)
    ensures DistinctElems(t)
  {
    DistinctFinal(k - 1, p, f);
    DistinctSwap(f, a, k - 1);
  }

  // ---------------------------------------------------------------------
  // Where the elements go

  /** `perm(k, s)` leaves at each position `j` the element of `s` at
      `FinalIndex(k, j)`. */
  lemma {:induction false} HeapFinal<T>(k: nat, s: seq<T>)
    requires 1 <= k <= |s|
    ensures forall j :: 0 <= j < |s| ==> Heap(k, s).final[j] == s[FinalIndex(k, j)]
    decreases k, 1
  {
    if k == 2 {
      HeapTwo(s);
      SwapMoves(s, 0, 1);
    } else if k > 2 {
      HeapBlocks(k, s);
      if k % 2 == 0 {
        EvenFinal(k, s);
      } else {
        OddFinal(k, s);
      }
    }
  }

  lemma {:induction false} EvenFinal<T>(k: nat, s: seq<T>)
    requires 4 <= k <= |s| && k % 2 == 0
    ensures forall j :: 0 <= j < |s| ==>
      Heap(k - 1, BlockStart(k, s, k - 1)).final[j] == s[FinalIndex(k, j)]
    decreases k, 0
  {
    var p := BlockStart(k, s, k - 2);
    var f := Heap(k - 1, p).final;
    var u := BlockStart(k, s, k - 1);
    assert u == Swap(f, k - 2, k - 1);
    EvenStart(k, s, k - 2);
    HeapFinal(k - 1, p);
    HeapFinal(k - 1, u);
    EvenLastSeq(k, s, p, f, u, Heap(k - 1, u).final);
  }

  lemma {:induction false} OddFinal<T>(k: nat, s: seq<T>)
    requires 3 <= k <= |s| && k % 2 == 1
    ensures forall j :: 0 <= j < |s| ==>
      Heap(k - 1, BlockStart(k, s, k - 1)).final[j] == s[FinalIndex(k, j)]
    decreases k, 0
  {
    var u := BlockStart(k, s, k - 1);
    OddStart(k, s, k - 1);
    HeapFinal(k - 1, u);
    OddLastSeq(k, s, u, Heap(k - 1, u).final);
  }

  /** For even `k >= 4`, block `i` (`1 <= i <= k - 2`) starts with the
      element of `s` at `EvenIndex(k, i, j)` at each position `j`. */
  lemma {:induction false} EvenStart<T>(k: nat, s: seq<T>, i: nat)
    requires 4 <= k <= |s| && k % 2 == 0 && 1 <= i <= k - 2
    ensures forall j :: 0 <= j < |s| ==> BlockStart(k, s, i)[j] == s[EvenIndex(k, i, j)]
    decreases k - 1, 2, i
  {
    var p := BlockStart(k, s, i - 1);
    var f := Heap(k - 1, p).final;
    var t := BlockStart(k, s, i);
    assert t == Swap(f, i - 1, k - 1);
    HeapFinal(k - 1, p);
    if i == 1 {
      EvenFirstSeq(k, s, f, t);
    } else {
      EvenStart(k, s, i - 1);
      EvenStepSeq(k, i, s, p, f, t);
    }
  }

  /** For odd `k`, block `i` starts with the element of `s` at
      `OddPow(k, i, j)` at each position `j`. */
  lemma {:induction false} OddStart<T>(k: nat, s: seq<T>, i: nat)
    requires 3 <= k <= |s| && k % 2 == 1 && i <= k - 1
    ensures forall j :: 0 <= j < |s| ==> BlockStart(k, s, i)[j] == s[OddPow(k, i, j)]
    decreases k - 1, 2, i
  {
    if i > 0 {
      var p := BlockStart(k, s, i - 1);
      var f := Heap(k - 1, p).final;
      var t := BlockStart(k, s, i);
      assert t == Swap(f, 0, k - 1);
      OddStart(k, s, i - 1);
      HeapFinal(k - 1, p);
      OddStepSeq(k, i, s, p, f, t);
    }
  }

  // The same steps on plain sequences: `p` a block start, `f` the state
  // `perm(k - 1, p)` leaves, `t` the next block start.

  lemma EvenFirstSeq<T>(k: nat, s: seq<T>, f: seq<T>, t: seq<T>)
    requires 4 <= k <= |s| && k % 2 == 0 && |f| == |s|
    requires forall j :: 0 <= j < |s| ==> f[j] == s[FinalIndex(k - 1, j)]
    requires t == Swap(f, 0, k - 1)
    ensures forall j :: 0 <= j < |s| ==> t[j] == s[EvenIndex(k, 1, j)]
  {
    SwapMoves(f, 0, k - 1);
    forall j | 0 <= j < |s|
      ensures t[j] == s[EvenIndex(k, 1, j)]
    {
      EvenIndexFirst(k, j);
    }
  }

  lemma EvenStepSeq<T>(k: nat, i: nat, s: seq<T>, p: seq<T>, f: seq<T>, t: seq<T>)
    requires 4 <= k <= |s| && k % 2 == 0 && 2 <= i <= k - 2 && |p| == |s| && |f| == |s|
    requires forall j :: 0 <= j < |s| ==> p[j] == s[EvenIndex(k, i - 1, j)]
    requires forall j :: 0 <= j < |s| ==> f[j] == p[FinalIndex(k - 1, j)]
    requires t == Swap(f, i - 1, k - 1)
    ensures forall j :: 0 <= j < |s| ==> t[j] == s[EvenIndex(k, i, j)]
  {
    SwapMoves(f, i - 1, k - 1);
    forall j | 0 <= j < |s|
      ensures t[j] == s[EvenIndex(k, i, j)]
    {
      EvenIndexStep(k, i - 1, j);
    }
  }

  lemma EvenLastSeq<T>(k: nat, s: seq<T>, p: seq<T>, f: seq<T>, u: seq<T>, g: seq<T>)
    requires 4 <= k <= |s| && k % 2 == 0 && |p| == |s| && |f| == |s| && |g| == |s|
    requires forall j :: 0 <= j < |s| ==> p[j] == s[EvenIndex(k, k - 2, j)]
    requires forall j :: 0 <= j < |s| ==> f[j] == p[FinalIndex(k - 1, j)]
    requires u == Swap(f, k - 2, k - 1)
    requires forall j :: 0 <= j < |s| ==> g[j] == u[FinalIndex(k - 1, j)]
    ensures forall j :: 0 <= j < |s| ==> g[j] == s[FinalIndex(k, j)]
  {
    SwapMoves(f, k - 2, k - 1);
    forall j | 0 <= j < |s|
      ensures g[j] == s[FinalIndex(k, j)]
    {
      EvenIndexFinal(k, j);
    }
  }

  lemma OddStepSeq<T>(k: nat, i: nat, s: seq<T>, p: seq<T>, f: seq<T>, t: seq<T>)
    requires 3 <= k <= |s| && k % 2 == 1 && 1 <= i && |p| == |s| && |f| == |s|
    requires forall j :: 0 <= j < |s| ==> p[j] == s[OddPow(k, i - 1, j)]
    requires forall j :: 0 <= j < |s| ==> f[j] == p[FinalIndex(k - 1, j)]
    requires t == Swap(f, 0, k - 1)
    ensures forall j :: 0 <= j < |s| ==> t[j] == s[OddPow(k, i, j)]
  {
    SwapMoves(f, 0, k - 1);
    forall j | 0 <= j < |s|
      ensures t[j] == s[OddPow(k, i, j)]
    {
      var y := OddStep(k, j);
      assert t[j] == p[y];
      OddPowNext(k, i, j);
    }
  }

  lemma OddLastSeq<T>(k: nat, s: seq<T>, u: seq<T>, g: seq<T>)
    requires 3 <= k <= |s| && k % 2 == 1 && |u| == |s| && |g| == |s|
    requires forall j :: 0 <= j < |s| ==> u[j] == s[OddPow(k, k - 1, j)]
    requires forall j :: 0 <= j < |s| ==> g[j] == u[FinalIndex(k - 1, j)]
    ensures forall j :: 0 <= j < |s| ==> g[j] == s[FinalIndex(k, j)]
  {
    forall j | 0 <= j < |s|
      ensures g[j] == s[FinalIndex(k, j)]
    {
      OddFinalIndex(k, j);
    }
  }

  /** For odd `k`, the last block start followed by the final state of
      `perm(k - 1, ·)` exchanges the first and the last of the first `k`
      positions. */
  lemma OddFinalIndex(k: nat, j: nat)
    requires 3 <= k && k % 2 == 1
    ensures OddPow(k, k - 1, FinalIndex(k - 1, j)) == FinalIndex(k, j)
  {
    var y := SwapIndex(j, 0, k - 1);
    assert FinalIndex(k - 1, j) == OddStep(k, y);
    OddPowShift(k, k - 1, y);
    OddCycle(k, y);
  }

  // ---------------------------------------------------------------------
  // No ordering twice

  /** Block `i` of `perm(k, s)` starts with the element of `s` at
      `Last(k, i)` at position `k - 1`, and keeps it there throughout. */
  lemma LastAt<T>(k: nat, s: seq<T>, i: nat)
    requires 2 <= k <= |s| && i <= k - 1
    ensures BlockStart(k, s, i)[k - 1] == s[Last(k, i)]
  {
    if i == 0 {
    } else if k % 2 == 1 {
      OddLastAt(k, s, i);
    } else if k == 2 {
      SwapMoves(s, 0, 1);
    } else if i <= k - 2 {
      EvenStart(k, s, i);
    } else {
      EvenLastAt(k, s);
    }
  }

  lemma OddLastAt<T>(k: nat, s: seq<T>, i: nat)
    requires 3 <= k <= |s| && k % 2 == 1 && i <= k - 1
    ensures BlockStart(k, s, i)[k - 1] == s[Orbit(k, i)]
  {
    OddStart(k, s, i);
    OddOrbit(k, i);
  }

  /** The last block of `perm(k, s)` for even `k >= 4` keeps `s[0]` at
      position `k - 1`. */
  lemma EvenLastAt<T>(k: nat, s: seq<T>)
    requires 4 <= k <= |s| && k % 2 == 0
    ensures BlockStart(k, s, k - 1)[k - 1] == s[0]
  {
    var p := BlockStart(k, s, k - 2);
    var f := Heap(k - 1, p).final;
    assert BlockStart(k, s, k - 1) == Swap(f, k - 2, k - 1);
    EvenStart(k, s, k - 2);
    HeapFinal(k - 1, p);
    EvenLastSeq0(k, s, p, f);
  }

  lemma EvenLastSeq0<T>(k: nat, s: seq<T>, p: seq<T>, f: seq<T>)
    requires 4 <= k <= |s| && k % 2 == 0 && |p| == |s| && |f| == |s|
    requires forall j :: 0 <= j < |s| ==> p[j] == s[EvenIndex(k, k - 2, j)]
    requires forall j :: 0 <= j < |s| ==> f[j] == p[FinalIndex(k - 1, j)]
    ensures Swap(f, k - 2, k - 1)[k - 1] == s[0]
  {
    SwapExchanges(f, k - 2, k - 1);
    assert f[k - 2] == p[FinalIndex(k - 1, k - 2)];
    assert p[0] == s[EvenIndex(k, k - 2, 0)];
  }

  lemma NoRepeatsAppend<T>(xs: seq<seq<T>>, ys: seq<seq<T>>)
    requires NoRepeats(xs) && NoRepeats(ys)
    requires forall a, b :: 0 <= a < |xs| && 0 <= b < |ys| ==> xs[a] != ys[b]
    ensures NoRepeats(xs + ys)
  {
    forall a, b | 0 <= a < b < |xs + ys|
      ensures (xs + ys)[a] != (xs + ys)[b]
    {
      if b < |xs| {
      } else if a < |xs| {
        assert (xs + ys)[b] == ys[b - |xs|];
      } else {
        assert (xs + ys)[a] == ys[a - |xs|] && (xs + ys)[b] == ys[b - |xs|];
      }
    }
  }

  /** An ordering delivered in blocks `i..k-1` holds at position `k - 1`
      none of the elements that blocks `0..i-1` keep there. */
  ghost predicate AvoidsEarlier<T>(k: nat, s: seq<T>, i: nat, d: seq<T>)
    requires 2 <= k <= |s| && i <= k
  {
    |d| == |s| && forall j :: 0 <= j < i ==> d[k - 1] != s[Last(k, j)]
  }

  ghost predicate AllAvoid<T>(k: nat, s: seq<T>, i: nat, ds: seq<seq<T>>)
    requires 2 <= k <= |s| && i <= k
  {
    forall n :: 0 <= n < |ds| ==> AvoidsEarlier(k, s, i, ds[n])
  }

  /** Every ordering in `ds` holds `x` at position `k - 1`. */
  ghost predicate AllHold<T>(ds: seq<seq<T>>, k: nat, x: T)
    requires 1 <= k
  {
    forall n :: 0 <= n < |ds| ==> k - 1 < |ds[n]| && ds[n][k - 1] == x
  }

  /** `perm(k, s)` offers no ordering twice when `s` has no repeated
      element. */
  lemma {:induction false} HeapDistinct<T>(k: nat, s: seq<T>)
    requires 1 <= k <= |s| && DistinctElems(s)
    ensures NoRepeats(Heap(k, s).deliveries)
    decreases k, 1, 0
  {
    if k > 1 {
      HeapBlocks(k, s);
      BlocksDistinct(k, s, 0);
    }
  }

  /** Blocks `i..k-1` of `perm(k, s)` offer no ordering twice, and none of
      what they offer holds at position `k - 1` an element that an earlier
      block keeps there. */
  lemma {:induction false} BlocksDistinct<T>(k: nat, s: seq<T>, i: nat)
    requires 2 <= k <= |s| && i <= k && DistinctElems(s)
    ensures NoRepeats(Blocks(k, s, i)) && AllAvoid(k, s, i, Blocks(k, s, i))
    decreases k, 0, k - i
  {
    if i < k {
      var t := BlockStart(k, s, i);
      var block := Heap(k - 1, t).deliveries;
      var rest := Blocks(k, s, i + 1);
      assert Blocks(k, s, i) == block + rest;
      BlockStartDistinct(k, s, i);
      HeapDistinct(k - 1, t);
      HeapRearranges(k - 1, t);
      LastAt(k, s, i);
      BlocksDistinct(k, s, i + 1);
      BlockAvoids(k, s, i, t, block);
      JoinBlocks(k, s, i, block, rest);
    }
  }

  /** Every ordering block `i` offers keeps the block start's element at
      position `k - 1`, which no earlier block keeps there. */
  lemma BlockAvoids<T>(k: nat, s: seq<T>, i: nat, t: seq<T>, block: seq<seq<T>>)
    requires 2 <= k <= |s| && i < k && DistinctElems(s)
    requires |t| == |s| && t[k - 1] == s[Last(k, i)] && AllKeep(block, t, k - 1)
    ensures AllAvoid(k, s, i, block) && AllHold(block, k, s[Last(k, i)])
  {
    forall n | 0 <= n < |block|
      ensures AvoidsEarlier(k, s, i, block[n]) && block[n][k - 1] == s[Last(k, i)]
    {
      var d := block[n];
      assert d in block;
      assert Keeps(d, t, k - 1);
      forall j | 0 <= j < i
        ensures d[k - 1] != s[Last(k, j)]
      {
        LastInjective(k, i, j);
      }
    }
  }

  /** Block `i` followed by blocks `i+1..k-1`: no ordering twice, since
      each ordering of block `i` differs at position `k - 1` from every
      later one. */
  lemma JoinBlocks<T>(k: nat, s: seq<T>, i: nat, block: seq<seq<T>>, rest: seq<seq<T>>)
    requires 2 <= k <= |s| && i < k
    requires NoRepeats(block) && NoRepeats(rest)
    requires AllAvoid(k, s, i, block) && AllHold(block, k, s[Last(k, i)])
    requires AllAvoid(k, s, i + 1, rest)
    ensures NoRepeats(block + rest) && AllAvoid(k, s, i, block + rest)
  {
    forall a, b | 0 <= a < |block| && 0 <= b < |rest|
      ensures block[a] != rest[b]
    {
      assert AvoidsEarlier(k, s, i + 1, rest[b]);
    }
    NoRepeatsAppend(block, rest);
    forall n | 0 <= n < |block + rest|
      ensures AvoidsEarlier(k, s, i, (block + rest)[n])
    {
      if n >= |block| {
        assert (block + rest)[n] == rest[n - |block|];
        assert AvoidsEarlier(k, s, i + 1, rest[n - |block|]);
      }
    }
  }

  /** permRec offers no ordering twice when the slice has no repeated
      element. */
  lemma RecDistinct<T>(s: seq<T>)
    requires DistinctElems(s)
    ensures NoRepeats(RecRun(s).deliveries)
  {
    if |s| > 0 {
      HeapDistinct(|s|, s);
    }
  }

  /** For a slice without repeated elements, Perm offers `n!` orderings,
      each a rearrangement of the slice and no two the same. */
  lemma IterDistinct<T>(s: seq<T>)
    requires 1 <= |s| && DistinctElems(s)
    ensures var ds := IterRun(s).deliveries;
      && |ds| == Fact(|s|) && NoRepeats(ds)
      && forall d | d in ds :: |d| == |s| && multiset(d) == multiset(s)
  {
    IterIsRec(s);
    RecDeliveries(s);
    RecDistinct(s);
  }
}
