/** Reductions over a finite sequence: the left fold `Fold` and the
    short-circuiting conjunction `All`. */
module Fold {

  /** The left fold the source performs: the combining function receives
      (element, accumulator) and the elements are taken from the head. */
  function FoldLeft<A, B>(s: seq<A>, z: B, f: (A, B) -> B): B
    decreases |s|
  {
    if s == [] then z else FoldLeft(s[1..], f(s[0], z), f)
  }

  /** Folding one more element at the end applies `f` once more, to that
      element and the fold of the rest. */
  lemma {:induction false} FoldSnoc<A, B>(s: seq<A>, x: A, z: B, f: (A, B) -> B)
    ensures FoldLeft(s + [x], z, f) == f(x, FoldLeft(s, z, f))
    decreases |s|
  {
    if s == [] {
      assert [] + [x] == [x];
    } else {
      assert (s + [x])[1..] == s[1..] + [x];
      FoldSnoc(s[1..], x, f(s[0], z), f);
    }
  }

  /** Fold: the accumulator starts at `z` and is replaced by `f(a, b)` for each
      element `a` in order. */
  method Fold<A, B>(s: seq<A>, z: B, f: (A, B) -> B) returns (b: B)
    ensures b == FoldLeft(s, z, f)
    ensures s == [] ==> b == z
  {
    b := z;
    var i := 0;
    while i < |s|
      invariant 0 <= i <= |s|
      invariant b == FoldLeft(s[..i], z, f)
    {
      FoldSnoc(s[..i], s[i], z, f);
      assert s[..i + 1] == s[..i] + [s[i]];
      b := f(s[i], b);
      i := i + 1;
    }
    assert s[..i] == s;
  }

  /** The combining function of the collecting fold: append the element to the
      accumulated slice. */
  function Snoc<A>(a: A, b: seq<A>): seq<A>
  {
    b + [a]
  }

  /** Folding with `Snoc` from `acc` appends the whole sequence, in order. */
  lemma {:induction false} FoldSnocAppends<A>(s: seq<A>, acc: seq<A>)
    ensures FoldLeft(s, acc, Snoc) == acc + s
    decreases |s|
  {
    if s == [] {
      assert acc + s == acc;
    } else {
      FoldSnocAppends(s[1..], acc + [s[0]]);
      assert acc + [s[0]] + s[1..] == acc + s;
    }
  }

  /** Collecting with `Snoc` from the empty slice gives back the input. */
  lemma FoldCollects<A>(s: seq<A>)
    ensures FoldLeft(s, [], Snoc) == s
  {
    FoldSnocAppends(s, []);
  }

  /** The combining function of the conjunction fold. */
  function And(a: bool, b: bool): bool
  {
    a && b
  }

  /** All: true exactly when every element is true.  It stops at the first
      false element, so `consumed`, the number of elements drawn from `bs`, is
      the position just after that element, or all of `bs` when there is none. */
  method All(bs: seq<bool>) returns (r: bool, consumed: nat)
    ensures r <==> forall j :: 0 <= j < |bs| ==> bs[j]
    ensures consumed <= |bs|
    ensures r ==> consumed == |bs|
    ensures !r ==> 0 < consumed && !bs[consumed - 1]
    ensures forall j :: 0 <= j < consumed - 1 ==> bs[j]
  {
    var i := 0;
    while i < |bs|
      invariant 0 <= i <= |bs|
      invariant forall j :: 0 <= j < i ==> bs[j]
    {
      if !bs[i] {
        return false, i + 1;
      }
      i := i + 1;
    }
    return true, i;
  }

  /** The conjunction fold from `acc` is `acc` and "every element is true". */
  lemma {:induction false} FoldAndAll(bs: seq<bool>, acc: bool)
    ensures FoldLeft(bs, acc, And) == (acc && forall j :: 0 <= j < |bs| ==> bs[j])
    decreases |bs|
  {
    if bs != [] {
      FoldAndAll(bs[1..], And(bs[0], acc));
      assert (forall j :: 0 <= j < |bs| ==> bs[j])
        == (bs[0] && forall j :: 0 <= j < |bs[1..]| ==> bs[1..][j]) by {
        if forall j :: 0 <= j < |bs[1..]| ==> bs[1..][j] {
          forall j | 1 <= j < |bs| ensures bs[j] { assert bs[j] == bs[1..][j - 1]; }
        }
      }
    }
  }

  /** All agrees with the plain fold `Fold(bs, true, &&)` that it replaces. */
  lemma AllIsFold(bs: seq<bool>)
    ensures FoldLeft(bs, true, And) == (forall j :: 0 <= j < |bs| ==> bs[j])
  {
    FoldAndAll(bs, true);
  }
}
