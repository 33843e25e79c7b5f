/** CollectErr: drain a sequence of (value, error) pairs into the values seen
    before the first error.  Go's `nil` error is `None`. */
module Errors {
  import opened Wrappers

  /** Position of the first element that carries an error, or `|s|` when
      none does. */
  function FirstError<A, E>(s: seq<(A, Option<E>)>): (r: nat)
    ensures r <= |s|
    ensures forall j :: 0 <= j < r ==> s[j].1 == None
    ensures r < |s| ==> s[r].1.Some?
    decreases |s|
  {
    if s == [] then 0
    else if s[0].1.Some? then 0
    else 1 + FirstError(s[1..])
  }

  /** CollectErr: the first components of the elements before the first error,
      in order, together with that error (`None` when there is none).  The
      value paired with the error is dropped, and `consumed` counts the
      elements drawn from `s`: none after the first error. */
  method CollectErr<A, E>(s: seq<(A, Option<E>)>) returns (values: seq<A>, err: Option<E>, consumed: nat)
    ensures var k := FirstError(s);
      && |values| == k
      && (forall j :: 0 <= j < k ==> values[j] == s[j].0)
      && err == (if k < |s| then s[k].1 else None)
      && consumed == (if k < |s| then k + 1 else |s|)
  {
    values := [];
    var i := 0;
    while i < |s|
      invariant 0 <= i <= |s|
      invariant |values| == i
      invariant forall j :: 0 <= j < i ==> values[j] == s[j].0 && s[j].1 == None
    {
      var (a, e) := s[i];
      if e.Some? {
        FirstErrorAt(s, i);
        return values, e, i + 1;
      }
      values := values + [a];
      i := i + 1;
    }
    FirstErrorAt(s, i);
    return values, None, i;
  }

  /** The first error is at `i` when none comes before it and `i` carries one
      or is the end. */
  lemma FirstErrorAt<A, E>(s: seq<(A, Option<E>)>, i: nat)
    requires i <= |s|
    requires forall j :: 0 <= j < i ==> s[j].1 == None
    requires i < |s| ==> s[i].1.Some?
    ensures FirstError(s) == i
  {
  }
}
