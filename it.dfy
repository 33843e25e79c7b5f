/** The combinators of it.go: Zip, Concat and Chain.  An `iter.Seq` is a finite
    sequence, and the downstream consumer is a `Lazy` consumer. */
module It {
  import opened Wrappers
  import opened Lazy

  /** The pairs Zip offers: position by position, as long as both inputs last. */
  function ZipPairs<A, B>(xs: seq<A>, ys: seq<B>): (r: seq<(A, B)>)
    ensures |r| == if |xs| < |ys| then |xs| else |ys|
    ensures forall k :: 0 <= k < |r| ==> r[k] == (xs[k], ys[k])
    decreases |ys|
  {
    if xs == [] || ys == [] then [] else [(xs[0], ys[0])] + ZipPairs(xs[1..], ys[1..])
  }

  /** The pull adapter over the first input of Zip (`iter.Pull`): a cursor into `items` and a
      count of how often it has been released. */
  class PullSource<A> {
    const items: seq<A>
    var pos: nat
    var stops: nat

    ghost predicate Valid()
      reads this
    {
      pos <= |items|
    }

    constructor (items: seq<A>)
      ensures Valid() && this.items == items && pos == 0 && stops == 0
    {
      this.items := items;
      pos, stops := 0, 0;
    }

    /** `next`: the following element, or `None` once `items` is exhausted or
        the source has been released. */
    method Next() returns (a: Option<A>)
      requires Valid()
      modifies this`pos
      ensures Valid()
      ensures if old(pos) < |items| && stops == 0
        then a == Some(items[old(pos)]) && pos == old(pos) + 1
        else a == None && pos == old(pos)
    {
      if pos < |items| && stops == 0 {
        a := Some(items[pos]);
        pos := pos + 1;
      } else {
        a := None;
      }
    }

    /** `stop`: release the source. */
    method Stop()
      modifies this`stops
      ensures stops == old(stops) + 1
    {
      stops := stops + 1;
    }
  }

  /** Zip: the consumer gets `(xs[k], ys[k])` for k = 0, 1, ... until either
      input runs out or it declines a pair.  `ys` drives the loop, `xs` is
      pulled one element per pair, never more than are delivered, and the pull
      source is released exactly once, on every way out. */
  method Zip<A, B>(xs: seq<A>, ys: seq<B>, consumer: (nat, (A, B)) -> bool)
    returns (delivered: seq<(A, B)>, source: PullSource<A>)
    ensures delivered == Accepted(ZipPairs(xs, ys), consumer, 0)
    ensures fresh(source) && source.items == xs
    ensures source.pos == |delivered| && source.stops == 1
  {
    var full := ZipPairs(xs, ys);
    source := new PullSource(xs);
    delivered := [];
    var j := 0;
    while j < |ys|
      invariant 0 <= j <= |ys| && source.Valid()
      invariant source.items == xs && source.stops == 0
      invariant j <= |xs| && source.pos == j && delivered == full[..j]
      invariant AllAccepted(delivered, consumer, 0)
    {
      var a := source.Next();
      if a.None? {
        break;
      }
      var pair := (a.value, ys[j]);
      OfferStep(full, j, consumer);
      delivered := delivered + [pair];
      if !consumer(j, pair) {
        source.Stop();
        return;
      }
      j := j + 1;
    }
    assert delivered == full;
    AcceptedPrefix(full, consumer, 0);
    source.Stop();
  }

  /** All inner sequences, first to last, xs one sequence. */
  function Flatten<A>(its: seq<seq<A>>): seq<A>
    decreases |its|
  {
    if its == [] then [] else its[0] + Flatten(its[1..])
  }

  /** Flattening distributes over joining the outer sequence. */
  lemma {:induction false} FlattenAppend<A>(xs: seq<seq<A>>, ys: seq<seq<A>>)
    ensures Flatten(xs + ys) == Flatten(xs) + Flatten(ys)
    decreases |xs|
  {
    if xs == [] {
      assert xs + ys == ys;
    } else {
      assert (xs + ys)[1..] == xs[1..] + ys;
      FlattenAppend(xs[1..], ys);
    }
  }

  /** Flattening a prefix one sequence longer appends that sequence. */
  lemma FlattenSnoc<A>(its: seq<seq<A>>, i: nat)
    requires i < |its|
    ensures Flatten(its[..i + 1]) == Flatten(its[..i]) + its[i]
  {
    assert its[..i + 1] == its[..i] + [its[i]];
    FlattenAppend(its[..i], [its[i]]);
    assert Flatten([its[i]]) == its[i] + Flatten([]);
  }

  /** Element `i` of the `started`-th inner sequence sits in the flattening
      right after the elements of the sequences before it and its own first
      `i` elements. */
  lemma FlattenAt<A>(its: seq<seq<A>>, started: nat, i: nat)
    requires 0 < started <= |its| && i < |its[started - 1]|
    ensures var it, d := its[started - 1], Flatten(its[..started - 1]) + its[started - 1][..i];
      && |d| < |Flatten(its)|
      && Flatten(its)[..|d|] == d
      && Flatten(its)[|d|] == it[i]
      && d + [it[i]] == Flatten(its[..started - 1]) + it[..i + 1]
  {
    var it, p := its[started - 1], Flatten(its[..started - 1]);
    FlattenSnoc(its, started - 1);
    assert its == its[..started] + its[started..];
    FlattenAppend(its[..started], its[started..]);
    assert it == it[..i] + [it[i]] + it[i + 1..];
    assert Flatten(its) == (p + it[..i]) + ([it[i]] + (it[i + 1..] + Flatten(its[started..])));
    assert it[..i + 1] == it[..i] + [it[i]];
  }

  /** Concat: the consumer gets the elements of `its[0]`, then of `its[1]`,
      and so on, until it declines one.  `started` counts the inner sequences
      ranged over: after a decline in `its[t]` none after it is started. */
  method Concat<A>(its: seq<seq<A>>, consumer: (nat, A) -> bool) returns (delivered: seq<A>, started: nat)
    ensures delivered == Accepted(Flatten(its), consumer, 0)
    ensures started <= |its|
    ensures AllAccepted(Flatten(its), consumer, 0) ==> started == |its|
    ensures !AllAccepted(Flatten(its), consumer, 0) ==>
      0 < started && |Flatten(its[..started - 1])| < |delivered| <= |Flatten(its[..started])|
  {
    var full := Flatten(its);
    delivered := [];
    started := 0;
    while started < |its|
      invariant started <= |its|
      invariant delivered == Flatten(its[..started])
      invariant AllAccepted(delivered, consumer, 0)
    {
      var it := its[started];
      FlattenSnoc(its, started);
      started := started + 1;
      var i := 0;
      while i < |it|
        invariant i <= |it|
        invariant delivered == Flatten(its[..started - 1]) + it[..i]
        invariant AllAccepted(delivered, consumer, 0)
      {
        var a := it[i];
        FlattenAt(its, started, i);
        OfferStep(full, |delivered|, consumer);
        if !consumer(|delivered|, a) {
          delivered := delivered + [a];
          return;
        }
        delivered := delivered + [a];
        i := i + 1;
      }
      assert it[..i] == it;
    }
    assert its[..started] == its;
    AcceptedPrefix(full, consumer, 0);
  }

  /** Chain(its...): Concat over the argument list. */
  method Chain<A>(its: seq<seq<A>>, consumer: (nat, A) -> bool) returns (delivered: seq<A>)
    ensures delivered == Accepted(Flatten(its), consumer, 0)
    ensures its == [] ==> delivered == []
  {
    var started;
    delivered, started := Concat(its, consumer);
  }

  /** `s` repeated `n` times (`slices.Repeat`). */
  function Repeat<A>(s: seq<A>, n: nat): (r: seq<A>)
    ensures |r| == n * |s|
    decreases n
  {
    if n == 0 then [] else s + Repeat(s, n - 1)
  }

  /** Copy `q` of the repetition holds `s`: its element `j` is `s[j]`. */
  lemma {:induction false} RepeatAt<A>(s: seq<A>, n: nat, q: nat, j: nat)
    requires q < n && j < |s|
    ensures q * |s| + j < |Repeat(s, n)| && Repeat(s, n)[q * |s| + j] == s[j]
    decreases n
  {
    if q > 0 {
      RepeatAt(s, n - 1, q - 1, j);
      assert q * |s| + j == |s| + ((q - 1) * |s| + j);
    }
  }

  /** Chaining `n` copies of `s` yields `s` repeated `n` times; no arguments
      yield nothing. */
  lemma {:induction false} ChainCopies<A>(s: seq<A>, n: nat)
    ensures Flatten(seq(n, _ => s)) == Repeat(s, n)
    decreases n
  {
    if n > 0 {
      var copies := seq(n, _ => s);
      assert copies[1..] == seq(n - 1, _ => s);
      ChainCopies(s, n - 1);
    }
  }
}
