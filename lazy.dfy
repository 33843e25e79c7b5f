/** The library's lazy-sequence protocol, on finite sequences.

    A producer hands its elements one at a time to a consumer callback
    (`yield` in the source), whose answer says whether it wants more; after a "no" the producer
    must produce nothing further.  A (possibly stateful) consumer is modelled
    as a total function of the delivery's position and value: `consumer(k, x)` is
    the answer it gives when `x` is its k-th delivery, counting from 0. */
module Lazy {

  /** The consumer accepts (answers "continue" to) every element of `s`,
      numbered from `k`. */
  predicate AllAccepted<U>(s: seq<U>, consumer: (nat, U) -> bool, k: nat)
    decreases |s|
  {
    s == [] || (consumer(k, s[0]) && AllAccepted(s[1..], consumer, k + 1))
  }

  /** The consumer declined the last element of `s` (numbered from `k`). */
  predicate Declined<U>(s: seq<U>, consumer: (nat, U) -> bool, k: nat)
  {
    s != [] && !consumer(k + |s| - 1, s[|s| - 1])
  }

  /** What a consumer actually receives when a producer offers the elements of
      `full` in order, numbered from `k`: everything up to and including the
      first element it declines, and nothing after it. */
  function Accepted<U>(full: seq<U>, consumer: (nat, U) -> bool, k: nat): seq<U>
    decreases |full|
  {
    if full == [] then []
    else if !consumer(k, full[0]) then [full[0]]
    else [full[0]] + Accepted(full[1..], consumer, k + 1)
  }

  /** Accepting everything means accepting every element at its position. */
  lemma {:induction false} AllAcceptedAt<U>(s: seq<U>, consumer: (nat, U) -> bool, k: nat)
    ensures AllAccepted(s, consumer, k) <==> forall j :: 0 <= j < |s| ==> consumer(k + j, s[j])
    decreases |s|
  {
    if s != [] {
      AllAcceptedAt(s[1..], consumer, k + 1);
      if forall j :: 0 <= j < |s| ==> consumer(k + j, s[j]) {
        forall j | 0 <= j < |s[1..]| ensures consumer(k + 1 + j, s[1..][j]) {
          assert consumer(k + (j + 1), s[j + 1]);
        }
      }
      if AllAccepted(s, consumer, k) {
        forall j | 0 <= j < |s| ensures consumer(k + j, s[j]) {
          if j > 0 { assert consumer(k + 1 + (j - 1), s[1..][j - 1]); }
        }
      }
    }
  }

  /** The consumer accepts all of `a + b` exactly when it accepts all of `a`
      and then all of `b`. */
  lemma {:induction false} AllAcceptedSplit<U>(a: seq<U>, b: seq<U>, consumer: (nat, U) -> bool, k: nat)
    ensures AllAccepted(a + b, consumer, k)
      <==> AllAccepted(a, consumer, k) && AllAccepted(b, consumer, k + |a|)
    decreases |a|
  {
    if a == [] {
      assert a + b == b;
    } else {
      assert (a + b)[0] == a[0] && (a + b)[1..] == a[1..] + b;
      AllAcceptedSplit(a[1..], b, consumer, k + 1);
    }
  }

  /** Extending an accepted prefix by one more accepted element. */
  lemma AllAcceptedSnoc<U>(a: seq<U>, x: U, consumer: (nat, U) -> bool, k: nat)
    requires AllAccepted(a, consumer, k) && consumer(k + |a|, x)
    ensures AllAccepted(a + [x], consumer, k)
  {
    AllAcceptedSplit(a, [x], consumer, k);
    assert [x][1..] == [];
  }

  /** The consumer receives a prefix of what is offered; it accepted all of it
      but possibly the last element; it receives everything exactly when it
      accepts everything, and otherwise the last element it receives is the
      one it declined. */
  lemma {:induction false} AcceptedPrefix<U>(full: seq<U>, consumer: (nat, U) -> bool, k: nat)
    ensures var r := Accepted(full, consumer, k);
      && |r| <= |full| && r == full[..|r|]
      && (r == [] || AllAccepted(r[..|r| - 1], consumer, k))
      && (AllAccepted(full, consumer, k) ==> r == full)
      && (!AllAccepted(full, consumer, k) ==> Declined(r, consumer, k))
    decreases |full|
  {
    if full != [] && consumer(k, full[0]) {
      var tail := full[1..];
      AcceptedPrefix(tail, consumer, k + 1);
      var r, t := Accepted(full, consumer, k), Accepted(tail, consumer, k + 1);
      assert r == [full[0]] + t;
      if t != [] {
        var init := r[..|r| - 1];
        assert init[0] == full[0] && init[1..] == t[..|t| - 1];
        assert r[|r| - 1] == t[|t| - 1];
      }
      assert [full[0]] + tail == full;
    } else if full != [] {
      assert Accepted(full, consumer, k)[..0] == [];
    }
  }

  /** One step of a producer offering `full` in order: element `j` after an
      accepted prefix `full[..j]` either extends the accepted prefix or ends
      the deliveries there. */
  lemma OfferStep<U>(full: seq<U>, j: nat, consumer: (nat, U) -> bool)
    requires j < |full| && AllAccepted(full[..j], consumer, 0)
    ensures full[..j + 1] == full[..j] + [full[j]]
    ensures consumer(j, full[j]) ==> AllAccepted(full[..j + 1], consumer, 0)
    ensures !consumer(j, full[j]) ==>
      Accepted(full, consumer, 0) == full[..j + 1] && !AllAccepted(full, consumer, 0)
  {
    assert full[..j + 1] == full[..j] + [full[j]];
    if consumer(j, full[j]) {
      AllAcceptedSnoc(full[..j], full[j], consumer, 0);
    } else {
      assert full == full[..j] + [full[j]] + full[j + 1..];
      AcceptedStops(full[..j], full[j], full[j + 1..], consumer, 0);
    }
  }

  /** The same step with the offer split as `p + [x] + rest`. */
  lemma OfferNext<U>(p: seq<U>, x: U, rest: seq<U>, full: seq<U>, consumer: (nat, U) -> bool, k: nat)
    requires p + [x] + rest == full && AllAccepted(p, consumer, k)
    ensures consumer(k + |p|, x) ==> AllAccepted(p + [x], consumer, k)
    ensures !consumer(k + |p|, x) ==>
      Accepted(full, consumer, k) == p + [x] && !AllAccepted(full, consumer, k)
  {
    if consumer(k + |p|, x) {
      AllAcceptedSnoc(p, x, consumer, k);
    } else {
      AcceptedStops(p, x, rest, consumer, k);
    }
  }

  /** A producer that first offers `a`, all of which is accepted, and then `b`
      delivers `a` and then what the consumer takes of `b`. */
  lemma {:induction false} AcceptedAppend<U>(a: seq<U>, b: seq<U>, consumer: (nat, U) -> bool, k: nat)
    requires AllAccepted(a, consumer, k)
    ensures Accepted(a + b, consumer, k) == a + Accepted(b, consumer, k + |a|)
    decreases |a|
  {
    if a == [] {
      assert a + b == b;
    } else {
      var ab := a + b;
      assert ab[0] == a[0] && ab[1..] == a[1..] + b;
      assert Accepted(ab, consumer, k) == [a[0]] + Accepted(a[1..] + b, consumer, k + 1);
      AcceptedAppend(a[1..], b, consumer, k + 1);
      assert a == [a[0]] + a[1..];
    }
  }

  /** Once the consumer declines `x`, nothing offered after it is delivered. */
  lemma AcceptedStops<U>(a: seq<U>, x: U, rest: seq<U>, consumer: (nat, U) -> bool, k: nat)
    requires AllAccepted(a, consumer, k) && !consumer(k + |a|, x)
    ensures Accepted(a + [x] + rest, consumer, k) == a + [x]
    ensures !AllAccepted(a + [x] + rest, consumer, k)
  {
    AcceptedAppend(a, [x] + rest, consumer, k);
    assert a + [x] + rest == a + ([x] + rest);
    assert ([x] + rest)[0] == x;
    AllAcceptedSplit(a, [x] + rest, consumer, k);
  }

  /** Once the consumer has declined something in `a`, nothing of `b` is
      delivered. */
  lemma {:induction false} AcceptedDeclined<U>(a: seq<U>, b: seq<U>, consumer: (nat, U) -> bool, k: nat)
    requires !AllAccepted(a, consumer, k)
    ensures Accepted(a + b, consumer, k) == Accepted(a, consumer, k)
    decreases |a|
  {
    var ab := a + b;
    assert ab[0] == a[0] && ab[1..] == a[1..] + b;
    if consumer(k, a[0]) {
      AcceptedDeclined(a[1..], b, consumer, k + 1);
    }
  }

  /** A producer that has delivered `p`, all accepted, and now offers `a`
      and then `b`: if the consumer declines within `a`, it receives `p`
      followed by what it takes of `a`, and the whole offer was not
      accepted. */
  lemma DeclinedWithin<U>(p: seq<U>, a: seq<U>, b: seq<U>, consumer: (nat, U) -> bool, k: nat)
    requires AllAccepted(p, consumer, k) && !AllAccepted(a, consumer, k + |p|)
    ensures Accepted(p + (a + b), consumer, k) == p + Accepted(a, consumer, k + |p|)
    ensures !AllAccepted(p + (a + b), consumer, k)
  {
    AcceptedAppend(p, a + b, consumer, k);
    AcceptedDeclined(a, b, consumer, k + |p|);
    AllAcceptedSplit(a, b, consumer, k + |p|);
    AllAcceptedSplit(p, a + b, consumer, k);
  }

  /** If the consumer accepts all of `a` after `p`, it receives all of it. */
  lemma AcceptedWithin<U>(p: seq<U>, a: seq<U>, consumer: (nat, U) -> bool, k: nat)
    requires AllAccepted(p, consumer, k) && AllAccepted(a, consumer, k + |p|)
    ensures Accepted(a, consumer, k + |p|) == a && AllAccepted(p + a, consumer, k)
  {
    AcceptedPrefix(a, consumer, k + |p|);
    AllAcceptedSplit(p, a, consumer, k);
  }
}
