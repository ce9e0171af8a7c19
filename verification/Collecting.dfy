/** Concatenating what each element of a list contributes: the meaning of a loop that appends. */
module Collecting {

  function Collect<A, B>(xs: seq<A>, f: A -> seq<B>): seq<B> {
    if xs == [] then [] else f(xs[0]) + Collect(xs[1..], f)
  }

  lemma {:induction false} CollectSplit<A, B>(a: seq<A>, b: seq<A>, f: A -> seq<B>)
    ensures Collect(a + b, f) == Collect(a, f) + Collect(b, f)
  {
    if a == [] {
      assert a + b == b;
    } else {
      assert (a + b)[1..] == a[1..] + b;
      CollectSplit(a[1..], b, f);
    }
  }

  lemma CollectOne<A, B>(x: A, rest: seq<A>, f: A -> seq<B>)
    ensures Collect([x] + rest, f) == f(x) + Collect(rest, f)
  {
    assert ([x] + rest)[1..] == rest;
  }

  lemma {:induction false} CollectNone<A, B>(xs: seq<A>, f: A -> seq<B>)
    requires forall i :: 0 <= i < |xs| ==> f(xs[i]) == []
    ensures Collect(xs, f) == []
  {
    if xs != [] {
      assert forall i :: 0 <= i < |xs| - 1 ==> xs[1..][i] == xs[i + 1];
      CollectNone(xs[1..], f);
    }
  }

  lemma {:induction false} CollectMember<A(!new), B>(xs: seq<A>, f: A -> seq<B>, y: B)
    ensures y in Collect(xs, f) <==> exists x :: x in xs && y in f(x)
  {
    if xs != [] {
      CollectMember(xs[1..], f, y);
      assert xs == [xs[0]] + xs[1..];
      assert forall x :: x in xs <==> x == xs[0] || x in xs[1..];
    }
  }

  /** Taking one element out takes out what it contributes. */
  lemma CollectWithout<A, B>(xs: seq<A>, i: nat, f: A -> seq<B>)
    requires i < |xs|
    ensures multiset(Collect(xs, f)) == multiset(f(xs[i])) + multiset(Collect(xs[..i] + xs[i + 1..], f))
  {
    assert xs == xs[..i] + ([xs[i]] + xs[i + 1..]);
    CollectSplit(xs[..i], [xs[i]] + xs[i + 1..], f);
    CollectOne(xs[i], xs[i + 1..], f);
    CollectSplit(xs[..i], xs[i + 1..], f);
  }

  /** Fewer elements contribute no more. */
  lemma {:induction false} CollectFewer<A, B>(some: seq<A>, all: seq<A>, f: A -> seq<B>)
    requires multiset(some) <= multiset(all)
    ensures multiset(Collect(some, f)) <= multiset(Collect(all, f))
  {
    if some != [] {
      var i := Partner(some, all);
      CollectFewer(some[1..], all[..i] + all[i + 1..], f);
      CollectWithout(all, i, f);
    }
  }

  lemma Partner<A>(some: seq<A>, all: seq<A>) returns (i: nat)
    requires some != [] && multiset(some) <= multiset(all)
    ensures i < |all| && all[i] == some[0] && multiset(some[1..]) <= multiset(all[..i] + all[i + 1..])
  {
    assert some == [some[0]] + some[1..];
    assert some[0] in multiset(all);
    i :| 0 <= i < |all| && all[i] == some[0];
    assert all == all[..i] + ([all[i]] + all[i + 1..]);
    assert multiset(all) == multiset(all[..i] + all[i + 1..]) + multiset{some[0]};
    assert multiset(some) == multiset(some[1..]) + multiset{some[0]};
    LessOne(multiset(some[1..]), multiset(all[..i] + all[i + 1..]), some[0]);
  }

  lemma LessOne<A>(a: multiset<A>, b: multiset<A>, x: A)
    requires a + multiset{x} <= b + multiset{x}
    ensures a <= b
  {
    assert a == (a + multiset{x}) - multiset{x} && b == (b + multiset{x}) - multiset{x};
  }

  lemma {:induction false} CollectSame<A, B>(xs: seq<A>, f: A -> seq<B>, g: A -> seq<B>)
    requires forall i :: 0 <= i < |xs| ==> f(xs[i]) == g(xs[i])
    ensures Collect(xs, f) == Collect(xs, g)
  {
    if xs != [] {
      assert forall i :: 0 <= i < |xs| - 1 ==> xs[1..][i] == xs[i + 1];
      CollectSame(xs[1..], f, g);
    }
  }
}
