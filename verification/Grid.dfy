/** The addresses a scan visits: from a start, in steps of 1, 2, 4 or 8 bytes, up to a bound. */
module Grid {
  import opened Machine

  /** `d` is a whole number of steps. */
  predicate Whole(d: nat, s: nat)
    requires s > 0
  {
    d == 0 || (d >= s && Whole(d - s, s))
  }

  /** `(n / s) * s`: the steps that fit into `n`. */
  function RoundDown(n: nat, s: nat): (r: nat)
    requires s > 0
    ensures r <= n < r + s && Whole(r, s)
  {
    if n < s then 0 else s + RoundDown(n - s, s)
  }

  /** `(n + s - 1) & ~(s - 1)`: the first aligned address at or after `n`. */
  function RoundUp(n: nat, s: nat): (r: nat)
    requires s > 0
    ensures n <= r < n + s && Whole(r, s)
  {
    RoundDown(n + s - 1, s)
  }

  /** Rounding down is what division and multiplication make of it. */
  lemma {:induction false} RoundDownIsQuotient(n: nat, s: nat)
    requires s > 0
    ensures RoundDown(n, s) == n / s * s == n - n % s
  {
    if n < s {
      RemainderIs(n, s, 0, n);
    } else {
      RoundDownIsQuotient(n - s, s);
      var q, r := (n - s) / s, (n - s) % s;
      assert n - s == q * s + r;
      assert (q + 1) * s == q * s + s;
      RemainderIs(n, s, q + 1, r);
    }
  }

  lemma WholeIsMultiple(d: nat, s: nat)
    requires s > 0
    ensures Whole(d, s) <==> d % s == 0
  {
    RoundDownIsQuotient(d, s);
    if Whole(d, s) { RoundDownIs(d, d, s); }
  }

  lemma {:induction false} WholeAdds(a: nat, b: nat, s: nat)
    requires s > 0 && Whole(a, s)
    ensures Whole(a + b, s) <==> Whole(b, s)
  {
    if a > 0 { WholeAdds(a - s, b, s); }
  }

  lemma {:induction false} WholeMultiple(k: nat, s: nat)
    requires s > 0
    ensures Whole(k * s, s)
  {
    if k > 0 {
      WholeMultiple(k - 1, s);
      assert k * s == (k - 1) * s + s;
    }
  }

  lemma WholeAtLeast(d: nat, s: nat)
    requires s > 0 && Whole(d, s)
    ensures d == 0 || d >= s
  {
  }

  /** Rounding down finds the step a number lies in. */
  lemma RoundDownIs(x: nat, a: nat, s: nat)
    requires s > 0 && Whole(a, s) && a <= x < a + s
    ensures RoundDown(x, s) == a
  {
    var b := RoundDown(x, s);
    WholeAdds(Min(a, b), Abs(a - b), s);
    WholeAtLeast(Abs(a - b), s);
  }

  lemma {:induction false} WholeBytes(d: nat)
    ensures Whole(d, 1)
  {
    if d > 0 { WholeBytes(d - 1); }
  }

  function Walk(from: nat, to: int, step: nat): (r: seq<nat>)
    requires step > 0
    ensures forall i :: 0 <= i < |r| ==> from <= r[i] && r[i] < to
    decreases if from < to then to - from else 0
  {
    if from >= to then [] else [from] + Walk(from + step, to, step)
  }

  /** A walk can be cut at any of its points. */
  lemma {:induction false} WalkSplit(from: nat, mid: nat, to: int, step: nat)
    requires step > 0 && from <= mid && Whole(mid - from, step)
    ensures Walk(from, Min(mid, to), step) + Walk(mid, to, step) == Walk(from, to, step)
    decreases mid - from
  {
    if from < mid && from < to {
      WalkSplit(from + step, mid, to, step);
    }
  }

  /** Bounds that fall into the same step give the same walk. */
  lemma {:induction false} WalkBound(from: nat, end: nat, to: int, step: nat)
    requires step > 0 && from <= end && Whole(end - from, step)
    requires end < to + step && to <= end
    ensures Walk(from, to, step) == Walk(from, end, step)
    decreases end - from
  {
    if from < end {
      WalkBound(from + step, end, to, step);
    }
  }

  /** Membership: the points between the bounds that lie on the grid. */
  lemma {:induction false} WalkMember(from: nat, to: int, step: nat, a: nat)
    requires step > 0
    ensures a in Walk(from, to, step) <==> from <= a && a < to && Whole(a - from, step)
    decreases if from < to then to - from else 0
  {
    if from < to {
      WalkMember(from + step, to, step, a);
      assert Walk(from, to, step) == [from] + Walk(from + step, to, step);
    }
  }
}
