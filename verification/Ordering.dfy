/** The parts of the C++ `<algorithm>` header the program leans on: sort, unique and lower_bound,
    with the facts that make their results independent of how they are computed. */
module Ordering {

  ghost predicate TotalPreorder<T(!new)>(le: (T, T) -> bool) {
    && (forall a, b :: le(a, b) || le(b, a))
    && (forall a, b, c :: le(a, b) && le(b, c) ==> le(a, c))
  }

  ghost predicate Antisymmetric<T(!new)>(le: (T, T) -> bool) {
    forall a, b :: le(a, b) && le(b, a) ==> a == b
  }

  ghost predicate TotalOrder<T(!new)>(le: (T, T) -> bool) {
    TotalPreorder(le) && Antisymmetric(le)
  }

  ghost predicate SortedBy<T>(s: seq<T>, le: (T, T) -> bool) {
    forall i, j :: 0 <= i < j < |s| ==> le(s[i], s[j])
  }

  ghost predicate NoDuplicates<T>(s: seq<T>) {
    forall i, j :: 0 <= i < j < |s| ==> s[i] != s[j]
  }

  ghost predicate SameElements<T(!new)>(a: seq<T>, b: seq<T>) {
    forall x :: x in a <==> x in b
  }

  function Insert<T>(x: T, s: seq<T>, le: (T, T) -> bool): (r: seq<T>)
    ensures multiset(r) == multiset(s) + multiset{x}
  {
    if s == [] || le(x, s[0]) then
      [x] + s
    else
      assert s == [s[0]] + s[1..];
      [s[0]] + Insert(x, s[1..], le)
  }

  lemma {:induction false} InsertSorted<T(!new)>(x: T, s: seq<T>, le: (T, T) -> bool)
    requires TotalPreorder(le) && SortedBy(s, le)
    ensures SortedBy(Insert(x, s, le), le)
  {
    if s == [] {
    } else if le(x, s[0]) {
      forall j | 0 <= j < |s| ensures le(x, s[j]) {
        assert j == 0 || le(s[0], s[j]);
      }
    } else {
      var rest := Insert(x, s[1..], le);
      InsertSorted(x, s[1..], le);
      forall j | 0 <= j < |rest| ensures le(s[0], rest[j]) {
        assert rest[j] in multiset(rest);
        assert rest[j] in multiset(s[1..]) + multiset{x};
        if rest[j] != x {
          assert rest[j] in s[1..];
        }
      }
    }
  }

  /** `std::sort`: nothing is said about the order of elements the comparison ties. */
  method Sort<T(!new)>(s: seq<T>, le: (T, T) -> bool) returns (r: seq<T>)
    requires TotalPreorder(le)
    ensures SortedBy(r, le)
    ensures multiset(r) == multiset(s)
  {
    r := [];
    for i := 0 to |s|
      invariant SortedBy(r, le)
      invariant multiset(r) == multiset(s[..i])
    {
      InsertSorted(s[i], r, le);
      r := Insert(s[i], r, le);
      assert s[..i + 1] == s[..i] + [s[i]];
    }
    assert s[..|s|] == s;
  }

  /** `std::unique` followed by `erase`, on a sorted vector. */
  method Unique<T(==, !new)>(s: seq<T>, ghost le: (T, T) -> bool) returns (r: seq<T>)
    requires TotalOrder(le) && SortedBy(s, le)
    ensures SortedBy(r, le) && NoDuplicates(r) && SameElements(r, s) && |r| <= |s|
  {
    r := [];
    for i := 0 to |s|
      invariant SortedBy(r, le) && NoDuplicates(r) && SameElements(r, s[..i]) && |r| <= i
      invariant i > 0 ==> r != [] && r[|r| - 1] == s[i - 1]
    {
      assert s[..i + 1] == s[..i] + [s[i]];
      if r == [] || r[|r| - 1] != s[i] {
        forall k | 0 <= k < |r| ensures le(r[k], s[i]) && r[k] != s[i] {
          assert r[k] in s[..i] && (k == |r| - 1 || le(r[k], r[|r| - 1]));
          assert r[|r| - 1] == s[i - 1] && le(s[i - 1], s[i]);
        }
        r := r + [s[i]];
      }
    }
    assert s[..|s|] == s;
  }

  /** `std::lower_bound` on [lo, hi): the first position the test does not hold at. */
  method LowerBound<T>(s: seq<T>, lo: nat, hi: nat, before: T -> bool) returns (k: nat)
    requires lo <= hi <= |s|
    requires forall i, j :: lo <= i < j < hi && before(s[j]) ==> before(s[i])
    ensures lo <= k <= hi
    ensures forall i :: lo <= i < k ==> before(s[i])
    ensures forall i :: k <= i < hi ==> !before(s[i])
  {
    k := lo;
    var end := hi;
    while k < end
      invariant lo <= k <= end <= hi
      invariant forall i :: lo <= i < k ==> before(s[i])
      invariant forall i :: end <= i < hi ==> !before(s[i])
    {
      var mid := (k + end) / 2;
      if before(s[mid]) {
        k := mid + 1;
      } else {
        end := mid;
      }
    }
  }

  lemma HeadIn<T>(s: seq<T>)
    ensures s == [] || s[0] in s
  {
  }

  /** A strictly sorted vector is determined by its elements. */
  lemma {:induction false} StrictlySortedUnique<T(!new)>(a: seq<T>, b: seq<T>, le: (T, T) -> bool)
    requires TotalOrder(le)
    requires SortedBy(a, le) && NoDuplicates(a) && SortedBy(b, le) && NoDuplicates(b)
    requires SameElements(a, b)
    ensures a == b
  {
    HeadIn(a);
    HeadIn(b);
    if a != [] {
      assert le(a[0], b[0]) && le(b[0], a[0]);
      forall x ensures x in a[1..] <==> x in b[1..] {
        assert x in a[1..] <==> x in a && x != a[0];
        assert x in b[1..] <==> x in b && x != b[0];
      }
      StrictlySortedUnique(a[1..], b[1..], le);
    }
  }

  /** Two sorted permutations of each other are equal. */
  lemma {:induction false} SortedPermutationUnique<T(!new)>(a: seq<T>, b: seq<T>, le: (T, T) -> bool)
    requires TotalPreorder(le)
    requires forall x, y :: x in a && y in a && le(x, y) && le(y, x) ==> x == y
    requires SortedBy(a, le) && SortedBy(b, le) && multiset(a) == multiset(b)
    ensures a == b
  {
    hide SortedBy;
    assert |a| == |multiset(a)| == |multiset(b)| == |b|;
    if a != [] {
      HeadIsLeast(a, b[0], le);
      HeadIsLeast(b, a[0], le);
      assert a[0] in multiset(b) && b[0] in multiset(a);
      assert a[0] == b[0];
      SortedPermutationUnique(a[1..], b[1..], le);
    }
  }

  lemma HeadIsLeast<T(!new)>(s: seq<T>, x: T, le: (T, T) -> bool)
    requires TotalPreorder(le) && SortedBy(s, le) && s != []
    ensures x in s ==> le(s[0], x)
    ensures SortedBy(s[1..], le) && multiset(s[1..]) == multiset(s) - multiset{s[0]}
    ensures s[0] in s && forall y :: y in s[1..] ==> y in s
  {
    assert s == [s[0]] + s[1..];
    if x in s {
      var i :| 0 <= i < |s| && s[i] == x;
      assert i == 0 || le(s[0], s[i]);
    }
  }

  lemma SameMultisetSameElements<T(!new)>(a: seq<T>, b: seq<T>)
    requires multiset(a) == multiset(b)
    ensures SameElements(a, b) && |a| == |b|
  {
    assert |a| == |multiset(a)| == |multiset(b)| == |b|;
    forall x ensures x in a <==> x in b {
      assert x in multiset(a) <==> x in multiset(b);
    }
  }
}
