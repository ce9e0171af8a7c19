/**
 Comparing chain files: which chains are in all of them. Two files are intersected by sorting both and
 merging, directly or bucket by bucket after hashing; more files by counting in a map how many in a row
 have held each chain.
 */
module Intersection {
  import opened Machine
  import opened Ordering
  import opened Varint

  const CANDIDATE_LIMIT := 5_000_000

  // ---- the order of chains ----

  predicate OffsetsLess(a: seq<i64>, b: seq<i64>) {
    if b == [] then false
    else if a == [] then true
    else a[0] < b[0] || (a[0] == b[0] && OffsetsLess(a[1..], b[1..]))
  }

  predicate ChainLess(a: Chain, b: Chain) {
    if a.base != b.base then a.base < b.base else OffsetsLess(a.offsets, b.offsets)
  }

  predicate ChainLe(a: Chain, b: Chain) { !ChainLess(b, a) }

  lemma {:induction false} OffsetsLessTotal(a: seq<i64>, b: seq<i64>)
    ensures a == b || OffsetsLess(a, b) || OffsetsLess(b, a)
    ensures !(OffsetsLess(a, b) && OffsetsLess(b, a))
    ensures !OffsetsLess(a, a)
  {
    if a != [] { OffsetsLessTotal(a[1..], a[1..]); }
    if a != [] && b != [] {
      OffsetsLessTotal(a[1..], b[1..]);
      assert a == [a[0]] + a[1..] && b == [b[0]] + b[1..];
    }
  }

  lemma {:induction false} OffsetsLessTransitive(a: seq<i64>, b: seq<i64>, c: seq<i64>)
    requires OffsetsLess(a, b) && OffsetsLess(b, c)
    ensures OffsetsLess(a, c)
  {
    if a != [] && a[0] == b[0] && b[0] == c[0] { OffsetsLessTransitive(a[1..], b[1..], c[1..]); }
  }

  /** The comparison given to `std::sort` is a strict weak order under which only equal chains tie. */
  lemma ChainOrderIsTotal()
    ensures TotalOrder(ChainLe)
    ensures forall a, b :: ChainLess(a, b) <==> ChainLe(a, b) && a != b
  {
    forall a, b ensures ChainLe(a, b) || ChainLe(b, a)
      ensures ChainLess(a, b) <==> ChainLe(a, b) && a != b
      ensures ChainLe(a, b) && ChainLe(b, a) ==> a == b
    {
      OffsetsLessTotal(a.offsets, b.offsets);
    }
    forall a, b, c | ChainLe(a, b) && ChainLe(b, c) ensures ChainLe(a, c) {
      OffsetsLessTotal(a.offsets, b.offsets);
      OffsetsLessTotal(b.offsets, c.offsets);
      OffsetsLessTotal(a.offsets, c.offsets);
      if a.base == b.base == c.base && OffsetsLess(a.offsets, b.offsets) && OffsetsLess(b.offsets, c.offsets) {
        OffsetsLessTransitive(a.offsets, b.offsets, c.offsets);
      }
    }
  }

  // ---- what all three algorithms compute ----

  function Shared(a: seq<Chain>, b: seq<Chain>): set<Chain> { set c | c in a && c in b }

  /** `r` lists the chains both lists hold, each once. */
  ghost predicate IsIntersection(r: seq<Chain>, a: seq<Chain>, b: seq<Chain>) {
    NoDuplicates(r) && forall c :: c in r <==> c in a && c in b
  }

  lemma {:induction false} SizeOfList(r: seq<Chain>)
    requires NoDuplicates(r)
    ensures |set c | c in r| == |r|
  {
    if r != [] {
      var init, last := r[..|r| - 1], r[|r| - 1];
      assert r == init + [last];
      SizeOfList(init);
      assert last !in init;
      assert (set c | c in r) == (set c | c in init) + {last};
    } else {
      assert (set c | c in r) == {};
    }
  }

  lemma SizeOfIntersection(r: seq<Chain>, a: seq<Chain>, b: seq<Chain>)
    requires IsIntersection(r, a, b)
    ensures |r| == |Shared(a, b)|
  {
    SizeOfList(r);
    assert (set c | c in r) == Shared(a, b);
  }

  /** Some of the shared chains, each once, are at most all of them. */
  lemma SizeOfPart(r: seq<Chain>, a: seq<Chain>, b: seq<Chain>)
    requires NoDuplicates(r) && forall c :: c in r ==> c in a && c in b
    ensures |r| <= |Shared(a, b)|
  {
    SizeOfList(r);
    var part := set c | c in r;
    assert part <= Shared(a, b);
    SubsetSize(part, Shared(a, b));
  }

  lemma {:induction false} SubsetSize<T>(x: set<T>, y: set<T>)
    requires x <= y
    ensures |x| <= |y|
  {
    if x != {} {
      var e :| e in x;
      SubsetSize(x - {e}, y - {e});
    }
  }

  // ---- the merge of two sorted lists ----

  predicate InRest(s: seq<Chain>, i: nat, c: Chain)
    requires i <= |s|
  {
    c in s[i..]
  }

  /** Where the merge stands: every shared chain is found or still ahead in both lists, and what was found is behind. */
  ghost predicate MergeState(a: seq<Chain>, b: seq<Chain>, ia: nat, ib: nat, r: seq<Chain>)
    requires ia <= |a| && ib <= |b|
  {
    && NoDuplicates(r) && (forall c :: c in r ==> c in a && c in b)
    && (forall c :: c in a && c in b ==> c in r || (InRest(a, ia, c) && InRest(b, ib, c)))
    && (forall c, k :: c in r && ia <= k < |a| ==> ChainLess(c, a[k]))
    && (forall c, k :: c in r && ib <= k < |b| ==> ChainLess(c, b[k]))
  }

  lemma MergeStart(a: seq<Chain>, b: seq<Chain>)
    ensures MergeState(a, b, 0, 0, [])
  {
    assert a[0..] == a && b[0..] == b;
  }

  lemma MergeSymmetric(a: seq<Chain>, b: seq<Chain>, ia: nat, ib: nat, r: seq<Chain>)
    requires ia <= |a| && ib <= |b| && MergeState(a, b, ia, ib, r)
    ensures MergeState(b, a, ib, ia, r)
  {
  }

  /** The smaller head is not in the other list. */
  lemma MergeSkip(a: seq<Chain>, b: seq<Chain>, ia: nat, ib: nat, r: seq<Chain>)
    requires ia < |a| && ib < |b| && MergeState(a, b, ia, ib, r)
    requires SortedBy(b, ChainLe) && ChainLess(a[ia], b[ib])
    ensures MergeState(a, b, ia + 1, ib, r)
  {
    ChainOrderIsTotal();
    assert a[ia..] == [a[ia]] + a[ia + 1..];
    forall k | ib <= k < |b| ensures b[k] != a[ia] {
      assert k == ib || ChainLe(b[ib], b[k]);
    }
  }

  /** The run of one chain at `i`, up to `next`. */
  predicate Run(s: seq<Chain>, i: nat, next: nat, m: Chain) {
    && i < next <= |s| && (forall k :: i <= k < next ==> s[k] == m) && (next < |s| ==> s[next] != m)
  }

  lemma RunDropped(s: seq<Chain>, i: nat, next: nat, m: Chain, c: Chain)
    requires SortedBy(s, ChainLe) && Run(s, i, next, m)
    ensures c != m && InRest(s, i, c) ==> InRest(s, next, c)
    ensures forall k :: next <= k < |s| ==> ChainLess(m, s[k])
  {
    ChainOrderIsTotal();
    assert s[i..] == s[i..next] + s[next..];
    forall k | next <= k < |s| ensures ChainLess(m, s[k]) {
      assert ChainLe(s[i], s[next]) && (k == next || ChainLe(s[next], s[k]));
    }
  }

  /** Equal heads are one shared chain; both runs of it are passed. */
  lemma MergeMatch(a: seq<Chain>, b: seq<Chain>, ia: nat, ib: nat, ja: nat, jb: nat, r: seq<Chain>, m: Chain)
    requires ia < |a| && ib < |b| && MergeState(a, b, ia, ib, r)
    requires SortedBy(a, ChainLe) && SortedBy(b, ChainLe) && Run(a, ia, ja, m) && Run(b, ib, jb, m)
    ensures MergeState(a, b, ja, jb, r + [m])
  {
    ChainOrderIsTotal();
    RunDropped(a, ia, ja, m, m);
    RunDropped(b, ib, jb, m, m);
    assert a[ia] == m && b[ib] == m;
    assert m !in r;
    forall c | c in a && c in b && c !in r + [m] ensures InRest(a, ja, c) && InRest(b, jb, c) {
      RunDropped(a, ia, ja, m, c);
      RunDropped(b, ib, jb, m, c);
    }
    forall c, k | c in r + [m] && ja <= k < |a| ensures ChainLess(c, a[k]) {}
    forall c, k | c in r + [m] && jb <= k < |b| ensures ChainLess(c, b[k]) {}
  }

  /** One list is used up: everything shared is found. */
  lemma MergeEnd(a: seq<Chain>, b: seq<Chain>, ia: nat, ib: nat, r: seq<Chain>)
    requires ia <= |a| && ib <= |b| && MergeState(a, b, ia, ib, r) && (ia == |a| || ib == |b|)
    ensures IsIntersection(r, a, b)
  {
  }

  /**
   Merges two sorted lists behind the candidates found before. It fails exactly when shared chains are there and the
   candidates reach the limit with them.
   */
  method MergeCommon(a: seq<Chain>, b: seq<Chain>, before: seq<Chain>) returns (ok: bool, candidates: seq<Chain>)
    requires SortedBy(a, ChainLe) && SortedBy(b, ChainLe) && |before| < CANDIDATE_LIMIT
    ensures ok <==> |before| + |Shared(a, b)| < CANDIDATE_LIMIT
    ensures ok ==> exists r :: candidates == before + r && IsIntersection(r, a, b)
  {
    hide MergeState, IsIntersection, ChainLess, ChainLe;
    ChainOrderIsTotal();
    candidates := before;
    ghost var r: seq<Chain> := [];
    var ia, ib := 0, 0;
    MergeStart(a, b);
    while ia < |a| && ib < |b|
      invariant ia <= |a| && ib <= |b| && MergeState(a, b, ia, ib, r)
      invariant candidates == before + r && |candidates| < CANDIDATE_LIMIT
      decreases |a| - ia + |b| - ib
    {
      if ChainLess(a[ia], b[ib]) {
        MergeSkip(a, b, ia, ib, r);
        ia := ia + 1;
        continue;
      }
      if ChainLess(b[ib], a[ia]) {
        MergeSymmetric(a, b, ia, ib, r);
        MergeSkip(b, a, ib, ia, r);
        MergeSymmetric(b, a, ib + 1, ia, r);
        ib := ib + 1;
        continue;
      }
      assert a[ia] == b[ib] by { HeadsEqual(a[ia], b[ib]); }
      var matched := a[ia];
      candidates := candidates + [matched];
      ghost var ja, jb := EndOfRun(a, ia), EndOfRun(b, ib);
      MergeMatch(a, b, ia, ib, ja, jb, r, matched);
      r := r + [matched];
      if |candidates| >= CANDIDATE_LIMIT {
        PartOfShared(a, b, ja, jb, r);
        return false, candidates;
      }
      while ia < |a| && a[ia] == matched
        invariant ia <= ja
        invariant forall k :: ia <= k < ja ==> a[k] == matched
        decreases |a| - ia
      {
        ia := ia + 1;
      }
      while ib < |b| && b[ib] == matched
        invariant ib <= jb
        invariant forall k :: ib <= k < jb ==> b[k] == matched
        decreases |b| - ib
      {
        ib := ib + 1;
      }
    }
    MergeEnd(a, b, ia, ib, r);
    SizeOfIntersection(r, a, b);
    ok := true;
  }

  ghost function EndOfRun(s: seq<Chain>, i: nat): (j: nat)
    requires i < |s|
    ensures Run(s, i, j, s[i])
    decreases |s| - i
  {
    if i + 1 < |s| && s[i + 1] == s[i] then EndOfRun(s, i + 1) else i + 1
  }

  lemma HeadsEqual(a: Chain, b: Chain)
    requires !ChainLess(a, b) && !ChainLess(b, a)
    ensures a == b
  {
    ChainOrderIsTotal();
    assert ChainLe(a, b);
  }

  lemma PartOfShared(a: seq<Chain>, b: seq<Chain>, ia: nat, ib: nat, r: seq<Chain>)
    requires ia <= |a| && ib <= |b| && MergeState(a, b, ia, ib, r)
    ensures |r| <= |Shared(a, b)|
  {
    SizeOfPart(r, a, b);
  }

  // ---- two files ----

  /** Both lists sorted and merged: what is done with two files, or with one pair of buckets. */
  method SortAndMerge(a: seq<Chain>, b: seq<Chain>, before: seq<Chain>) returns (ok: bool, candidates: seq<Chain>)
    requires |before| < CANDIDATE_LIMIT
    ensures ok <==> |before| + |Shared(a, b)| < CANDIDATE_LIMIT
    ensures ok ==> exists r :: candidates == before + r && IsIntersection(r, a, b)
  {
    hide ChainLess, ChainLe;
    ChainOrderIsTotal();
    var sortedA := Sort(a, ChainLe);
    var sortedB := Sort(b, ChainLe);
    SameMultisetSameElements(sortedA, a);
    SameMultisetSameElements(sortedB, b);
    assert Shared(sortedA, sortedB) == Shared(a, b);
    ok, candidates := MergeCommon(sortedA, sortedB, before);
    if ok {
      ghost var r :| candidates == before + r && IsIntersection(r, sortedA, sortedB);
      assert IsIntersection(r, a, b);
    }
  }

  predicate Loads(file: Option<seq<Chain>>) { file.Some? && |file.value| <= CANDIDATE_LIMIT }

  /** What streaming a file gave: its chains, or a failure. At most the limit are kept. */
  method LoadAll(file: Option<seq<Chain>>) returns (ok: bool, list: seq<Chain>)
    ensures ok <==> Loads(file)
    ensures ok ==> list == file.value
  {
    if file.None? {
      return false, [];
    }
    list := [];
    for i := 0 to |file.value|
      invariant list == file.value[..i] && i <= CANDIDATE_LIMIT
    {
      list := list + [file.value[i]];
      if |list| > CANDIDATE_LIMIT {
        return false, list;
      }
    }
    ok := true;
  }

  /** How intersecting ends: with a list, with a file that was not read, or with more shared chains than are allowed. */
  datatype Outcome = Listed | Unread | TooMany

  method IntersectDirectly(a: Option<seq<Chain>>, b: Option<seq<Chain>>)
    returns (outcome: Outcome, candidates: seq<Chain>)
    ensures outcome == Unread <==> !Loads(a) || !Loads(b)
    ensures outcome == TooMany <==> Loads(a) && Loads(b) && |Shared(a.value, b.value)| >= CANDIDATE_LIMIT
    ensures outcome == Listed ==> IsIntersection(candidates, a.value, b.value)
  {
    hide IsIntersection;
    outcome, candidates := Unread, [];
    var ok, listA, listB;
    ok, listA := LoadAll(a);
    if !ok {
      return;
    }
    ok, listB := LoadAll(b);
    if !ok {
      return;
    }
    if listA != [] && listB != [] {
      ok, candidates := SortAndMerge(listA, listB, []);
      if !ok {
        return TooMany, candidates;
      }
      ghost var r :| candidates == [] + r && IsIntersection(r, listA, listB);
      assert candidates == r;
    } else {
      assert Shared(listA, listB) == {};
      NothingShared(listA, listB);
    }
    outcome := Listed;
  }

  lemma NothingShared(a: seq<Chain>, b: seq<Chain>)
    requires a == [] || b == []
    ensures IsIntersection([], a, b)
  {
  }

  // ---- two large files, by buckets ----

  function BitAnd(x: nat, y: nat): nat {
    if x == 0 || y == 0 then 0 else (if x % 2 == 1 && y % 2 == 1 then 1 else 0) + 2 * BitAnd(x / 2, y / 2)
  }

  /** Masking never leaves the mask, whatever the hash. */
  lemma {:induction false} BitAndBound(x: nat, y: nat)
    ensures BitAnd(x, y) <= y
  {
    if x > 0 && y > 0 { BitAndBound(x / 2, y / 2); }
  }

  predicate PowerOfTwo(n: nat) { n == 1 || (n > 1 && n % 2 == 0 && PowerOfTwo(n / 2)) }

  /** With a power of two, masking is the remainder: every bucket can be reached. */
  lemma {:induction false} MaskIsRemainder(x: nat, count: nat)
    requires PowerOfTwo(count)
    ensures BitAnd(x, count - 1) == x % count
  {
    if count > 1 {
      var half := count / 2;
      MaskIsRemainder(x / 2, half);
      assert (count - 1) / 2 == half - 1 && (count - 1) % 2 == 1;
      HalfRemainder(x, half);
    }
  }

  lemma HalfRemainder(x: nat, half: nat)
    requires half > 0
    ensures x % (2 * half) == x % 2 + 2 * ((x / 2) % half)
  {
    var q, r := (x / 2) / half, (x / 2) % half;
    assert x / 2 == q * half + r;
    assert x == 2 * (x / 2) + x % 2;
    assert x == q * (2 * half) + (x % 2 + 2 * r);
    RemainderIs(x, 2 * half, q, x % 2 + 2 * r);
  }

  function BucketOf(c: Chain, hash: Chain -> u64, count: nat): nat
    requires count > 0
  {
    BitAnd(hash(c), count - 1)
  }

  /** Buckets double until each holds 32 MiB of the larger file, up to 256 of them. */
  method BucketCount(sizeA: nat, sizeB: nat) returns (count: nat)
    ensures PowerOfTwo(count) && count <= 256
    ensures count == 256 || Max(sizeA, sizeB) / count <= 0x200_0000
    ensures count > 1 ==> Max(sizeA, sizeB) / (count / 2) > 0x200_0000
  {
    count := 1;
    var total := Max(sizeA, sizeB);
    while count < 256 && total / count > 32 * 1024 * 1024
      invariant PowerOfTwo(count) && count in {1, 2, 4, 8, 16, 32, 64, 128, 256}
      invariant count > 1 ==> total / (count / 2) > 0x200_0000
      decreases 256 - count
    {
      count := 2 * count;
    }
  }

  ghost predicate Distributed(buckets: seq<seq<Chain>>, list: seq<Chain>, hash: Chain -> u64, count: nat)
    requires count > 0
  {
    |buckets| == count && forall i, c :: 0 <= i < count ==>
      (c in buckets[i] <==> c in list && BucketOf(c, hash, count) == i)
  }

  /** Appends each chain to the bucket its hash chooses. */
  method Distribute(list: seq<Chain>, hash: Chain -> u64, count: nat) returns (buckets: seq<seq<Chain>>)
    requires count > 0
    ensures Distributed(buckets, list, hash, count)
  {
    hide BucketOf;
    buckets := seq(count, _ => []);
    for n := 0 to |list|
      invariant Distributed(buckets, list[..n], hash, count)
    {
      var at := BucketOf(list[n], hash, count);
      BitAndBound(hash(list[n]), count - 1);
      BucketInRange(list[n], hash, count);
      assert list[..n + 1] == list[..n] + [list[n]];
      buckets := buckets[at := buckets[at] + [list[n]]];
    }
    assert list[..|list|] == list;
  }

  lemma BucketInRange(c: Chain, hash: Chain -> u64, count: nat)
    requires count > 0
    ensures BucketOf(c, hash, count) < count
  {
    BitAndBound(hash(c), count - 1);
  }

  /** The candidates after the first `i` buckets: the shared chains that fall into them. */
  ghost predicate FoundBelow(r: seq<Chain>, a: seq<Chain>, b: seq<Chain>, hash: Chain -> u64, count: nat, i: nat)
    requires count > 0
  {
    NoDuplicates(r) && forall c :: c in r <==> c in a && c in b && BucketOf(c, hash, count) < i
  }

  /** The candidates so far and what bucket `i` adds. */
  lemma AddBucket(r: seq<Chain>, more: seq<Chain>, a: seq<Chain>, b: seq<Chain>, hash: Chain -> u64, count: nat, i: nat,
                  bucketA: seq<Chain>, bucketB: seq<Chain>)
    requires count > 0 && FoundBelow(r, a, b, hash, count, i) && IsIntersection(more, bucketA, bucketB)
    requires forall c :: c in bucketA <==> c in a && BucketOf(c, hash, count) == i
    requires forall c :: c in bucketB <==> c in b && BucketOf(c, hash, count) == i
    ensures FoundBelow(r + more, a, b, hash, count, i + 1)
    ensures |r| + |more| <= |Shared(a, b)|
  {
    hide BucketOf;
    var all := r + more;
    assert forall c :: c in all <==> c in r || c in more;
    assert forall c :: c in r ==> c !in more;
    DistinctAppend(r, more);
    SizeOfPart(all, a, b);
  }

  lemma DistinctAppend(r: seq<Chain>, more: seq<Chain>)
    requires NoDuplicates(r) && NoDuplicates(more) && forall c :: c in r ==> c !in more
    ensures NoDuplicates(r + more)
  {
    forall i, j | 0 <= i < j < |r + more| ensures (r + more)[i] != (r + more)[j] {
      assert i < |r| <= j ==> r[i] in r && more[j - |r|] in more;
    }
  }

  /** The intersection of two lists always has some listing. */
  lemma SomeIntersection(a: seq<Chain>, b: seq<Chain>) returns (r: seq<Chain>)
    ensures IsIntersection(r, a, b) && |r| == |Shared(a, b)|
  {
    r := Listing(Shared(a, b));
    SizeOfIntersection(r, a, b);
  }

  ghost function Listing(s: set<Chain>): (r: seq<Chain>)
    ensures NoDuplicates(r) && forall c :: c in r <==> c in s
  {
    if s == {} then [] else
      var c :| c in s;
      [c] + Listing(s - {c})
  }

  method IntersectByBuckets(a: Option<seq<Chain>>, b: Option<seq<Chain>>, hash: Chain -> u64, count: nat)
    returns (outcome: Outcome, candidates: seq<Chain>)
    requires count > 0
    ensures outcome == Unread <==> a.None? || b.None?
    ensures outcome == TooMany <==> a.Some? && b.Some? && |Shared(a.value, b.value)| >= CANDIDATE_LIMIT
    ensures outcome == Listed ==> IsIntersection(candidates, a.value, b.value)
  {
    hide BucketOf, IsIntersection, FoundBelow;
    candidates := [];
    if a.None? || b.None? {
      return Unread, candidates;
    }
    var bucketsA := Distribute(a.value, hash, count);
    var bucketsB := Distribute(b.value, hash, count);
    NothingBelow(a.value, b.value, hash, count);
    for i := 0 to count
      invariant FoundBelow(candidates, a.value, b.value, hash, count, i) && |candidates| < CANDIDATE_LIMIT
    {
      var listA, listB := bucketsA[i], bucketsB[i];
      ghost var before := candidates;
      ghost var more := SomeIntersection(listA, listB);
      AddBucket(before, more, a.value, b.value, hash, count, i, listA, listB);
      if listA == [] || listB == [] {
        assert Shared(listA, listB) == {};
        assert before + more == before;
        continue;
      }
      var ok;
      ok, candidates := SortAndMerge(listA, listB, candidates);
      if !ok {
        return TooMany, candidates;
      }
      more :| candidates == before + more && IsIntersection(more, listA, listB);
      SizeOfIntersection(more, listA, listB);
      AddBucket(before, more, a.value, b.value, hash, count, i, listA, listB);
    }
    AllBelow(candidates, a.value, b.value, hash, count);
    outcome := Listed;
  }

  const BUCKET_THRESHOLD := 128 * 1024 * 1024

  predicate UseBuckets(sizeA: nat, sizeB: nat, fast: bool) { fast && sizeA + sizeB >= BUCKET_THRESHOLD }

  /**
   Neither way reads a file that does not decode; without buckets a file must not be longer than the limit, either.
   */
  predicate BothRead(a: Option<seq<Chain>>, b: Option<seq<Chain>>, buckets: bool) {
    if buckets then a.Some? && b.Some? else Loads(a) && Loads(b)
  }

  /** Two files: the smaller goes first; large ones are split into buckets in fast mode. */
  method IntersectPair(fileA: Option<seq<Chain>>, fileB: Option<seq<Chain>>, sizeA: nat, sizeB: nat, fast: bool,
                       hash: Chain -> u64) returns (outcome: Outcome, candidates: seq<Chain>)
    ensures outcome == Unread <==> !BothRead(fileA, fileB, UseBuckets(sizeA, sizeB, fast))
    ensures outcome == Unread <==>
      fileA.None? || fileB.None?
      || ((!fast || sizeA + sizeB < 0x800_0000) && (|fileA.value| > 5_000_000 || |fileB.value| > 5_000_000))
    ensures outcome == TooMany <==>
      outcome != Unread && |set c | c in fileA.value && c in fileB.value| >= 5_000_000
    ensures outcome == Listed ==> IsIntersection(candidates, fileA.value, fileB.value)
  {
    var small, large := if sizeA <= sizeB then fileA else fileB, if sizeA <= sizeB then fileB else fileA;
    if UseBuckets(sizeA, sizeB, fast) {
      var count := BucketCount(sizeA, sizeB);
      outcome, candidates := IntersectByBuckets(small, large, hash, count);
    } else {
      outcome, candidates := IntersectDirectly(small, large);
    }
    if small.Some? && large.Some? {
      assert Shared(small.value, large.value) == Shared(large.value, small.value);
    }
  }

  lemma NothingBelow(a: seq<Chain>, b: seq<Chain>, hash: Chain -> u64, count: nat)
    requires count > 0
    ensures FoundBelow([], a, b, hash, count, 0)
  {
  }

  lemma AllBelow(r: seq<Chain>, a: seq<Chain>, b: seq<Chain>, hash: Chain -> u64, count: nat)
    requires count > 0 && FoundBelow(r, a, b, hash, count, count)
    ensures IsIntersection(r, a, b) && |r| == |Shared(a, b)|
  {
    hide BucketOf;
    forall c ensures c in r <==> c in a && c in b { BucketInRange(c, hash, count); }
    SizeOfIntersection(r, a, b);
  }

  // ---- more files, by counting ----

  function OffsetBytes(offsets: seq<i64>): (b: seq<byte>)
    ensures |b| == 8 * |offsets|
  {
    if offsets == [] then [] else StoreLE(ToU64(offsets[0]), 8) + OffsetBytes(offsets[1..])
  }

  /** The raw bytes of a chain, used as a map key. */
  function ChainKey(c: Chain): seq<byte> { StoreLE(c.base, 8) + OffsetBytes(c.offsets) }

  lemma {:induction false} OffsetBytesInjective(a: seq<i64>, b: seq<i64>)
    requires OffsetBytes(a) == OffsetBytes(b)
    ensures a == b
  {
    assert |a| == |b|;
    if a != [] {
      Pow256Values();
      LoadStore(ToU64(a[0]), 8);
      LoadStore(ToU64(b[0]), 8);
      assert OffsetBytes(a)[..8] == StoreLE(ToU64(a[0]), 8) && OffsetBytes(a)[8..] == OffsetBytes(a[1..]);
      assert OffsetBytes(b)[..8] == StoreLE(ToU64(b[0]), 8) && OffsetBytes(b)[8..] == OffsetBytes(b[1..]);
      assert ToI64(ToU64(a[0])) == a[0] && ToI64(ToU64(b[0])) == b[0];
      OffsetBytesInjective(a[1..], b[1..]);
      assert a == [a[0]] + a[1..] && b == [b[0]] + b[1..];
    }
  }

  /** Different chains have different keys. */
  lemma KeyInjective(a: Chain, b: Chain)
    ensures ChainKey(a) == ChainKey(b) <==> a == b
  {
    if ChainKey(a) == ChainKey(b) {
      assert ChainKey(a)[..8] == StoreLE(a.base, 8) && ChainKey(a)[8..] == OffsetBytes(a.offsets);
      assert ChainKey(b)[..8] == StoreLE(b.base, 8) && ChainKey(b)[8..] == OffsetBytes(b.offsets);
      Pow256Values();
      LoadStore(a.base, 8);
      LoadStore(b.base, 8);
      OffsetBytesInjective(a.offsets, b.offsets);
    }
  }

  datatype Seen = Seen(chain: Chain, count: nat)

  /** Is `c` in each of the files? */
  predicate InAll(files: seq<seq<Chain>>, c: Chain) {
    forall i :: 0 <= i < |files| ==> c in files[i]
  }

  /** After some files the map holds, under its own key and with their number, each chain that all of them hold. */
  ghost predicate Counted(m: map<seq<byte>, Seen>, files: seq<seq<Chain>>) {
    && (forall k :: k in m ==> k == ChainKey(m[k].chain) && m[k].count == |files| && InAll(files, m[k].chain))
    && (forall c :: InAll(files, c) ==> ChainKey(c) in m)
  }

  function KeysOf(list: seq<Chain>): set<seq<byte>> { set c | c in list :: ChainKey(c) }

  /** While a file is streamed, the chains of it that were in the map have moved on to the next number. */
  ghost predicate Counting(m: map<seq<byte>, Seen>, start: map<seq<byte>, Seen>, met: set<seq<byte>>,
                           matched: set<seq<byte>>, turn: nat) {
    && m.Keys == start.Keys && matched == met * m.Keys
    && forall k :: k in m ==> m[k] == Seen(start[k].chain, if k in met then turn + 1 else turn)
  }

  /** One later file: each of its chains that is still in the map counts once; the others are erased. */
  method CountFile(list: seq<Chain>, start: map<seq<byte>, Seen>, ghost files: seq<seq<Chain>>, turn: nat)
    returns (m: map<seq<byte>, Seen>)
    requires Counted(start, files) && turn == |files|
    ensures Counted(m, files + [list])
  {
    hide ChainKey, Counted;
    CountsAre(start, files);
    m := start;
    var matched: set<seq<byte>> := {};
    assert KeysOf(list[..0]) == {};
    for i := 0 to |list|
      invariant Counting(m, start, KeysOf(list[..i]), matched, turn)
    {
      var key := ChainKey(list[i]);
      MoreKeys(list, i);
      if key in m && m[key].count == turn && key !in matched {
        matched := matched + {key};
        m := m[key := Seen(m[key].chain, turn + 1)];
      }
    }
    assert list[..|list|] == list;
    m := map k | k in m && m[k].count == turn + 1 :: m[k];
    NextCount(m, start, files, list);
  }

  lemma CountsAre(m: map<seq<byte>, Seen>, files: seq<seq<Chain>>)
    requires Counted(m, files)
    ensures forall k :: k in m ==> m[k].count == |files|
  {
  }

  lemma MoreKeys(list: seq<Chain>, i: nat)
    requires i < |list|
    ensures KeysOf(list[..i + 1]) == KeysOf(list[..i]) + {ChainKey(list[i])}
  {
    assert list[..i + 1] == list[..i] + [list[i]];
  }

  lemma NextCount(m: map<seq<byte>, Seen>, start: map<seq<byte>, Seen>, files: seq<seq<Chain>>, list: seq<Chain>)
    requires Counted(start, files)
    requires forall k :: k in m <==> k in start && k in KeysOf(list)
    requires forall k :: k in m ==> m[k] == Seen(start[k].chain, |files| + 1)
    ensures Counted(m, files + [list])
  {
    hide ChainKey;
    var all := files + [list];
    forall c ensures InAll(all, c) <==> InAll(files, c) && c in list {
      assert all[|files|] == list && forall i :: 0 <= i < |files| ==> all[i] == files[i];
    }
    forall k | k in m ensures k == ChainKey(m[k].chain) && m[k].count == |all| && InAll(all, m[k].chain) {
      var c :| c in list && ChainKey(c) == k;
      KeyInjective(c, m[k].chain);
    }
    forall c | InAll(all, c) ensures ChainKey(c) in m {}
  }

  /** The first file: one entry for each of its chains, the first of equal ones. */
  method FirstFile(list: seq<Chain>) returns (m: map<seq<byte>, Seen>)
    ensures Counted(m, [list])
  {
    hide ChainKey;
    m := map[];
    assert KeysOf(list[..0]) == {};
    for i := 0 to |list|
      invariant m.Keys == KeysOf(list[..i])
      invariant forall k :: k in m ==> k == ChainKey(m[k].chain) && m[k].count == 1 && m[k].chain in list
    {
      MoreKeys(list, i);
      var key := ChainKey(list[i]);
      if key !in m {
        m := m[key := Seen(list[i], 1)];
      }
    }
    assert list[..|list|] == list;
    assert forall c :: InAll([list], c) ==> [list][0] == list;
  }

  /** The chains read from each file before one failed to open or decode. */
  function Readable(files: seq<Option<seq<Chain>>>, n: nat): seq<seq<Chain>>
    requires n <= |files| && forall i :: 0 <= i < n ==> files[i].Some?
  {
    seq(n, i requires 0 <= i < n => files[i].value)
  }

  /** A bad file is met: the second is always opened, a later one only while the files before it share a chain. */
  ghost predicate FailsAt(files: seq<Option<seq<Chain>>>, n: nat)
    requires n < |files|
  {
    && files[n].None? && (forall i :: 0 <= i < n ==> files[i].Some?)
    && (n <= 1 || exists c :: InAll(Readable(files, n), c))
  }

  /** Is `c` in every file? */
  predicate InEvery(files: seq<Option<seq<Chain>>>, c: Chain) {
    forall i :: 0 <= i < |files| ==> files[i].Some? && c in files[i].value
  }

  lemma InEveryIsInAll(files: seq<Option<seq<Chain>>>, n: nat, c: Chain)
    requires n <= |files| && forall i :: 0 <= i < n ==> files[i].Some?
    ensures InEvery(files, c) ==> InAll(Readable(files, n), c)
    ensures n == |files| ==> (InEvery(files, c) <==> InAll(Readable(files, n), c))
  {
    forall i | 0 <= i < n ensures Readable(files, n)[i] == files[i].value {}
  }

  lemma KeysCounted(m: map<seq<byte>, Seen>, files: seq<seq<Chain>>)
    requires Counted(m, files)
    ensures (exists c :: InAll(files, c)) <==> m != map[]
  {
    hide ChainKey, InAll;
    if m != map[] {
      var k :| k in m;
      assert InAll(files, m[k].chain);
    }
  }

  /** Nothing is left after `n` files: no later one can fail the comparison, and no chain is in all. */
  lemma NothingLeft(files: seq<Option<seq<Chain>>>, n: nat, i: nat)
    requires 1 < n < i < |files|
    requires forall j :: 0 <= j < i ==> files[j].Some?
    requires !exists c :: InAll(Readable(files, n), c)
    ensures !exists c :: InAll(Readable(files, i), c)
  {
    forall c | InAll(Readable(files, i), c) ensures InAll(Readable(files, n), c) {
      forall j | 0 <= j < n ensures c in Readable(files, n)[j] { assert c in Readable(files, i)[j]; }
    }
  }

  /** The entries of the map, in whatever order it gives them. */
  method Entries(m: map<seq<byte>, Seen>, ghost files: seq<seq<Chain>>) returns (candidates: seq<Chain>)
    requires Counted(m, files)
    ensures NoDuplicates(candidates) && forall c :: c in candidates <==> InAll(files, c)
  {
    hide ChainKey, InAll;
    candidates := [];
    var rest := m.Keys;
    while rest != {}
      invariant rest <= m.Keys && NoDuplicates(candidates)
      invariant forall c :: c in candidates <==> ChainKey(c) in m && ChainKey(c) !in rest && m[ChainKey(c)].chain == c
      decreases |rest|
    {
      var key :| key in rest;
      var chain := m[key].chain;
      candidates := candidates + [chain];
      rest := rest - {key};
    }
    forall c ensures c in candidates <==> InAll(files, c) {
      if InAll(files, c) { KeyInjective(m[ChainKey(c)].chain, c); }
    }
  }

  /**
   Any number of files. Reading stops early when nothing is left, so a bad file counts only if it is met before that.
   The map gives its entries in no particular order.
   */
  method IntersectMany(files: seq<Option<seq<Chain>>>) returns (ok: bool, candidates: seq<Chain>)
    requires |files| > 0
    ensures ok <==> forall n :: 0 <= n < |files| ==> !FailsAt(files, n)
    ensures ok ==> NoDuplicates(candidates) && forall c :: c in candidates <==> InEvery(files, c)
  {
    hide Counted, InAll, InEvery;
    candidates := [];
    if files[0].None? {
      assert FailsAt(files, 0);
      return false, candidates;
    }
    var m := FirstFile(files[0].value);
    assert Readable(files, 1) == [files[0].value];
    var n := 1;
    while n < |files|
      invariant 1 <= n <= |files| && forall i :: 0 <= i < n ==> files[i].Some?
      invariant Counted(m, Readable(files, n)) && (n > 1 ==> m != map[])
    {
      if files[n].None? {
        KeysCounted(m, Readable(files, n));
        assert FailsAt(files, n);
        return false, candidates;
      }
      m := CountFile(files[n].value, m, Readable(files, n), n);
      assert Readable(files, n + 1) == Readable(files, n) + [files[n].value];
      n := n + 1;
      KeysCounted(m, Readable(files, n));
      if m == map[] {
        forall i | n < i < |files| ensures !FailsAt(files, i) {
          if forall j :: 0 <= j < i ==> files[j].Some? { NothingLeft(files, n, i); }
        }
        break;
      }
    }
    candidates := Entries(m, Readable(files, n));
    forall c ensures c in candidates <==> InEvery(files, c) {
      InEveryIsInAll(files, n, c);
    }
    ok := true;
  }

  /** The three algorithms agree up to order, whatever the hash and the number of buckets. */
  lemma AlgorithmsAgree(a: seq<Chain>, b: seq<Chain>, direct: seq<Chain>, bucketed: seq<Chain>, counted: seq<Chain>)
    requires IsIntersection(direct, a, b) && IsIntersection(bucketed, a, b)
    requires NoDuplicates(counted) && forall c :: c in counted <==> InEvery([Some(a), Some(b)], c)
    ensures multiset(direct) == multiset(bucketed) == multiset(counted)
    ensures |direct| == |bucketed| == |counted| == |Shared(a, b)|
  {
    var files := [Some(a), Some(b)];
    forall c ensures InEvery(files, c) <==> c in a && c in b {
      if InEvery(files, c) { assert files[0].Some? && files[1].Some?; }
    }
    SameListing(direct, bucketed);
    SameListing(direct, counted);
    SizeOfIntersection(direct, a, b);
    SizeOfIntersection(bucketed, a, b);
    SizeOfIntersection(counted, a, b);
  }

  lemma SameListing(x: seq<Chain>, y: seq<Chain>)
    requires NoDuplicates(x) && NoDuplicates(y) && SameElements(x, y)
    ensures multiset(x) == multiset(y)
  {
    forall c ensures multiset(x)[c] == multiset(y)[c] {
      OneEach(x, c);
      OneEach(y, c);
    }
  }

  lemma {:induction false} OneEach(x: seq<Chain>, c: Chain)
    requires NoDuplicates(x)
    ensures multiset(x)[c] == if c in x then 1 else 0
  {
    if x != [] {
      assert x == [x[0]] + x[1..];
      OneEach(x[1..], c);
    }
  }
}
