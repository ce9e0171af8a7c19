/**
 The scan stores offsets nearest the target first; the resolver applies the first stored offset right
 after dereferencing the base. This module relates the two orders.
 */
module ChainOrder {
  import opened Machine
  import opened PointerLevels
  import opened PointerScan
  import opened PointerChains
  import opened Resolver

  function Reverse(s: seq<i64>): (r: seq<i64>)
    ensures |r| == |s|
    ensures forall i :: 0 <= i < |s| ==> r[i] == s[|s| - 1 - i]
  {
    if s == [] then [] else [s[|s| - 1]] + Reverse(s[..|s| - 1])
  }

  /** The process still holds, in every scanned slot, the value the scan saw there. */
  ghost predicate Frozen(c: Config, read: Reads)
    requires PointerSize(c.psize)
  {
    forall a: u64 :: Scanned(c, a) ==> ReadPointer(read, c.psize, a) == Some(Value(c, a))
  }

  /** Walking from `a` along `offsets` dereferences scanned slots only. */
  ghost predicate StaysScanned(c: Config, a: nat, offsets: seq<i64>)
    requires PointerSize(c.psize)
    decreases |offsets|
  {
    offsets != [] ==>
      && Scanned(c, a)
      && (|offsets| > 1 ==> Value(c, a) + offsets[0] >= 0 && StaysScanned(c, Value(c, a) + offsets[0], offsets[1..]))
  }

  /**
   The chains of a scan are exactly those the resolver takes to a target when the stored offsets are
   applied last to first, over scanned slots and with every offset inside the limit.
   */
  lemma {:induction false} LeadsIffResolves(c: Config, read: Reads, targets: seq<u64>, a: u64, offsets: seq<i64>)
    requires PointerSize(c.psize) && GoodConfig(c) && Frozen(c, read) && offsets != []
    ensures Leads(c, targets, a, offsets) <==>
      && StaysScanned(c, a, Reverse(offsets))
      && (forall i :: 0 <= i < |offsets| ==> Reach(offsets[i], c.maxOffset))
      && Resolve(read, c.psize, a, Reverse(offsets)).Some?
      && Resolve(read, c.psize, a, Reverse(offsets)).value in targets
    decreases |offsets|
  {
    hide Scanned, Value, ReadPointer, GoodConfig;
    var d := |offsets| - 1;
    var walk := Reverse(offsets);
    assert walk[1..] == Reverse(offsets[..d]);
    if Scanned(c, a) {
      var next := Value(c, a) + offsets[d];
      assert ReadPointer(read, c.psize, a) == Some(Value(c, a));
      if Value(c, a) != 0 && 0 <= next < U64_LIMIT {
        assert ApplyOffset(Value(c, a), offsets[d]) == Some(next);
        if d > 0 {
          LeadsIffResolves(c, read, targets, next, offsets[..d]);
          assert (forall i :: 0 <= i <= d ==> Reach(offsets[i], c.maxOffset)) <==>
            Reach(offsets[d], c.maxOffset) && forall i :: 0 <= i < d ==> Reach(offsets[..d][i], c.maxOffset);
        } else {
          assert walk[1..] == [];
        }
      } else if d > 0 && next >= U64_LIMIT {
        NoSlotPastTheEnd(c, targets, next, offsets[..d]);
      }
    }
  }

  lemma NoSlotPastTheEnd(c: Config, targets: seq<u64>, a: nat, offsets: seq<i64>)
    requires PointerSize(c.psize) && GoodConfig(c) && a >= U64_LIMIT
    ensures !Leads(c, targets, a, offsets)
  {
    if Scanned(c, a) { SlotIsAddress(c, a); }
  }

  // ----- when the stored order resolves as it stands

  const OFFSET_LIMIT := 0x8000_0000
  const LOW := 0x10_0000
  const HIGH := 0x8010_0000

  predicate SmallOffsets(offsets: seq<i64>) {
    |offsets| <= MAX_DEPTH && forall k :: 0 <= k < |offsets| ==> Abs(offsets[k]) <= OFFSET_LIMIT
  }

  /** What a slot can hold: a process with 32-bit pointers has no larger values. */
  ghost predicate Holds(read: Reads, psize: nat) {
    psize == 4 ==> forall a :: read(a).Some? ==> read(a).value < U32_LIMIT
  }

  /**
   The address of slot `k` of the memory below. A step that adds comes out in the upper half of 32 bits, one that
   subtracts in the lower, so that the value it starts from fits 32 bits, too.
   */
  function Place(walk: seq<i64>, s: nat, k: nat): (a: u64)
    requires k <= |walk| <= MAX_DEPTH && (s == 8 || s == 416)
    ensures LOW <= a < U32_LIMIT
  {
    (if k > 0 && walk[k - 1] >= 0 then HIGH else LOW) + s * k
  }

  lemma PlacesDiffer(walk: seq<i64>, s: nat, k: nat, j: nat)
    requires k <= |walk| <= MAX_DEPTH && j <= |walk| && (s == 8 || s == 416) && k != j
    ensures Place(walk, s, k) != Place(walk, s, j)
  {
  }

  /** The slots, slot `i` holding the value from which `walk[i]` leads to slot `i + 1`. */
  function LaidFrom(walk: seq<i64>, s: nat, i: nat, a: u64): (r: Option<u64>)
    requires i <= |walk| && SmallOffsets(walk) && (s == 8 || s == 416)
    ensures r.Some? ==> 0 < r.value < U32_LIMIT
    decreases |walk| - i
  {
    if i == |walk| then None
    else if a == Place(walk, s, i) then
      var value: u64 := Place(walk, s, i + 1) - walk[i];
      Some(value)
    else LaidFrom(walk, s, i + 1, a)
  }

  lemma {:induction false} LaidAtPlace(walk: seq<i64>, s: nat, i: nat, k: nat)
    requires SmallOffsets(walk) && (s == 8 || s == 416) && i <= k < |walk|
    ensures LaidFrom(walk, s, i, Place(walk, s, k)) == Some(Place(walk, s, k + 1) - walk[k])
    decreases k - i
  {
    hide Place;
    if i < k {
      PlacesDiffer(walk, s, i, k);
      LaidAtPlace(walk, s, i + 1, k);
    }
  }

  lemma {:induction false} LaidElsewhere(walk: seq<i64>, s: nat, i: nat, a: u64)
    requires SmallOffsets(walk) && (s == 8 || s == 416) && i <= |walk|
    requires forall k: nat :: k < |walk| ==> a != Place(walk, s, k)
    ensures LaidFrom(walk, s, i, a) == None
    decreases |walk| - i
  {
    hide Place;
    if i < |walk| { LaidElsewhere(walk, s, i + 1, a); }
  }

  /** One step of a walk over that memory, taken with some offset. */
  lemma OneStep(walk: seq<i64>, s: nat, psize: nat, read: Reads, i: nat, offset: i64, rest: seq<i64>)
    requires SmallOffsets(walk) && (s == 8 || s == 416) && i < |walk| && (psize == 4 || psize == 8)
      && Abs(offset) <= OFFSET_LIMIT
    requires forall a :: read(a) == LaidFrom(walk, s, 0, a)
    ensures Resolve(read, psize, Place(walk, s, i), [offset] + rest) ==
      var next := Place(walk, s, i + 1) - walk[i] + offset;
      if next < 0 then None else Resolve(read, psize, next, rest)
  {
    hide Place, LaidFrom;
    LaidAtPlace(walk, s, 0, i);
    var value: u64 := Place(walk, s, i + 1) - walk[i];
    assert StripTag(Place(walk, s, i)) == Place(walk, s, i);
    assert LaidFrom(walk, s, 0, Place(walk, s, i)).Some? && 0 < value < U32_LIMIT;
    assert ReadPointer(read, psize, Place(walk, s, i)) == Some(value);
    assert ([offset] + rest)[1..] == rest;
  }

  /** The walk the memory was laid out for arrives. */
  lemma {:induction false} WalkArrives(walk: seq<i64>, s: nat, psize: nat, read: Reads, i: nat)
    requires SmallOffsets(walk) && (s == 8 || s == 416) && i <= |walk| && (psize == 4 || psize == 8)
    requires forall a :: read(a) == LaidFrom(walk, s, 0, a)
    ensures Resolve(read, psize, Place(walk, s, i), walk[i..]) == Some(Place(walk, s, |walk|))
    decreases |walk| - i
  {
    hide Place, LaidFrom;
    if i < |walk| {
      assert walk[i..] == [walk[i]] + walk[i + 1..];
      OneStep(walk, s, psize, read, i, walk[i], walk[i + 1..]);
      WalkArrives(walk, s, psize, read, i + 1);
    } else {
      assert walk[i..] == [];
    }
  }

  /** From `b` there is nothing to be read, and it is not the end. */
  ghost predicate Astray(walk: seq<i64>, s: nat, b: int)
    requires |walk| <= MAX_DEPTH && (s == 8 || s == 416)
  {
    forall k: nat :: k <= |walk| ==> b != Place(walk, s, k)
  }

  /** A walk that first takes a different step at `j`, and is then astray, does not arrive. */
  lemma {:induction false} OtherGoesAstray(walk: seq<i64>, other: seq<i64>, s: nat, psize: nat, read: Reads, i: nat,
                                           j: nat)
    requires SmallOffsets(walk) && SmallOffsets(other) && |walk| == |other| && (s == 8 || s == 416)
      && (psize == 4 || psize == 8)
    requires i <= j < |walk| && walk[..j] == other[..j]
    requires Astray(walk, s, Place(walk, s, j + 1) - walk[j] + other[j])
    requires forall a :: read(a) == LaidFrom(walk, s, 0, a)
    ensures Resolve(read, psize, Place(walk, s, i), other[i..]) != Some(Place(walk, s, |walk|))
    decreases j - i
  {
    hide Place, LaidFrom, Resolve, Astray;
    assert other[i..] == [other[i]] + other[i + 1..];
    OneStep(walk, s, psize, read, i, other[i], other[i + 1..]);
    if i < j {
      assert walk[i] == walk[..j][i] == other[..j][i] == other[i];
      OtherGoesAstray(walk, other, s, psize, read, i + 1, j);
    } else {
      var b := Place(walk, s, j + 1) - walk[j] + other[j];
      if b >= 0 { AstrayMisses(walk, s, psize, read, b, other[j + 1..]); }
    }
  }

  lemma AstrayMisses(walk: seq<i64>, s: nat, psize: nat, read: Reads, b: u64, rest: seq<i64>)
    requires SmallOffsets(walk) && (s == 8 || s == 416) && (psize == 4 || psize == 8)
    requires Astray(walk, s, b) && b < TAG_LIMIT && forall a :: read(a) == LaidFrom(walk, s, 0, a)
    ensures Resolve(read, psize, b, rest) != Some(Place(walk, s, |walk|))
  {
    hide Place, LaidFrom;
    LaidElsewhere(walk, s, 0, b);
    assert ReadPointer(read, psize, b) == None;
  }

  /** How far a wrong step is from being a step between slots: `d` itself, or across the halves. */
  predicate Close(d: int) { Abs(d) <= 408 || Abs(d - 0x8000_0000) <= 408 || Abs(d + 0x8000_0000) <= 408 }

  /** Slots stand side by side, or with gaps if the wrong step is small. */
  function Spacing(d: int): (s: nat)
    ensures s == 8 || s == 416
  {
    if Close(d) then 416 else 8
  }

  lemma GoesAstray(walk: seq<i64>, j: nat, d: int)
    requires SmallOffsets(walk) && j < |walk| && d != 0
    ensures Astray(walk, Spacing(d), Place(walk, Spacing(d), j + 1) + d)
  {
    var s := Spacing(d);
    forall k: nat | k <= |walk| ensures Place(walk, s, j + 1) + d != Place(walk, s, k) {
      assert s * (j + 1) - s * k == s * (j + 1 - k);
    }
  }

  lemma FirstDifference(a: seq<i64>, b: seq<i64>) returns (j: nat)
    requires |a| == |b| && a != b
    ensures j < |a| && a[j] != b[j] && a[..j] == b[..j]
  {
    j := 0;
    while j < |a| && a[j] == b[j]
      invariant j <= |a| && a[..j] == b[..j]
    {
      assert a[..j + 1] == a[..j] + [a[j]] && b[..j + 1] == b[..j] + [b[j]];
      j := j + 1;
    }
    assert a[..|a|] == a && b[..|a|] == b;
  }

  lemma ReverseSmall(offsets: seq<i64>)
    requires SmallOffsets(offsets)
    ensures SmallOffsets(Reverse(offsets))
  {
  }

  /**
   The comparison of scan files hands offsets to the resolver as they are stored. That is right on every
   memory exactly for the chains whose offsets read the same in both directions, for either pointer size.
   */
  lemma StoredOrderNeedsPalindrome(offsets: seq<i64>, psize: nat)
    requires SmallOffsets(offsets) && (psize == 4 || psize == 8)
    ensures offsets == Reverse(offsets) <==>
      forall read: Reads, base: u64, t: u64 ::
        Holds(read, psize) && Resolve(read, psize, base, Reverse(offsets)) == Some(t) ==>
          Resolve(read, psize, base, offsets) == Some(t)
  {
    if offsets != Reverse(offsets) {
      var read, base, t := NotAPalindrome(offsets, psize);
    }
  }

  /** A memory on which the reversed offsets arrive and the stored ones do not. */
  lemma NotAPalindrome(offsets: seq<i64>, psize: nat) returns (read: Reads, base: u64, t: u64)
    requires SmallOffsets(offsets) && offsets != Reverse(offsets) && (psize == 4 || psize == 8)
    ensures Holds(read, psize) && (psize == 4 ==> forall a :: read(a).Some? ==> read(a).value < 0x1_0000_0000)
    ensures Resolve(read, psize, base, Reverse(offsets)) == Some(t) && Resolve(read, psize, base, offsets) != Some(t)
  {
    hide Resolve, LaidFrom, Reverse, Place, Astray;
    ReverseSmall(offsets);
    var walk := Reverse(offsets);
    var j := FirstDifference(walk, offsets);
    var d: int := offsets[j] - walk[j];
    var s := Spacing(d);
    read, base, t := (a: u64) => LaidFrom(walk, s, 0, a), Place(walk, s, 0), Place(walk, s, |walk|);
    GoesAstray(walk, j, d);
    assert Place(walk, s, j + 1) - walk[j] + offsets[j] == Place(walk, s, j + 1) + d;
    WalkArrives(walk, s, psize, read, 0);
    OtherGoesAstray(walk, offsets, s, psize, read, 0, j);
    assert walk[0..] == walk && offsets[0..] == offsets;
  }
}
