/**
 The agent's cache of readable address ranges: sorted, merged in place, and searched before every read
 through `process_vm_readv`.
 */
module ReadableCache {
  import opened Machine
  import opened Ordering

  datatype Region = Region(start: u64, end: u64, readable: bool)
  datatype Range = Range(start: u64, end: u64)

  predicate Holds(r: Range, x: int) { r.start <= x < r.end }

  ghost predicate Covered(ranges: seq<Range>, x: int) {
    exists i :: 0 <= i < |ranges| && Holds(ranges[i], x)
  }

  ghost predicate Readable(regions: seq<Region>, x: int) {
    exists i :: 0 <= i < |regions| && regions[i].readable && regions[i].start <= x < regions[i].end
  }

  /** Non-empty ranges in ascending order with a gap between neighbours. */
  predicate Separated(ranges: seq<Range>) {
    && (forall i :: 0 <= i < |ranges| ==> ranges[i].start < ranges[i].end)
    && (forall i, j :: 0 <= i < j < |ranges| ==> ranges[i].end < ranges[j].start)
  }

  predicate StartLe(a: Range, b: Range) { a.start <= b.start }

  lemma CoveredAppend(ranges: seq<Range>, r: Range, x: int)
    ensures Covered(ranges + [r], x) <==> Covered(ranges, x) || Holds(r, x)
  {
    var all := ranges + [r];
    if Covered(ranges, x) {
      var i :| 0 <= i < |ranges| && Holds(ranges[i], x);
      assert Holds(all[i], x);
    }
    if Holds(r, x) { assert Holds(all[|ranges|], x); }
  }

  /** One step of the merge: a range that starts behind the last one is added, another stretches it. */
  function Absorb(merged: seq<Range>, r: Range): seq<Range> {
    if merged == [] || r.start > merged[|merged| - 1].end then merged + [r]
    else
      var last := merged[|merged| - 1];
      merged[..|merged| - 1] + [Range(last.start, if r.end > last.end then r.end else last.end)]
  }

  lemma AbsorbKeeps(merged: seq<Range>, r: Range)
    requires Separated(merged) && r.start < r.end && (merged != [] ==> merged[|merged| - 1].start <= r.start)
    ensures Separated(Absorb(merged, r)) && Absorb(merged, r) != []
    ensures Absorb(merged, r)[|Absorb(merged, r)| - 1].start <= r.start
    ensures forall x :: Covered(Absorb(merged, r), x) <==> Covered(merged, x) || Holds(r, x)
  {
    forall x ensures Covered(Absorb(merged, r), x) <==> Covered(merged, x) || Holds(r, x) {
      CoveredAppend(merged, r, x);
      if merged != [] && r.start <= merged[|merged| - 1].end {
        var init, last := merged[..|merged| - 1], merged[|merged| - 1];
        assert merged == init + [last];
        CoveredAppend(init, last, x);
        CoveredAppend(init, Range(last.start, if r.end > last.end then r.end else last.end), x);
      }
    }
  }

  /** All ranges absorbed one after the other. */
  function Merged(sorted: seq<Range>): seq<Range> {
    if sorted == [] then [] else Absorb(Merged(sorted[..|sorted| - 1]), sorted[|sorted| - 1])
  }

  /** Merging sorted ranges separates them and covers the same addresses. */
  lemma {:induction false} MergedMeaning(sorted: seq<Range>)
    requires SortedBy(sorted, StartLe) && forall i :: 0 <= i < |sorted| ==> sorted[i].start < sorted[i].end
    ensures Separated(Merged(sorted)) && (Merged(sorted) == [] <==> sorted == [])
    ensures sorted != [] ==> Merged(sorted)[|Merged(sorted)| - 1].start <= sorted[|sorted| - 1].start
    ensures forall x :: Covered(Merged(sorted), x) <==> Covered(sorted, x)
  {
    hide Separated, Covered, Absorb;
    NothingSeparated();
    if sorted != [] {
      var init, r := sorted[..|sorted| - 1], sorted[|sorted| - 1];
      assert sorted == init + [r];
      assert init != [] ==> StartLe(sorted[|init| - 1], sorted[|init|]);
      MergedMeaning(init);
      AbsorbKeeps(Merged(init), r);
      forall x ensures Covered(sorted, x) <==> Covered(init, x) || Holds(r, x) { CoveredAppend(init, r, x); }
    }
  }

  lemma NothingSeparated()
    ensures Separated([]) && forall x :: !Covered([], x)
  {
  }

  lemma MergedStep(input: seq<Range>, i: nat)
    requires i < |input|
    ensures Merged(input[..i + 1]) == Absorb(Merged(input[..i]), input[i])
  {
    assert input[..i + 1][..i] == input[..i];
  }

  /** Compacts a vector in place; the merged ranges end up in its first `write` places. */
  method MergeInPlace(a: array<Range>) returns (write: nat)
    modifies a
    ensures write <= a.Length && a[..write] == Merged(old(a[..]))
  {
    hide Merged;
    ghost var input, merged := a[..], Merged([]);
    MergedOfNothing();
    assert input[..0] == [];
    write := 0;
    for i := 0 to a.Length
      invariant write == |merged| <= i && merged == Merged(input[..i])
      invariant forall k :: 0 <= k < write ==> a[k] == merged[k]
      invariant forall k :: i <= k < a.Length ==> a[k] == input[k]
    {
      MergedStep(input, i);
      merged := Absorb(merged, input[i]);
      if write == 0 || a[i].start > a[write - 1].end {
        a[write] := a[i];
        write := write + 1;
      } else if a[i].end > a[write - 1].end {
        a[write - 1] := Range(a[write - 1].start, a[i].end);
      }
    }
    assert input[..a.Length] == input && a[..write] == merged;
  }

  lemma MergedOfNothing()
    ensures Merged([]) == []
  {
  }

  class Cache {
    var pid: nat
    var ranges: seq<Range>

    /** The ranges can be searched. */
    ghost predicate Valid()
      reads this
    {
      Separated(ranges)
    }

    constructor ()
      ensures Valid() && pid == 0 && ranges == []
    {
      pid, ranges := 0, [];
    }

    method Invalidate()
      modifies this
      ensures Valid() && pid == 0 && ranges == []
    {
      pid, ranges := 0, [];
    }

    /** Rebuilds the ranges unless the same process's are still there; then they describe the maps exactly. */
    method Refresh(process: nat, regions: seq<Region>)
      requires Valid()
      modifies this
      ensures Valid() && pid == process
      ensures old(pid) == process && old(ranges) != [] ==> ranges == old(ranges)
      ensures !(old(pid) == process && old(ranges) != []) ==>
        forall x :: Covered(ranges, x) <==> Readable(regions, x)
    {
      if pid == process && ranges != [] {
        return;
      }
      var list := Collected(regions);
      var sorted := Sort(list, StartLe);
      SameMultisetSameElements(sorted, list);
      var a := new Range[|sorted|](i requires 0 <= i < |sorted| => sorted[i]);
      assert a[..] == sorted;
      forall i | 0 <= i < |sorted| ensures sorted[i].start < sorted[i].end {
        assert sorted[i] in sorted && sorted[i] in list;
      }
      MergedMeaning(sorted);
      var write := MergeInPlace(a);
      ranges, pid := a[..write], process;
      forall x ensures Covered(ranges, x) <==> Readable(regions, x) {
        SameCover(sorted, list, x);
      }
    }

    /** Does [start, end) touch a readable range? One `lower_bound`, one comparison. */
    method HasReadableOverlap(start: u64, end: u64) returns (found: bool)
      requires Valid()
      ensures found <==> exists x :: start <= x < end && Covered(ranges, x)
    {
      if end <= start || ranges == [] {
        return false;
      }
      var k := LowerBound(ranges, 0, |ranges|, (r: Range) => r.end <= start);
      found := k < |ranges| && ranges[k].start < end && ranges[k].end > start;
      if found {
        var x := Max(start, ranges[k].start);
        assert Holds(ranges[k], x);
        assert start <= x < end && Covered(ranges, x);
      } else {
        forall x, i | start <= x < end && 0 <= i < |ranges| ensures !Holds(ranges[i], x) {
          assert k < i ==> ranges[k].end < ranges[i].start;
        }
      }
    }
  }

  method Collected(regions: seq<Region>) returns (list: seq<Range>)
    ensures forall i :: 0 <= i < |list| ==> list[i].start < list[i].end
    ensures forall x :: Covered(list, x) <==> Readable(regions, x)
  {
    list := [];
    for i := 0 to |regions|
      invariant forall k :: 0 <= k < |list| ==> list[k].start < list[k].end
      invariant forall x :: Covered(list, x) <==> Readable(regions[..i], x)
    {
      var region := regions[i];
      ghost var before := list;
      if region.readable && region.end > region.start {
        list := list + [Range(region.start, region.end)];
      }
      forall x ensures Covered(list, x) <==> Readable(regions[..i + 1], x) {
        ReadableAppend(regions, i, x);
        CoveredAppend(before, Range(region.start, region.end), x);
      }
    }
    assert regions[..|regions|] == regions;
  }

  lemma ReadableAppend(regions: seq<Region>, i: nat, x: int)
    requires i < |regions|
    ensures Readable(regions[..i + 1], x) <==>
      Readable(regions[..i], x) || (regions[i].readable && regions[i].start <= x < regions[i].end)
  {
    if Readable(regions[..i], x) {
      var k :| 0 <= k < i && regions[..i][k].readable && regions[..i][k].start <= x < regions[..i][k].end;
      assert regions[..i + 1][k] == regions[..i][k];
    }
    if Readable(regions[..i + 1], x) {
      var k :| 0 <= k <= i && regions[..i + 1][k].readable && regions[..i + 1][k].start <= x < regions[..i + 1][k].end;
      assert k < i ==> regions[..i][k] == regions[..i + 1][k];
    }
    if regions[i].readable && regions[i].start <= x < regions[i].end { assert regions[..i + 1][i] == regions[i]; }
  }

  lemma SameCover(a: seq<Range>, b: seq<Range>, x: int)
    requires SameElements(a, b)
    ensures Covered(a, x) <==> Covered(b, x)
  {
    if Covered(a, x) {
      var i :| 0 <= i < |a| && Holds(a[i], x);
      assert a[i] in b;
    }
    if Covered(b, x) {
      var i :| 0 <= i < |b| && Holds(b[i], x);
      assert b[i] in a;
    }
  }
}
