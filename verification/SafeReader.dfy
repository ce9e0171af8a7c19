/**
 Reading and writing the debugged process: a request is cut at region borders and then at page or
 chunk borders; each piece is transferred, skipped, or ends the request.
 */
module SafeReader {
  import opened Machine
  import opened Grid

  type PageSize = x: int | 0 < x <= 0x10_0000 witness 4096

  const EIO := 5
  const EFAULT := 14

  datatype Region = Region(start: u64, end: u64, readable: bool, writable: bool)

  /** What one system call for a piece returns. */
  datatype Answer = Got(count: nat) | Failed(errno: int)

  /** A request, its flags, and what the system does with it. */
  datatype Call = Call(
    base: nat, size: nat, writing: bool,
    ignorePerms: bool, allowNonresident: bool, fastMode: bool,
    page: PageSize, regions: seq<Region>,
    resident: nat -> bool,
    answer: (nat, nat) -> Answer)

  /** The maps file lists its regions in ascending order. */
  ghost predicate Ascending(regions: seq<Region>) {
    && (forall i :: 0 <= i < |regions| ==> regions[i].start <= regions[i].end)
    && (forall i, j :: 0 <= i < j < |regions| ==> regions[i].end <= regions[j].start)
  }

  /** Addresses are untagged, an object is smaller than half the address space, pages are not empty, and a call
      transfers no more than was asked for. */
  ghost predicate Proper(c: Call) {
    && c.base < TAG_LIMIT && c.size < I64_LIMIT && Ascending(c.regions)
    && forall at, n :: c.answer(at, n).Got? ==> c.answer(at, n).count <= n
  }

  function End(c: Call): nat { c.base + c.size }
  predicate Fast(c: Call) { !c.writing && c.fastMode && c.allowNonresident && !c.ignorePerms }
  predicate Usable(c: Call, r: Region) { if c.writing then r.writable else c.ignorePerms || r.readable }

  /** An eighth of the request, kept within 64 KiB and 4 MiB, in whole pages. */
  function ChunkSize(size: nat, page: PageSize): (r: nat)
    ensures Whole(r, page) && page <= r <= Max(page, 0x40_0000)
  {
    var eighth := Min(Max(size / 8, 0x1_0000), 0x40_0000);
    assert Whole(page, page);
    RoundDown(Max(eighth, page), page)
  }

  function From(c: Call, r: Region): nat { Max(c.base, r.start) }
  function To(c: Call, r: Region): nat { Min(End(c), r.end) }

  /** The piece of region `r` that holds address `x`. */
  function PieceStart(c: Call, r: Region, x: nat): (at: nat)
    requires From(c, r) <= x
    ensures From(c, r) <= at <= x
  {
    if Fast(c) then From(c, r) + RoundDown(x - From(c, r), ChunkSize(c.size, c.page))
    else Max(From(c, r), RoundDown(x, c.page))
  }

  function PieceEnd(c: Call, r: Region, x: nat): (end: nat)
    requires From(c, r) <= x < To(c, r)
    ensures x < end <= To(c, r)
  {
    if Fast(c) then Min(To(c, r), PieceStart(c, r, x) + ChunkSize(c.size, c.page))
    else Min(To(c, r), RoundDown(x, c.page) + c.page)
  }

  /** Is the piece that holds `x` asked for at all? Its page must be resident unless the caller waives that. */
  predicate Asked(c: Call, x: nat)
  {
    (c.allowNonresident && !c.writing) || c.resident(RoundDown(x, c.page))
  }

  function AnswerAt(c: Call, r: Region, x: nat): Answer
    requires From(c, r) <= x < To(c, r)
  {
    var at := PieceStart(c, r, x);
    c.answer(at, PieceEnd(c, r, x) - at)
  }

  /** `x` is transferred as part of region `r`. */
  predicate Moved(c: Call, r: Region, x: nat)
    requires From(c, r) <= x < To(c, r)
  {
    Asked(c, x) && AnswerAt(c, r, x).Got? && x < PieceStart(c, r, x) + AnswerAt(c, r, x).count
  }

  /** The piece that holds `x` ends the request: an error other than EIO and EFAULT. */
  predicate Fatal(c: Call, r: Region, x: nat)
    requires From(c, r) <= x < To(c, r)
  {
    Asked(c, x) && AnswerAt(c, r, x).Failed? && AnswerAt(c, r, x).errno !in {EIO, EFAULT}
  }

  /** The piece that starts at `cur`, as the loops find it, is the piece of each of its addresses. */
  lemma PieceIsOne(c: Call, r: Region, cur: nat, x: nat)
    requires From(c, r) <= cur < To(c, r) && PieceStart(c, r, cur) == cur
    requires cur <= x < PieceEnd(c, r, cur)
    ensures PieceStart(c, r, x) == cur && PieceEnd(c, r, x) == PieceEnd(c, r, cur)
    ensures !Fast(c) ==> RoundDown(x, c.page) == RoundDown(cur, c.page)
  {
    if Fast(c) {
      RoundDownIs(x - From(c, r), cur - From(c, r), ChunkSize(c.size, c.page));
    } else {
      RoundDownIs(x, RoundDown(cur, c.page), c.page);
    }
  }

  /** The next piece starts where this one ends. */
  lemma NextPiece(c: Call, r: Region, cur: nat)
    requires From(c, r) <= cur < To(c, r) && PieceStart(c, r, cur) == cur
    ensures cur < PieceEnd(c, r, cur) <= To(c, r)
    ensures PieceEnd(c, r, cur) < To(c, r) ==> PieceStart(c, r, PieceEnd(c, r, cur)) == PieceEnd(c, r, cur)
  {
    var next := PieceEnd(c, r, cur);
    if next < To(c, r) {
      if Fast(c) {
        var chunk := ChunkSize(c.size, c.page);
        WholeAdds(cur - From(c, r), chunk, chunk);
        RoundDownIs(next - From(c, r), next - From(c, r), chunk);
      } else {
        WholeAdds(RoundDown(cur, c.page), c.page, c.page);
        RoundDownIs(next, next, c.page);
      }
    }
  }

  /** The requested byte at `x` is transferred. */
  ghost predicate Delivered(c: Call, x: nat)
  {
    exists k :: 0 <= k < |c.regions| && Within(c, c.regions[k], x) && Moved(c, c.regions[k], x)
  }

  predicate Within(c: Call, r: Region, x: nat) { Usable(c, r) && From(c, r) <= x < To(c, r) }

  /** How many requested bytes below `hi` are transferred. */
  ghost function Count(c: Call, hi: nat): (n: nat)
    requires c.base <= hi
    ensures n <= hi - c.base
  {
    if hi == c.base then 0 else Count(c, hi - 1) + (if Delivered(c, hi - 1) then 1 else 0)
  }

  /** No piece ends the request. */
  ghost predicate Survives(c: Call)
  {
    forall k, x: nat :: 0 <= k < |c.regions| && Within(c, c.regions[k], x) ==> !Fatal(c, c.regions[k], x)
  }

  lemma {:induction false} CountPrefix(c: Call, from: nat, mid: nat, to: nat)
    requires c.base <= from <= mid <= to
    requires forall x :: from <= x < to ==> (Delivered(c, x) <==> x < mid)
    ensures Count(c, to) == Count(c, from) + (mid - from)
  {
    hide Delivered;
    if from < to {
      CountPrefix(c, from, Min(mid, to - 1), to - 1);
    }
  }

  /** An address of region k is in no other region. */
  lemma OnlyRegion(c: Call, k: nat, x: nat)
    requires Proper(c) && k < |c.regions| && Within(c, c.regions[k], x)
    ensures Delivered(c, x) <==> Moved(c, c.regions[k], x)
  {
    if Delivered(c, x) {
      var j :| 0 <= j < |c.regions| && Within(c, c.regions[j], x) && Moved(c, c.regions[j], x);
      assert j == k;
    }
  }

  /** Where the walk over the regions stands before region k. */
  ghost function Frontier(c: Call, k: nat): (f: nat)
    requires Proper(c) && k <= |c.regions|
    ensures c.base <= f <= End(c)
  {
    if k == 0 then c.base else Max(c.base, Min(End(c), c.regions[k - 1].end))
  }

  /** Nothing is delivered between the regions. */
  lemma GapIsEmpty(c: Call, k: nat, x: nat)
    requires Proper(c) && k <= |c.regions| && Frontier(c, k) <= x < End(c)
    requires k < |c.regions| ==> x < c.regions[k].start || (x < c.regions[k].end && !Usable(c, c.regions[k]))
    ensures !Delivered(c, x)
  {
    forall j | 0 <= j < |c.regions| ensures !Within(c, c.regions[j], x) {
      assert j < k ==> c.regions[j].end <= Max(c.base, c.regions[k - 1].end);
      assert k < j ==> c.regions[k].end <= c.regions[j].start;
    }
  }

  /** Nothing is delivered between two regions, or in one that may not be used. */
  lemma SkippedGap(c: Call, k: nat, from: nat, to: nat)
    requires Proper(c) && k <= |c.regions| && Frontier(c, k) <= from <= to <= End(c)
    requires k < |c.regions| && from < to ==>
      to <= c.regions[k].start || (to <= c.regions[k].end && !Usable(c, c.regions[k]))
    ensures Count(c, to) == Count(c, from) && forall x :: from <= x < to ==> !Delivered(c, x)
  {
    hide Delivered, Count;
    forall x | from <= x < to ensures !Delivered(c, x) { GapIsEmpty(c, k, x); }
    CountPrefix(c, from, from, to);
  }

  /** The counters of one request. */
  class Stats {
    var bytesRead: nat
    var bytesSkipped: nat

    constructor ()
      ensures bytesRead == 0 && bytesSkipped == 0
    {
      bytesRead, bytesSkipped := 0, 0;
    }
  }

  /** What a buffer holds once every requested byte below `upto` was dealt with. */
  ghost predicate Filled(c: Call, mem: Memory, before: seq<byte>, now: seq<byte>, upto: nat)
  {
    && |before| == |now| == c.size
    && forall i :: 0 <= i < c.size ==>
         now[i] == if c.base + i < upto && Delivered(c, c.base + i) then mem(c.base + i) else before[i]
  }

  lemma FillMore(c: Call, mem: Memory, before: seq<byte>, was: seq<byte>, now: seq<byte>, cur: nat, mid: nat, next: nat)
    requires c.base <= cur <= mid <= next <= End(c)
    requires forall x :: cur <= x < next ==> (Delivered(c, x) <==> x < mid)
    requires Filled(c, mem, before, was, cur)
    requires |now| == |was|
    requires forall i :: 0 <= i < c.size ==> now[i] == if cur <= c.base + i < mid then mem(c.base + i) else was[i]
    ensures Filled(c, mem, before, now, next)
  {
    hide Delivered;
    forall i | 0 <= i < c.size
      ensures now[i] == if c.base + i < next && Delivered(c, c.base + i) then mem(c.base + i) else before[i]
    {
      var x := c.base + i;
      assert cur <= x < next ==> (Delivered(c, x) <==> x < mid);
    }
  }

  /** A system call that returns `n` has stored the first `n` bytes. */
  method Store(mem: Memory, address: nat, out: array<byte>, at: nat, n: nat)
    requires at + n <= out.Length && address >= at
    modifies out
    ensures forall i :: 0 <= i < out.Length ==>
      out[i] == if at <= i < at + n then mem(address - at + i) else old(out[i])
  {
    for k := 0 to n
      invariant forall i :: 0 <= i < out.Length ==>
        out[i] == if at <= i < at + k then mem(address - at + i) else old(out[i])
    {
      out[at + k] := mem(address + k);
    }
  }

  /** What one piece means for the addresses it holds. */
  lemma PieceMeaning(c: Call, k: nat, cur: nat, mid: nat)
    requires Proper(c) && k < |c.regions| && Usable(c, c.regions[k])
    requires From(c, c.regions[k]) <= cur < To(c, c.regions[k]) && PieceStart(c, c.regions[k], cur) == cur
    requires mid == if Moved(c, c.regions[k], cur) then cur + AnswerAt(c, c.regions[k], cur).count else cur
    ensures cur <= mid <= PieceEnd(c, c.regions[k], cur)
    ensures forall x :: cur <= x < PieceEnd(c, c.regions[k], cur) ==> (Delivered(c, x) <==> x < mid)
    ensures forall x :: cur <= x < PieceEnd(c, c.regions[k], cur) ==>
      (Fatal(c, c.regions[k], x) <==> Fatal(c, c.regions[k], cur))
  {
    hide Delivered, PieceStart, PieceEnd;
    var r := c.regions[k];
    forall x | cur <= x < PieceEnd(c, r, cur)
      ensures Delivered(c, x) <==> x < mid
      ensures Fatal(c, r, x) <==> Fatal(c, r, cur)
    {
      PieceIsOne(c, r, cur, x);
      OnlyRegion(c, k, x);
    }
  }

  /** One system call and what the loops do with its answer; false ends the request. */
  method ReadPiece(c: Call, ghost k: nat, mem: Memory, out: array<byte>, stats: Stats, cur: nat, next: nat,
                   ghost before: seq<byte>) returns (ok: bool)
    requires Proper(c) && !c.writing && k < |c.regions| && Usable(c, c.regions[k])
    requires From(c, c.regions[k]) <= cur < To(c, c.regions[k]) && PieceStart(c, c.regions[k], cur) == cur
    requires next == PieceEnd(c, c.regions[k], cur) && Asked(c, cur)
    requires out.Length == c.size && Filled(c, mem, before, out[..], cur) && stats.bytesRead == Count(c, cur)
    modifies out, stats`bytesRead
    ensures ok <==> !Fatal(c, c.regions[k], cur)
    ensures ok ==> Filled(c, mem, before, out[..], next) && stats.bytesRead == Count(c, next)
    ensures !ok ==> Filled(c, mem, before, out[..], cur)
    ensures forall x :: cur <= x < next ==> (Fatal(c, c.regions[k], x) <==> Fatal(c, c.regions[k], cur))
  {
    hide Delivered, PieceStart, PieceEnd, Filled, Count, Proper, Asked;
    LengthOfFilled(c, mem, before, out[..], cur);
    ghost var was := out[..];
    var answer := c.answer(cur, next - cur);
    ghost var mid := if answer.Got? then cur + answer.count else cur;
    PieceMeaning(c, k, cur, mid);
    if answer.Failed? {
      if answer.errno != EIO && answer.errno != EFAULT {
        return false;
      }
    } else {
      Store(mem, cur, out, cur - c.base, answer.count);
      stats.bytesRead := stats.bytesRead + answer.count;
    }
    FillMore(c, mem, before, was, out[..], cur, mid, next);
    CountPrefix(c, cur, mid, next);
    return true;
  }

  lemma FillNothing(c: Call, mem: Memory, before: seq<byte>, now: seq<byte>, from: nat, to: nat)
    requires c.base <= from <= to <= End(c) && Filled(c, mem, before, now, from)
    requires forall x :: from <= x < to ==> !Delivered(c, x)
    ensures Filled(c, mem, before, now, to)
  {
    hide Delivered;
    FillMore(c, mem, before, now, now, from, from, to);
  }

  lemma LengthOfFilled(c: Call, mem: Memory, before: seq<byte>, now: seq<byte>, upto: nat)
    requires Filled(c, mem, before, now, upto)
    ensures |before| == |now| == c.size
  {
  }

  /** A piece whose page is not resident delivers nothing. */
  lemma SkippedPiece(c: Call, k: nat, cur: nat)
    requires Proper(c) && k < |c.regions| && Usable(c, c.regions[k])
    requires From(c, c.regions[k]) <= cur < To(c, c.regions[k]) && PieceStart(c, c.regions[k], cur) == cur
    requires !Asked(c, cur)
    ensures Count(c, PieceEnd(c, c.regions[k], cur)) == Count(c, cur)
    ensures forall x :: cur <= x < PieceEnd(c, c.regions[k], cur) ==> !Delivered(c, x) && !Fatal(c, c.regions[k], x)
  {
    hide Delivered, PieceStart, PieceEnd, Count;
    PieceMeaning(c, k, cur, cur);
    CountPrefix(c, cur, cur, PieceEnd(c, c.regions[k], cur));
  }

  /** The page loop over one region. */
  method ReadByPages(c: Call, ghost k: nat, r: Region, mem: Memory, out: array<byte>, stats: Stats,
                     ghost before: seq<byte>) returns (ok: bool)
    requires Proper(c) && !c.writing && !Fast(c) && k < |c.regions| && r == c.regions[k] && Usable(c, r)
    requires From(c, r) < To(c, r)
    requires out.Length == c.size && Filled(c, mem, before, out[..], From(c, r))
      && stats.bytesRead == Count(c, From(c, r))
    modifies out, stats`bytesRead
    ensures ok <==> forall x :: From(c, r) <= x < To(c, r) ==> !Fatal(c, r, x)
    ensures ok ==> Filled(c, mem, before, out[..], To(c, r)) && stats.bytesRead == Count(c, To(c, r))
    ensures exists upto: nat :: Filled(c, mem, before, out[..], upto)
  {
    hide Delivered, Filled, Count, Fatal;
    var cur: u64, regionEnd: u64 := From(c, r), To(c, r);
    while cur < regionEnd
      invariant From(c, r) <= cur <= regionEnd
      invariant cur < regionEnd ==> PieceStart(c, r, cur) == cur
      invariant Filled(c, mem, before, out[..], cur) && stats.bytesRead == Count(c, cur)
      invariant forall x :: From(c, r) <= x < cur ==> !Fatal(c, r, x)
    {
      NextPiece(c, r, cur);
      var pageStart: u64 := RoundDown(cur, c.page);
      var pageEnd: u64 := pageStart + c.page;
      var chunkEnd: u64 := Min(regionEnd, pageEnd);
      if !c.allowNonresident && !c.resident(pageStart) {
        SkippedPiece(c, k, cur);
        FillNothing(c, mem, before, out[..], cur, chunkEnd);
        cur := chunkEnd;
        continue;
      }
      ok := ReadPiece(c, k, mem, out, stats, cur, chunkEnd, before);
      if !ok {
        return false;
      }
      cur := chunkEnd;
    }
    return true;
  }

  /** The chunk loop over one region. */
  method ReadByChunks(c: Call, ghost k: nat, r: Region, mem: Memory, out: array<byte>, stats: Stats,
                      ghost before: seq<byte>) returns (ok: bool)
    requires Proper(c) && Fast(c) && k < |c.regions| && r == c.regions[k] && Usable(c, r)
    requires From(c, r) < To(c, r)
    requires out.Length == c.size && Filled(c, mem, before, out[..], From(c, r))
      && stats.bytesRead == Count(c, From(c, r))
    modifies out, stats`bytesRead
    ensures ok <==> forall x :: From(c, r) <= x < To(c, r) ==> !Fatal(c, r, x)
    ensures ok ==> Filled(c, mem, before, out[..], To(c, r)) && stats.bytesRead == Count(c, To(c, r))
    ensures exists upto: nat :: Filled(c, mem, before, out[..], upto)
  {
    hide Delivered, Filled, Count, Fatal;
    var chunkSize := ChunkSize(c.size, c.page);
    var cur: u64, regionEnd: u64 := From(c, r), To(c, r);
    while cur < regionEnd
      invariant From(c, r) <= cur <= regionEnd
      invariant cur < regionEnd ==> PieceStart(c, r, cur) == cur
      invariant Filled(c, mem, before, out[..], cur) && stats.bytesRead == Count(c, cur)
      invariant forall x :: From(c, r) <= x < cur ==> !Fatal(c, r, x)
    {
      NextPiece(c, r, cur);
      var length := Min(regionEnd - cur, chunkSize);
      ok := ReadPiece(c, k, mem, out, stats, cur, cur + length, before);
      if !ok {
        return false;
      }
      cur := cur + length;
    }
    return true;
  }

  /** No piece of region k ends the request. */
  ghost predicate RegionSurvives(c: Call, r: Region) {
    forall x: nat :: Within(c, r, x) ==> !Fatal(c, r, x)
  }

  /**
   A read succeeds unless some piece ends it, and then the buffer has exactly the delivered bytes, each at its own
   offset, and the counters say how many. A failed read has stored nothing but the memory's own bytes.
   */
  method ValidateAndRead(c: Call, mem: Memory, out: array<byte>, stats: Stats) returns (ok: bool)
    requires Proper(c) && !c.writing && out.Length == c.size
    modifies out, stats
    ensures ok <==> Survives(c)
    ensures ok ==> Filled(c, mem, old(out[..]), out[..], End(c))
    ensures ok ==> stats.bytesRead == Count(c, End(c)) && stats.bytesRead + stats.bytesSkipped == c.size
    ensures exists upto: nat :: Filled(c, mem, old(out[..]), out[..], upto)
  {
    hide Delivered, Filled, Count, Fatal;
    stats.bytesRead, stats.bytesSkipped := 0, 0;
    ghost var before := out[..];
    NothingFilled(c, mem, before);
    if c.size == 0 {
      NothingRequested(c);
      return true;
    }
    for k := 0 to |c.regions|
      invariant Filled(c, mem, before, out[..], Frontier(c, k)) && stats.bytesRead == Count(c, Frontier(c, k))
      invariant forall j :: 0 <= j < k ==> RegionSurvives(c, c.regions[j])
    {
      var r := c.regions[k];
      var touches := r.end > c.base && r.start < End(c);
      if Usable(c, r) && touches && From(c, r) < To(c, r) {
        SkippedGap(c, k, Frontier(c, k), From(c, r));
        FillNothing(c, mem, before, out[..], Frontier(c, k), From(c, r));
        if Fast(c) {
          ok := ReadByChunks(c, k, r, mem, out, stats, before);
        } else {
          ok := ReadByPages(c, k, r, mem, out, stats, before);
        }
        SurvivesHere(c, r);
        if !ok {
          return false;
        }
      } else {
        SkippedGap(c, k, Frontier(c, k), Frontier(c, k + 1));
        FillNothing(c, mem, before, out[..], Frontier(c, k), Frontier(c, k + 1));
      }
    }
    SkippedGap(c, |c.regions|, Frontier(c, |c.regions|), End(c));
    FillNothing(c, mem, before, out[..], Frontier(c, |c.regions|), End(c));
    stats.bytesSkipped := Max(0, c.size - stats.bytesRead);
    return true;
  }

  lemma SurvivesHere(c: Call, r: Region)
    requires Usable(c, r)
    ensures RegionSurvives(c, r) <==> forall x :: From(c, r) <= x < To(c, r) ==> !Fatal(c, r, x)
  {
  }

  lemma NothingFilled(c: Call, mem: Memory, before: seq<byte>)
    requires |before| == c.size
    ensures Filled(c, mem, before, before, c.base) && Count(c, c.base) == 0
  {
  }

  lemma NothingRequested(c: Call)
    requires c.size == 0
    ensures Survives(c)
  {
  }

  /** The debugged process, as far as a write changes it. */
  class Process {
    var memory: Memory

    constructor (m: Memory)
      ensures memory == m
    {
      memory := m;
    }

    /** A system call that returns `n` has stored the first `n` bytes of the piece. */
    method Poke(address: nat, data: seq<byte>, at: nat, n: nat)
      requires at + n <= |data|
      modifies this
      ensures forall x: nat ::
        memory(x) == if address <= x < address + n then data[at + (x - address)] else old(memory)(x)
    {
      var was := memory;
      memory := (x: nat) => if address <= x < address + n then data[at + (x - address)] else was(x);
    }

    /** The page loop of a write over one region. */
    method WriteByPages(c: Call, ghost k: nat, r: Region, data: seq<byte>, ghost before: Memory, written: nat)
      returns (ok: bool, total: nat)
      requires Proper(c) && c.writing && k < |c.regions| && r == c.regions[k] && Usable(c, r)
      requires From(c, r) < To(c, r) && |data| == c.size
      requires Written(c, data, before, memory, From(c, r)) && written == Count(c, From(c, r))
      modifies this
      ensures ok <==> forall x :: From(c, r) <= x < To(c, r) ==> !Fatal(c, r, x)
      ensures ok ==> Written(c, data, before, memory, To(c, r)) && total == Count(c, To(c, r))
      ensures exists upto: nat :: Written(c, data, before, memory, upto)
    {
      hide Delivered, Written, Count, Fatal, PieceStart;
      total := written;
      var cur: u64, regionEnd: u64 := From(c, r), To(c, r);
      FirstPiece(c, r);
      while cur < regionEnd
        invariant From(c, r) <= cur <= regionEnd
        invariant cur < regionEnd ==> PieceStart(c, r, cur) == cur
        invariant Written(c, data, before, memory, cur) && total == Count(c, cur)
        invariant forall x :: From(c, r) <= x < cur ==> !Fatal(c, r, x)
      {
        NextPiece(c, r, cur);
        var pageStart: u64 := RoundDown(cur, c.page);
        var pageEnd: u64 := pageStart + c.page;
        var chunkEnd: u64 := Min(regionEnd, pageEnd);
        assert chunkEnd == PieceEnd(c, r, cur);
        ghost var was := memory;
        if !c.resident(pageStart) {
          SkippedPiece(c, k, cur);
          WriteMore(c, data, before, was, memory, cur, cur, chunkEnd);
          cur := chunkEnd;
          continue;
        }
        var answer := c.answer(cur, chunkEnd - cur);
        ghost var mid := if answer.Got? then cur + answer.count else cur;
        assert AnswerAt(c, r, cur) == answer;
        PieceMeaning(c, k, cur, mid);
        assert Fatal(c, r, cur) <==> answer.Failed? && answer.errno !in {EIO, EFAULT} by { FatalIs(c, r, cur); }
        if answer.Failed? {
          if answer.errno != EIO && answer.errno != EFAULT {
            return false, total;
          }
        } else {
          Poke(cur, data, cur - c.base, answer.count);
          total := total + answer.count;
        }
        WriteMore(c, data, before, was, memory, cur, mid, chunkEnd);
        CountPrefix(c, cur, mid, chunkEnd);
        cur := chunkEnd;
      }
      ok := true;
    }

    /** A write changes exactly the delivered bytes, and says how many. */
    method ValidateAndWrite(c: Call, data: seq<byte>) returns (ok: bool, bytesWritten: nat)
      requires Proper(c) && c.writing && |data| == c.size
      modifies this
      ensures ok <==> Survives(c)
      ensures ok ==> Written(c, data, old(memory), memory, End(c)) && bytesWritten == Count(c, End(c))
      ensures exists upto: nat :: Written(c, data, old(memory), memory, upto)
    {
      hide Delivered, Written, Count, Fatal;
      bytesWritten := 0;
      ghost var before := memory;
      NothingWritten(c, data, before);
      if c.size == 0 {
        NothingRequested(c);
        return true, 0;
      }
      for k := 0 to |c.regions|
        invariant Written(c, data, before, memory, Frontier(c, k)) && bytesWritten == Count(c, Frontier(c, k))
        invariant forall j :: 0 <= j < k ==> RegionSurvives(c, c.regions[j])
      {
        var r := c.regions[k];
        var touches := r.end > c.base && r.start < End(c);
        if Usable(c, r) && touches && From(c, r) < To(c, r) {
          SkippedGap(c, k, Frontier(c, k), From(c, r));
          WriteMore(c, data, before, memory, memory, Frontier(c, k), Frontier(c, k), From(c, r));
          ok, bytesWritten := WriteByPages(c, k, r, data, before, bytesWritten);
          SurvivesHere(c, r);
          if !ok {
            return false, bytesWritten;
          }
        } else {
          SkippedGap(c, k, Frontier(c, k), Frontier(c, k + 1));
          WriteMore(c, data, before, memory, memory, Frontier(c, k), Frontier(c, k), Frontier(c, k + 1));
        }
      }
      SkippedGap(c, |c.regions|, Frontier(c, |c.regions|), End(c));
      WriteMore(c, data, before, memory, memory, Frontier(c, |c.regions|), Frontier(c, |c.regions|), End(c));
      ok := true;
    }
  }

  lemma FirstPiece(c: Call, r: Region)
    requires From(c, r) < To(c, r)
    ensures PieceStart(c, r, From(c, r)) == From(c, r)
  {
  }

  lemma FatalIs(c: Call, r: Region, x: nat)
    requires From(c, r) <= x < To(c, r) && Asked(c, x)
    ensures Fatal(c, r, x) <==> AnswerAt(c, r, x).Failed? && AnswerAt(c, r, x).errno !in {EIO, EFAULT}
  {
  }

  /** The process after every requested byte below `upto` was dealt with. */
  ghost predicate Written(c: Call, data: seq<byte>, before: Memory, now: Memory, upto: nat) {
    && |data| == c.size && upto <= End(c)
    && forall x: nat :: now(x) == if c.base <= x < upto && Delivered(c, x) then data[x - c.base] else before(x)
  }

  lemma NothingWritten(c: Call, data: seq<byte>, before: Memory)
    requires |data| == c.size
    ensures Written(c, data, before, before, c.base) && Count(c, c.base) == 0
  {
  }

  lemma WriteMore(c: Call, data: seq<byte>, before: Memory, was: Memory, now: Memory, cur: nat, mid: nat, next: nat)
    requires c.base <= cur <= mid <= next <= End(c) && |data| == c.size
    requires forall x :: cur <= x < next ==> (Delivered(c, x) <==> x < mid)
    requires Written(c, data, before, was, cur)
    requires forall x: nat :: now(x) == if cur <= x < mid then data[x - c.base] else was(x)
    ensures Written(c, data, before, now, next)
  {
    hide Delivered;
    forall x: nat ensures now(x) == if c.base <= x < next && Delivered(c, x) then data[x - c.base] else before(x) {
      assert cur <= x < next ==> (Delivered(c, x) <==> x < mid);
    }
  }

  /** The count is the size exactly when every byte came: what makes `bytes_read == size` a safe test. */
  lemma {:induction false} CompleteIff(c: Call, hi: nat)
    requires c.base <= hi
    ensures Count(c, hi) == hi - c.base <==> forall x :: c.base <= x < hi ==> Delivered(c, x)
  {
    hide Delivered;
    if c.base < hi { CompleteIff(c, hi - 1); }
  }

  /** A complete read has copied the memory. */
  lemma CompleteReadIsExact(c: Call, mem: Memory, before: seq<byte>, now: seq<byte>)
    requires Filled(c, mem, before, now, End(c)) && Count(c, End(c)) == c.size
    ensures now == Bytes(mem, c.base, c.size)
  {
    hide Delivered;
    CompleteIff(c, End(c));
    forall i | 0 <= i < c.size ensures now[i] == mem(c.base + i) {
      assert Delivered(c, c.base + i);
    }
  }

  /** A complete read after a complete write returns what was written. */
  lemma WriteThenRead(w: Call, r: Call, data: seq<byte>, before: Memory, after: Memory, was: seq<byte>, now: seq<byte>)
    requires w.base == r.base && w.size == r.size
    requires Written(w, data, before, after, End(w)) && Count(w, End(w)) == w.size
    requires Filled(r, after, was, now, End(r)) && Count(r, End(r)) == r.size
    ensures now == data
  {
    hide Delivered;
    CompleteIff(w, End(w));
    CompleteReadIsExact(r, after, was, now);
    forall i | 0 <= i < w.size ensures now[i] == data[i] {
      assert Delivered(w, w.base + i);
    }
  }

  /** The first `bytes_read` bytes are the memory's exactly when no delivered byte follows a missing one. */
  lemma {:induction false} PrefixIff(c: Call, hi: nat)
    requires c.base <= hi
    ensures (forall x :: c.base <= x < c.base + Count(c, hi) ==> Delivered(c, x)) <==>
      (forall x, y :: c.base <= x < y < hi && Delivered(c, y) ==> Delivered(c, x))
  {
    hide Delivered;
    var n := Count(c, hi);
    if forall x, y :: c.base <= x < y < hi && Delivered(c, y) ==> Delivered(c, x) {
      if c.base < hi {
        PrefixIff(c, hi - 1);
        if Delivered(c, hi - 1) { CompleteIff(c, hi); }
      }
    }
    if forall x :: c.base <= x < c.base + n ==> Delivered(c, x) {
      CompleteIff(c, c.base + n);
      forall y | c.base <= y < hi && Delivered(c, y) ensures y < c.base + n {
        if c.base + n <= y { CountAbove(c, c.base + n, hi, y); }
      }
    }
  }

  /** If the read succeeds, the bytes it reports as read are the first ones, and they are there. */
  ghost predicate Truthful(c: Call) {
    Survives(c) ==> forall x :: c.base <= x < c.base + Count(c, End(c)) ==> Delivered(c, x)
  }

  /** All that the request may touch lies in one piece, and that piece starts at the first byte asked for. */
  ghost predicate OnePiece(c: Call) {
    forall k, x: nat :: 0 <= k < |c.regions| && Within(c, c.regions[k], x) ==> PieceStart(c, c.regions[k], x) == c.base
  }

  /** Two bytes of the piece that starts at the base have the same piece and the same page. */
  lemma FromBase(c: Call, r: Region, x: nat, y: nat)
    requires c.base <= x < y && From(c, r) <= y < To(c, r) && PieceStart(c, r, y) == c.base
    ensures From(c, r) == c.base && PieceStart(c, r, x) == c.base && PieceEnd(c, r, x) == PieceEnd(c, r, y)
    ensures !Fast(c) ==> RoundDown(x, c.page) == RoundDown(y, c.page)
  {
    hide RoundDown, Whole;
    if Fast(c) {
      var chunk := ChunkSize(c.size, c.page);
      RoundDownIs(x - c.base, RoundDown(y - c.base, chunk), chunk);
    } else {
      RoundDownIs(x, RoundDown(y, c.page), c.page);
    }
  }

  lemma OnePieceIsTruthful(c: Call)
    requires Proper(c) && OnePiece(c)
    ensures Truthful(c)
  {
    hide Delivered, PieceStart, PieceEnd;
    forall x, y | c.base <= x < y < End(c) && Delivered(c, y) ensures Delivered(c, x) {
      var k := RegionOf(c, y);
      FromBase(c, c.regions[k], x, y);
      OnlyRegion(c, k, x);
    }
    PrefixIff(c, End(c));
  }

  lemma RegionOf(c: Call, x: nat) returns (k: nat)
    requires Delivered(c, x)
    ensures k < |c.regions| && Within(c, c.regions[k], x) && Moved(c, c.regions[k], x)
  {
    k :| 0 <= k < |c.regions| && Within(c, c.regions[k], x) && Moved(c, c.regions[k], x);
  }

  /** The piece that starts at `at` comes in full, and no other. */
  function OnlyAt(at: nat): (nat, nat) -> Answer {
    (start: nat, n: nat) => if start == at then Got(n) else Failed(EIO)
  }

  /** A piece that starts behind the base can come without what is before it. */
  lemma LatePieceMisleads(c: Call, k: nat, x: nat)
    requires Proper(c) && k < |c.regions| && Within(c, c.regions[k], x) && PieceStart(c, c.regions[k], x) != c.base
    ensures var d := c.(answer := OnlyAt(PieceStart(c, c.regions[k], x)), resident := _ => true);
      Proper(d) && Survives(d) && !Truthful(d)
  {
    hide RoundDown, PieceEnd, Count;
    var at := PieceStart(c, c.regions[k], x);
    var d := c.(answer := OnlyAt(at), resident := _ => true);
    assert PieceStart(d, d.regions[k], x) == at;
    assert Delivered(d, x) by { assert Within(d, d.regions[k], x) && Moved(d, d.regions[k], x); }
    CountAbove(d, d.base, End(d), x);
    assert !Delivered(d, d.base);
  }

  /**
   Whatever the calls return and whichever pages are resident, a successful read's `bytes_read` is the length of a valid
   prefix if and only if all it may touch is one piece at its start.
   */
  lemma PrefixAlwaysIff(c: Call)
    requires Proper(c)
    ensures (forall answer, resident :: Proper(c.(answer := answer, resident := resident)) ==>
               Truthful(c.(answer := answer, resident := resident))) <==> OnePiece(c)
  {
    hide Truthful, PieceStart, Proper;
    if OnePiece(c) {
      forall answer, resident | Proper(c.(answer := answer, resident := resident))
        ensures Truthful(c.(answer := answer, resident := resident))
      {
        SamePieces(c, c.(answer := answer, resident := resident));
        OnePieceIsTruthful(c.(answer := answer, resident := resident));
      }
    } else {
      var k, x: nat :| 0 <= k < |c.regions| && Within(c, c.regions[k], x) && PieceStart(c, c.regions[k], x) != c.base;
      LatePieceMisleads(c, k, x);
    }
  }

  /** Where the pieces lie depends on neither the answers nor the resident pages. */
  lemma SamePieces(c: Call, d: Call)
    requires d == c.(answer := d.answer, resident := d.resident)
    ensures OnePiece(c) <==> OnePiece(d)
  {
    hide RoundDown, ChunkSize;
    forall k, x: nat | 0 <= k < |c.regions|
      ensures Within(c, c.regions[k], x) <==> Within(d, d.regions[k], x)
      ensures Within(c, c.regions[k], x) ==> PieceStart(c, c.regions[k], x) == PieceStart(d, d.regions[k], x)
    {
    }
  }

  /** So a request that stays in one page is safe, because regions consist of whole pages. */
  lemma OnePageIsTruthful(c: Call)
    requires Proper(c) && c.size > 0 && RoundDown(c.base, c.page) == RoundDown(End(c) - 1, c.page)
    requires forall k :: 0 <= k < |c.regions| ==> Whole(c.regions[k].start, c.page)
    ensures OnePiece(c)
  {
    hide Whole, RoundDown;
    var page := RoundDown(c.base, c.page);
    forall k, x: nat | 0 <= k < |c.regions| && Within(c, c.regions[k], x)
      ensures PieceStart(c, c.regions[k], x) == c.base
    {
      var r := c.regions[k];
      if c.base < r.start {
        RoundDownIs(r.start, page, c.page);
        SamePage(page, r.start, c.page);
      }
      assert From(c, r) == c.base;
      if Fast(c) {
        assert ChunkSize(c.size, c.page) >= c.page;
        SmallRoundsToNothing(x - c.base, ChunkSize(c.size, c.page));
      } else {
        RoundDownIs(x, page, c.page);
      }
    }
  }

  lemma SmallRoundsToNothing(n: nat, s: nat)
    requires n < s
    ensures RoundDown(n, s) == 0
  {
  }

  /** A page begins nowhere inside another one. */
  lemma SamePage(page: nat, x: nat, size: nat)
    requires size > 0 && Whole(page, size) && Whole(x, size) && page <= x < page + size
    ensures x == page
  {
    RoundDownIs(x, page, size);
    RoundDownIs(x, x, size);
  }

  /** The last byte of a page that is not resident and the first of one that is; every call returns in full. */
  function AcrossPages(): Call {
    Call(0x1FFF, 2, false, false, false, false, 4096, [Region(0x1000, 0x3000, true, false)],
      (page: nat) => page != 0x1000, (at: nat, n: nat) => Got(n))
  }

  /** A read that succeeds and reports one byte, which is not the first one. */
  lemma ReadIsNoPrefix()
    ensures var c := AcrossPages();
      Proper(c) && Survives(c) && Count(c, End(c)) == 1 && !Delivered(c, 0x1FFF) && Delivered(c, 0x2000)
  {
    hide RoundDown;
    var c := AcrossPages();
    var r := c.regions[0];
    InFullSurvives(c);
    WholeMultiple(1, 4096);
    WholeMultiple(2, 4096);
    RoundDownIs(0x1FFF, 0x1000, 4096);
    RoundDownIs(0x2000, 0x2000, 4096);
    assert Within(c, r, 0x2000) && Moved(c, r, 0x2000);
    assert Delivered(c, 0x2000);
    assert !Delivered(c, 0x1FFF);
    assert Count(c, 0x1FFF) == 0;
    assert Count(c, 0x2000) == 0;
  }

  lemma {:induction false} CountAbove(c: Call, mid: nat, hi: nat, y: nat)
    requires c.base <= mid <= y < hi
    ensures Count(c, mid) + (if Delivered(c, y) then 1 else 0) <= Count(c, hi)
    decreases hi
  {
    hide Delivered;
    if y < hi - 1 {
      CountAbove(c, mid, hi - 1, y);
    } else {
      CountMonotone(c, mid, y);
    }
  }

  lemma {:induction false} CountMonotone(c: Call, mid: nat, hi: nat)
    requires c.base <= mid <= hi
    ensures Count(c, mid) <= Count(c, hi)
  {
    hide Delivered;
    if mid < hi { CountMonotone(c, mid, hi - 1); }
  }

  /** Every system call returns in full. */
  ghost predicate InFull(c: Call) {
    forall at, n :: c.answer(at, n) == Got(n)
  }

  /** When every call returns in full, a byte comes exactly when it lies in a permitted region. */
  lemma InFullDelivers(c: Call, x: nat)
    requires InFull(c) && c.allowNonresident && !c.writing
    ensures Delivered(c, x) <==> exists k :: 0 <= k < |c.regions| && Within(c, c.regions[k], x)
  {
    forall k | 0 <= k < |c.regions| && Within(c, c.regions[k], x) ensures Moved(c, c.regions[k], x) {
      assert c.answer(PieceStart(c, c.regions[k], x),
        PieceEnd(c, c.regions[k], x) - PieceStart(c, c.regions[k], x)).Got?;
    }
  }

  /** The chunk path and the page path then agree on the buffer, the count and the outcome. */
  lemma PathsAgree(c: Call, mem: Memory, was: seq<byte>, chunked: seq<byte>, paged: seq<byte>)
    requires Fast(c) && InFull(c)
    requires Filled(c, mem, was, chunked, End(c))
    requires Filled(c.(fastMode := false), mem, was, paged, End(c))
    ensures chunked == paged
    ensures Count(c, End(c)) == Count(c.(fastMode := false), End(c))
    ensures Survives(c) && Survives(c.(fastMode := false))
  {
    hide Delivered, Within;
    var d := c.(fastMode := false);
    forall x: nat ensures Delivered(c, x) <==> Delivered(d, x) {
      InFullDelivers(c, x);
      InFullDelivers(d, x);
      SameWithin(c, d, x);
    }
    CountSame(c, d, End(c));
    InFullSurvives(c);
    InFullSurvives(d);
  }

  lemma SameWithin(c: Call, d: Call, x: nat)
    requires d == c.(fastMode := false)
    ensures (exists k :: 0 <= k < |c.regions| && Within(c, c.regions[k], x)) <==>
      (exists k :: 0 <= k < |d.regions| && Within(d, d.regions[k], x))
  {
    forall k | 0 <= k < |c.regions| ensures Within(c, c.regions[k], x) <==> Within(d, d.regions[k], x) {
    }
  }

  lemma InFullSurvives(c: Call)
    requires InFull(c)
    ensures Survives(c)
  {
    forall k, x: nat | 0 <= k < |c.regions| && Within(c, c.regions[k], x) ensures !Fatal(c, c.regions[k], x) {
      var at := PieceStart(c, c.regions[k], x);
      assert c.answer(at, PieceEnd(c, c.regions[k], x) - at).Got?;
    }
  }

  lemma {:induction false} CountSame(c: Call, d: Call, hi: nat)
    requires c.base == d.base && c.base <= hi
    requires forall x: nat :: Delivered(c, x) <==> Delivered(d, x)
    ensures Count(c, hi) == Count(d, hi)
  {
    hide Delivered;
    if c.base < hi { CountSame(c, d, hi - 1); }
  }
}
