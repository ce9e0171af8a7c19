/**
 The first scan of one region: cut into 1 MiB tasks whose reads overlap by what a match may need, each
 task looked through by one loop, on AArch64 sometimes by a vector one.
 */
module FirstScanTasks {
  import opened Machine
  import opened Grid
  import opened Collecting
  import opened ScanQuery

  const CHUNK_SIZE := 1024 * 1024

  datatype Hit = Hit(addr: nat, value: nat)
  datatype ScanTask = ScanTask(start: nat, scanEnd: nat, readEnd: nat)

  function Step(q: Query, byteStep: bool): (s: nat)
    ensures s == 1 || s == 2 || s == 4 || s == 8
  {
    if byteStep || IsPattern(q.ty) || q.ty == ALL then 1 else ValueSize(q.ty)
  }

  /** Reads run past a task by what a match starting at its last byte may need. */
  function Overlap(q: Query, byteStep: bool): nat {
    if IsPattern(q.ty) then (if |q.pattern| > 1 then |q.pattern| - 1 else 0)
    else if q.ty == ALL then 7
    else if byteStep then ValueSize(q.ty) - 1
    else 0
  }

  /** What the place `a` of a region that ends at `end` contributes. */
  function HitAt(mem: Memory, q: Query, end: nat, a: nat): seq<Hit> {
    if a > end then []
    else
      match FirstMatch(q, Bytes(mem, a, Min(Need(q), end - a)))
      case None => []
      case Some(bits) => [Hit(a, bits)]
  }

  function HitsOver(mem: Memory, q: Query, end: nat, places: seq<nat>): seq<Hit> {
    Collect(places, (a: nat) => HitAt(mem, q, end, a))
  }

  /** The places of a region a scan has to look at. */
  function Places(q: Query, byteStep: bool, start: nat, end: nat): seq<nat> {
    Walk(start, end - MinMatch(q) + 1, Step(q, byteStep))
  }

  /** The intended result: every match that lies wholly inside the region, in address order. */
  function RegionHits(mem: Memory, q: Query, byteStep: bool, start: nat, end: nat): seq<Hit> {
    HitsOver(mem, q, end, Places(q, byteStep, start, end))
  }

  /** The places one task looks at. */
  function TaskPlaces(q: Query, byteStep: bool, t: ScanTask): seq<nat> {
    Walk(t.start, Min(t.scanEnd, t.readEnd - MinMatch(q) + 1), Step(q, byteStep))
  }

  ghost predicate GoodTask(q: Query, byteStep: bool, t: ScanTask, end: nat) {
    && t.start < t.scanEnd <= t.readEnd <= end
    && t.readEnd == Min(end, t.scanEnd + Overlap(q, byteStep))
    && (Step(q, byteStep) > 1 ==> Whole(t.scanEnd - t.start, Step(q, byteStep)))
  }

  lemma HitsWalk(mem: Memory, q: Query, end: nat, from: nat, to: int, step: nat)
    requires step > 0
    ensures HitsOver(mem, q, end, Walk(from, to, step)) ==
      if from >= to then [] else HitAt(mem, q, end, from) + HitsOver(mem, q, end, Walk(from + step, to, step))
  {
    if from < to {
      CollectOne(from, Walk(from + step, to, step), (a: nat) => HitAt(mem, q, end, a));
    }
  }

  lemma HitsCut(mem: Memory, q: Query, end: nat, from: nat, mid: nat, to: int, step: nat)
    requires step > 0 && from <= mid && Whole(mid - from, step)
    ensures HitsOver(mem, q, end, Walk(from, to, step))
         == HitsOver(mem, q, end, Walk(from, Min(mid, to), step)) + HitsOver(mem, q, end, Walk(mid, to, step))
  {
    WalkSplit(from, mid, to, step);
    CollectSplit(Walk(from, Min(mid, to), step), Walk(mid, to, step), (a: nat) => HitAt(mem, q, end, a));
  }

  /** The next task of a region, or none when what is left is shorter than any match. */
  function NextTask(q: Query, byteStep: bool, cursor: nat, end: nat): Option<ScanTask>
    requires cursor < end
  {
    var whole: nat := Min(end - cursor, CHUNK_SIZE);
    var length := if !byteStep && !IsPattern(q.ty) && q.ty != ALL then RoundDown(whole, ValueSize(q.ty)) else whole;
    if length < MinMatch(q) then None
    else
      var scanEnd: nat := cursor + length;
      var overlap := Overlap(q, byteStep);
      Some(ScanTask(cursor, scanEnd, if overlap > 0 then Min(end, scanEnd + overlap) else scanEnd))
  }

  /** A task's places are the region's places up to where the next task starts. */
  lemma NextTaskCovers(q: Query, byteStep: bool, cursor: nat, end: nat)
    requires cursor < end && 0 < MinMatch(q) <= CHUNK_SIZE
    ensures match NextTask(q, byteStep, cursor, end)
      case None => Places(q, byteStep, cursor, end) == []
      case Some(t) =>
        && GoodTask(q, byteStep, t, end) && t.start == cursor
        && Whole(t.scanEnd - cursor, Step(q, byteStep))
        && TaskPlaces(q, byteStep, t) == Walk(cursor, Min(t.scanEnd, end - MinMatch(q) + 1), Step(q, byteStep))
  {
    hide Whole, RoundDown, Walk;
    var step, whole := Step(q, byteStep), Min(end - cursor, CHUNK_SIZE);
    if step == 1 {
      WholeBytes(whole);
    }
    if !byteStep && !IsPattern(q.ty) && q.ty != ALL {
      WholeAtLeast(RoundDown(whole, step), step);
    }
    NothingToWalk(cursor, end - MinMatch(q) + 1, step);
    var next := NextTask(q, byteStep, cursor, end);
    if next.Some? && step > 1 {
      var t := next.value;
      WalkBound(cursor, t.scanEnd, t.readEnd - MinMatch(q) + 1, step);
      WalkBound(cursor, t.scanEnd, Min(t.scanEnd, end - MinMatch(q) + 1), step);
    }
  }

  lemma NothingToWalk(from: nat, to: int, step: nat)
    requires step > 0
    ensures from >= to ==> Walk(from, to, step) == []
  {
  }

  /** Inside a task the buffer holds as much of every place's window as the region does. */
  lemma WindowInBuffer(q: Query, byteStep: bool, t: ScanTask, end: nat, a: nat)
    requires GoodTask(q, byteStep, t, end) && MinMatch(q) > 0
    requires t.start <= a < t.scanEnd && a + MinMatch(q) <= t.readEnd
    ensures Min(Need(q), t.readEnd - a) == Min(Need(q), end - a)
  {
  }

  lemma HitAtIs(mem: Memory, q: Query, end: nat, a: nat)
    requires a <= end
    ensures HitAt(mem, q, end, a) ==
      match FirstMatch(q, Bytes(mem, a, Min(Need(q), end - a)))
      case None => []
      case Some(bits) => [Hit(a, bits)]
  {
  }

  /** What the buffer shows at `offset` is what the region has there. */
  lemma PlaceIs(mem: Memory, q: Query, byteStep: bool, t: ScanTask, end: nat, buffer: seq<byte>, offset: nat)
    requires GoodTask(q, byteStep, t, end) && MinMatch(q) > 0
    requires buffer == Bytes(mem, t.start, t.readEnd - t.start)
    requires t.start + offset < t.scanEnd && offset + MinMatch(q) <= |buffer|
    ensures HitAt(mem, q, end, t.start + offset) ==
      match FirstMatch(q, buffer[offset..offset + Min(Need(q), |buffer| - offset)])
      case None => []
      case Some(bits) => [Hit(t.start + offset, bits)]
  {
    hide FirstMatch;
    WindowInBuffer(q, byteStep, t, end, t.start + offset);
    HitAtIs(mem, q, end, t.start + offset);
    assert buffer[offset..offset + Min(Need(q), |buffer| - offset)]
      == Bytes(mem, t.start + offset, Min(Need(q), end - (t.start + offset)));
  }

  /** The scalar loop over one buffer. */
  method ScanBuffer(ghost mem: Memory, q: Query, byteStep: bool, t: ScanTask, ghost end: nat, buffer: seq<byte>)
    returns (hits: seq<Hit>)
    requires GoodTask(q, byteStep, t, end) && MinMatch(q) > 0
    requires buffer == Bytes(mem, t.start, t.readEnd - t.start)
    ensures hits == HitsOver(mem, q, end, TaskPlaces(q, byteStep, t))
  {
    hide HitsOver, FirstMatch, HitAt, MinMatch, Need, GoodTask, Step, TaskPlaces, Walk, Whole;
    var step, least := Step(q, byteStep), MinMatch(q);
    ghost var bound := Min(t.scanEnd, t.readEnd - least + 1);
    TaskPlacesAre(q, byteStep, t);
    TaskBounds(q, byteStep, t, end);
    hits := [];
    var limit := if |buffer| < least then 0 else |buffer| - least + 1;
    if limit > t.scanEnd - t.start {
      limit := t.scanEnd - t.start;
    }
    var offset := 0;
    while offset < limit
      invariant HitsOver(mem, q, end, Walk(t.start, bound, step))
             == hits + HitsOver(mem, q, end, Walk(t.start + offset, bound, step))
      decreases limit + step - offset
    {
      HitsWalk(mem, q, end, t.start + offset, bound, step);
      PlaceIs(mem, q, byteStep, t, end, buffer, offset);
      var remain := |buffer| - offset;
      var found := FirstMatch(q, buffer[offset..offset + Min(Need(q), remain)]);
      ghost var before, rest := hits, HitsOver(mem, q, end, Walk(t.start + offset + step, bound, step));
      if found.Some? {
        hits := hits + [Hit(t.start + offset, found.value)];
        assert hits + rest == before + ([Hit(t.start + offset, found.value)] + rest);
      } else {
        assert [] + rest == rest;
      }
      offset := offset + step;
    }
    HitsWalk(mem, q, end, t.start + offset, bound, step);
    assert hits + [] == hits;
  }

  lemma TaskPlacesAre(q: Query, byteStep: bool, t: ScanTask)
    ensures TaskPlaces(q, byteStep, t) == Walk(t.start, Min(t.scanEnd, t.readEnd - MinMatch(q) + 1), Step(q, byteStep))
  {
  }

  lemma TaskBounds(q: Query, byteStep: bool, t: ScanTask, end: nat)
    requires GoodTask(q, byteStep, t, end)
    ensures t.start < t.scanEnd <= t.readEnd <= end
  {
  }

  // ----- the vector loop

  /** Four- and eight-byte equality scans at natural steps take the vector loop on AArch64. */
  predicate Vectorized(q: Query, byteStep: bool) {
    q.condition == EQ && !byteStep && (q.ty == U32 || q.ty == U64)
  }

  /** Which scans take the vector branch: aligned ones for an equal 32-bit or 64-bit unsigned number. */
  lemma VectorizedIff(q: Query, byteStep: bool)
    ensures Vectorized(q, byteStep) <==> q.condition == EQ && !byteStep && q.ty in {U32, U64}
  {
  }

  function EqualAt(buffer: seq<byte>, size: nat, target: u64, o: nat): seq<nat> {
    if o + size <= |buffer| && LoadLE(buffer[o..o + size]) == target then [o] else []
  }

  /** Offsets of equal values that end within the first `limit` bytes. */
  function EqualOffsets(buffer: seq<byte>, limit: nat, size: nat, target: u64): seq<nat>
    requires size > 0
  {
    EqualFrom(buffer, 0, limit, size, target)
  }

  function EqualFrom(buffer: seq<byte>, from: nat, limit: nat, size: nat, target: u64): seq<nat>
    requires size > 0
  {
    Collect(Walk(from, limit - size + 1, size), (o: nat) => EqualAt(buffer, size, target, o))
  }

  lemma EqualFromStep(buffer: seq<byte>, from: nat, limit: nat, size: nat, target: u64)
    requires size > 0
    ensures EqualFrom(buffer, from, limit, size, target) ==
      if from + size > limit then []
      else EqualAt(buffer, size, target, from) + EqualFrom(buffer, from + size, limit, size, target)
  {
    if from + size <= limit {
      CollectOne(from, Walk(from + size, limit - size + 1, size), (o: nat) => EqualAt(buffer, size, target, o));
    }
  }

  /** The lanes of one 16-byte vector. */
  method CollectLanes(buffer: seq<byte>, offset: nat, limit: nat, size: nat, target: u64) returns (offsets: seq<nat>)
    requires offset + 16 <= limit <= |buffer| && (size == 4 || size == 8)
    ensures EqualFrom(buffer, offset, limit, size, target)
      == offsets + EqualFrom(buffer, offset + 16, limit, size, target)
  {
    hide EqualFrom, EqualAt;
    offsets := [];
    var at := offset;
    for lane := 0 to 16 / size
      invariant at == offset + lane * size
      invariant EqualFrom(buffer, offset, limit, size, target) == offsets + EqualFrom(buffer, at, limit, size, target)
    {
      EqualFromStep(buffer, at, limit, size, target);
      offsets := offsets + EqualAt(buffer, size, target, at);
      at := at + size;
    }
  }

  method CollectEqOffsetsNeon(buffer: seq<byte>, limit: nat, size: nat, target: u64) returns (offsets: seq<nat>)
    requires limit <= |buffer| && (size == 4 || size == 8)
    ensures offsets == EqualOffsets(buffer, limit, size, target)
  {
    hide EqualFrom, EqualAt;
    offsets := [];
    if limit < size {
      EqualFromStep(buffer, 0, limit, size, target);
      return;
    }
    var offset := 0;
    while offset + 16 <= limit
      invariant offset <= limit
      invariant EqualFrom(buffer, 0, limit, size, target) == offsets + EqualFrom(buffer, offset, limit, size, target)
    {
      var found := CollectLanes(buffer, offset, limit, size, target);
      offsets, offset := offsets + found, offset + 16;
    }
    while offset + size <= limit
      invariant EqualFrom(buffer, 0, limit, size, target) == offsets + EqualFrom(buffer, offset, limit, size, target)
      decreases limit + size - offset
    {
      EqualFromStep(buffer, offset, limit, size, target);
      offsets := offsets + EqualAt(buffer, size, target, offset);
      offset := offset + size;
    }
    EqualFromStep(buffer, offset, limit, size, target);
  }

  function ToHits(offsets: seq<nat>, start: nat, target: u64): seq<Hit> {
    if offsets == [] then [] else [Hit(start + offsets[0], target)] + ToHits(offsets[1..], start, target)
  }

  lemma {:induction false} ToHitsSplit(a: seq<nat>, b: seq<nat>, start: nat, target: u64)
    ensures ToHits(a + b, start, target) == ToHits(a, start, target) + ToHits(b, start, target)
  {
    if a == [] {
      assert a + b == b;
    } else {
      assert (a + b)[1..] == a[1..] + b;
      ToHitsSplit(a[1..], b, start, target);
    }
  }

  /** One equal value in the buffer is one hit of the query. */
  lemma EqualIsHit(mem: Memory, q: Query, byteStep: bool, t: ScanTask, end: nat, buffer: seq<byte>, o: nat)
    requires Vectorized(q, byteStep) && GoodTask(q, byteStep, t, end) && o + ValueSize(q.ty) <= t.readEnd - t.start
    requires buffer == Bytes(mem, t.start, t.readEnd - t.start)
    ensures ToHits(EqualAt(buffer, ValueSize(q.ty), q.target, o), t.start, q.target) == HitAt(mem, q, end, t.start + o)
  {
    hide LoadLE, AllMatch, FirstBits, Whole;
    var size := ValueSize(q.ty);
    assert buffer[o..o + size] == Bytes(mem, t.start + o, size);
    assert Min(Need(q), end - (t.start + o)) == size;
    var w := Bytes(mem, t.start + o, size);
    assert w[..size] == w;
    assert ToHits([], t.start, q.target) == [];
    assert [o][1..] == [];
  }

  lemma {:induction false} EqualsAreHits(mem: Memory, q: Query, byteStep: bool, t: ScanTask, end: nat,
                                         buffer: seq<byte>, from: nat, limit: nat)
    requires Vectorized(q, byteStep) && GoodTask(q, byteStep, t, end) && limit <= t.readEnd - t.start
    requires buffer == Bytes(mem, t.start, t.readEnd - t.start)
    ensures ToHits(EqualFrom(buffer, from, limit, ValueSize(q.ty), q.target), t.start, q.target)
         == HitsOver(mem, q, end, Walk(t.start + from, t.start + limit - ValueSize(q.ty) + 1, ValueSize(q.ty)))
    decreases if from < limit then limit - from else 0
  {
    hide HitsOver, EqualFrom, EqualAt, HitAt, Walk, GoodTask;
    var size := ValueSize(q.ty);
    EqualFromStep(buffer, from, limit, size, q.target);
    HitsWalk(mem, q, end, t.start + from, t.start + limit - size + 1, size);
    if from + size <= limit {
      EqualIsHit(mem, q, byteStep, t, end, buffer, from);
      EqualsAreHits(mem, q, byteStep, t, end, buffer, from + size, limit);
      ToHitsSplit(EqualAt(buffer, size, q.target, from), EqualFrom(buffer, from + size, limit, size, q.target), t.start,
        q.target);
    }
  }

  /** The places the vector loop looks at: it is handed a count of starts where it expects a byte length. */
  function NeonPlaces(q: Query, t: ScanTask): seq<nat> {
    Walk(t.start, t.scanEnd - ValueSize(q.ty), ValueSize(q.ty))
  }

  /** The vector branch of the worker, called with the same limit as the scalar loop. */
  method ScanBufferNeon(ghost mem: Memory, q: Query, byteStep: bool, t: ScanTask, ghost end: nat, buffer: seq<byte>)
    returns (hits: seq<Hit>)
    requires GoodTask(q, byteStep, t, end) && Vectorized(q, byteStep) && t.scanEnd - t.start >= ValueSize(q.ty)
    requires buffer == Bytes(mem, t.start, t.readEnd - t.start)
    ensures hits == HitsOver(mem, q, end, NeonPlaces(q, t))
  {
    hide HitsOver, EqualFrom, Walk, Whole, ToHits;
    var size := ValueSize(q.ty);
    var limit := |buffer| - size + 1;
    var offsets := CollectEqOffsetsNeon(buffer, limit, size, q.target);
    EqualsAreHits(mem, q, byteStep, t, end, buffer, 0, limit);
    NeonBound(q, byteStep, t, end, limit);
    hits := AppendHits(offsets, t.start, q.target);
  }

  method AppendHits(offsets: seq<nat>, start: nat, target: u64) returns (hits: seq<Hit>)
    ensures hits == ToHits(offsets, start, target)
  {
    hits := [];
    for i := 0 to |offsets|
      invariant ToHits(offsets, start, target) == hits + ToHits(offsets[i..], start, target)
    {
      assert offsets[i..][1..] == offsets[i + 1..];
      hits := hits + [Hit(start + offsets[i], target)];
    }
  }

  lemma NeonBound(q: Query, byteStep: bool, t: ScanTask, end: nat, limit: nat)
    requires GoodTask(q, byteStep, t, end) && Vectorized(q, byteStep) && t.scanEnd - t.start >= ValueSize(q.ty)
    requires limit == t.readEnd - t.start - ValueSize(q.ty) + 1
    ensures t.readEnd == t.scanEnd
    ensures Walk(t.start, t.start + limit - ValueSize(q.ty) + 1, ValueSize(q.ty)) == NeonPlaces(q, t)
  {
    hide Walk;
    var size := ValueSize(q.ty);
    WholeAdds(size, t.scanEnd - t.start - size, size);
    WalkBound(t.start, t.scanEnd - size, t.start + limit - size + 1, size);
  }

  /** What the vector branch loses: exactly the last slot of every task. */
  lemma NeonLosesLastSlot(mem: Memory, q: Query, byteStep: bool, t: ScanTask, end: nat)
    requires GoodTask(q, byteStep, t, end) && Vectorized(q, byteStep) && t.scanEnd - t.start >= ValueSize(q.ty)
    ensures HitsOver(mem, q, end, TaskPlaces(q, byteStep, t))
         == HitsOver(mem, q, end, NeonPlaces(q, t)) + HitAt(mem, q, end, t.scanEnd - ValueSize(q.ty))
  {
    hide Walk, HitsOver, HitAt, Whole;
    var size := ValueSize(q.ty);
    var last: nat := t.scanEnd - size;
    assert Whole(size, size) && Whole(0, size) by { WholeMultiple(1, size); WholeMultiple(0, size); }
    WholeAdds(size, last - t.start, size);
    HitsCut(mem, q, end, t.start, last, t.scanEnd - size + 1, size);
    HitsWalk(mem, q, end, last, t.scanEnd - size + 1, size);
    HitsWalk(mem, q, end, last + size, t.scanEnd - size + 1, size);
  }

  /** So the vector branch is right on a task if and only if its last slot holds something else. */
  lemma NeonIsExactIff(mem: Memory, q: Query, byteStep: bool, t: ScanTask, end: nat)
    requires GoodTask(q, byteStep, t, end) && Vectorized(q, byteStep) && t.scanEnd - t.start >= ValueSize(q.ty)
    ensures HitsOver(mem, q, end, NeonPlaces(q, t)) == HitsOver(mem, q, end, TaskPlaces(q, byteStep, t))
      <==> SlotBits(mem, t.scanEnd - ValueSize(q.ty), ValueSize(q.ty)) != q.target
  {
    hide Walk, HitsOver, Whole;
    NeonLosesLastSlot(mem, q, byteStep, t, end);
    var size := ValueSize(q.ty);
    var w := Bytes(mem, t.scanEnd - size, size);
    assert w[..size] == w;
  }

  function SlotBits(mem: Memory, a: nat, size: nat): nat { LoadLE(Bytes(mem, a, size)) }
}
