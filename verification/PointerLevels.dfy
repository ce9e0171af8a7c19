/**
 One level of the pointer scan: every slot whose value comes within `max_offset` of a wanted address
 becomes a node that points at it. A level is found either by reading the slots from the process, in
 chunks and on several threads, or by looking the wanted addresses up in a sorted index.
 */
module PointerLevels {
  import opened Machine
  import opened Ordering
  import opened Collecting
  import opened Grid
  import opened ReadPace

  const TASK_SIZE := 8 * 1024 * 1024

  datatype Node = Node(address: u64, offset: i64, parent: int)
  datatype TargetRef = TargetRef(addr: u64, index: int)
  datatype Range = Range(start: nat, end: nat)
  datatype Task = Task(start: nat, end: nat, readEnd: nat)

  // ----- windows

  /** The window around an address, saturating at both ends of the 64-bit range. */
  function Low(centre: u64, m: u64): u64 { if centre >= m then centre - m else 0 }

  function High(centre: u64, m: u64): u64 {
    var sum := Add64(centre, m);
    if sum < centre then U64_LIMIT - 1 else sum
  }

  predicate InWindow(x: u64, centre: u64, m: u64) { Low(centre, m) <= x <= High(centre, m) }

  /** Saturation does not break symmetry: both windows say that the distance is at most `m`. */
  lemma WindowIsDistance(a: u64, b: u64, m: u64)
    ensures InWindow(a, b, m) <==> Abs(a - b) <= m
    ensures InWindow(a, b, m) <==> InWindow(b, a, m)
  {
  }

  /** The signed distance from a value to an address, when it fits into 64 bits. */
  function SafeDiff(target: u64, value: u64): Option<i64> {
    if target >= value then
      if target - value > I64_LIMIT - 1 then None else Some(target - value)
    else
      if value - target > I64_LIMIT - 1 then None else Some(-(value - target))
  }

  // ----- what one value contributes

  predicate Near(value: u64, target: u64, m: u64) {
    Abs(target - value) <= m && SafeDiff(target, value).Some?
  }

  function NodeFor(value: u64, addr: u64, ref: TargetRef, m: u64): seq<Node> {
    if Near(value, ref.addr, m) then [Node(addr, ref.addr - value, ref.index)] else []
  }

  function NodesFor(value: u64, addr: u64, refs: seq<TargetRef>, m: u64): seq<Node> {
    if value == 0 then [] else Collect(refs, (r: TargetRef) => NodeFor(value, addr, r, m))
  }

  predicate RefLe(a: TargetRef, b: TargetRef) { a.addr <= b.addr }

  /** A target outside the window around the value contributes nothing, one inside it its distance. */
  lemma WindowDecides(value: u64, addr: u64, ref: TargetRef, m: u64)
    ensures NodeFor(value, addr, ref, m) ==
      if !InWindow(ref.addr, value, m) || SafeDiff(ref.addr, value).None? then []
      else [Node(addr, SafeDiff(ref.addr, value).value, ref.index)]
  {
    WindowIsDistance(ref.addr, value, m);
  }

  lemma OutsideContributesNothing(value: u64, addr: u64, refs: seq<TargetRef>, m: u64)
    requires forall i :: 0 <= i < |refs| ==> !InWindow(refs[i].addr, value, m)
    ensures Collect(refs, (r: TargetRef) => NodeFor(value, addr, r, m)) == []
  {
    var f := (r: TargetRef) => NodeFor(value, addr, r, m);
    forall i | 0 <= i < |refs| ensures f(refs[i]) == [] {
      WindowDecides(value, addr, refs[i], m);
    }
    CollectNone(refs, f);
  }

  /** The nodes of the targets from position `k` on. */
  function NodesFrom(value: u64, addr: u64, refs: seq<TargetRef>, m: u64, k: nat): seq<Node>
    requires k <= |refs|
  {
    Collect(refs[k..], (r: TargetRef) => NodeFor(value, addr, r, m))
  }

  lemma NodesFromStep(value: u64, addr: u64, refs: seq<TargetRef>, m: u64, k: nat)
    requires k < |refs|
    ensures NodesFrom(value, addr, refs, m, k)
      == NodeFor(value, addr, refs[k], m) + NodesFrom(value, addr, refs, m, k + 1)
  {
    var f := (r: TargetRef) => NodeFor(value, addr, r, m);
    assert refs[k..] == [refs[k]] + refs[k + 1..];
    CollectOne(refs[k], refs[k + 1..], f);
  }

  lemma NodesFromSkip(value: u64, addr: u64, refs: seq<TargetRef>, m: u64, k: nat)
    requires k <= |refs| && forall i :: 0 <= i < k ==> !InWindow(refs[i].addr, value, m)
    ensures value != 0 ==> NodesFrom(value, addr, refs, m, k) == NodesFor(value, addr, refs, m)
  {
    var f := (r: TargetRef) => NodeFor(value, addr, r, m);
    OutsideContributesNothing(value, addr, refs[..k], m);
    CollectSplit(refs[..k], refs[k..], f);
    assert refs == refs[..k] + refs[k..];
  }

  /** `process_value`: the sorted targets inside the window around the value, in order. */
  method ProcessValue(value: u64, addr: u64, refs: seq<TargetRef>, m: u64) returns (found: seq<Node>)
    requires SortedBy(refs, RefLe)
    ensures found == NodesFor(value, addr, refs, m)
  {
    hide NodesFrom, NodeFor, SafeDiff, Low, High;
    found := [];
    if value == 0 {
      return;
    }
    var low, high := Low(value, m), High(value, m);
    var k := LowerBound(refs, 0, |refs|, (r: TargetRef) => r.addr < low);
    NodesFromSkip(value, addr, refs, m, k);
    while k < |refs| && refs[k].addr <= high
      invariant k <= |refs| && forall i :: k <= i < |refs| ==> low <= refs[i].addr
      invariant NodesFor(value, addr, refs, m) == found + NodesFrom(value, addr, refs, m, k)
    {
      NodesFromStep(value, addr, refs, m, k);
      WindowDecides(value, addr, refs[k], m);
      var diff := SafeDiff(refs[k].addr, value);
      if diff.Some? {
        found := found + [Node(addr, diff.value, refs[k].index)];
      }
      k := k + 1;
    }
    NodesFromEnd(value, addr, refs, m, k);
  }

  lemma NodesFromEnd(value: u64, addr: u64, refs: seq<TargetRef>, m: u64, k: nat)
    requires SortedBy(refs, RefLe) && k <= |refs| && (k == |refs| || refs[k].addr > High(value, m))
    ensures NodesFrom(value, addr, refs, m, k) == []
  {
    forall i | 0 <= i < |refs| - k ensures !InWindow(refs[k..][i].addr, value, m) {
      assert i == 0 || RefLe(refs[k], refs[k + i]);
    }
    OutsideContributesNothing(value, addr, refs[k..], m);
  }

  // ----- reading the slots of a task

  /** The slots of a task: aligned and wholly inside it, or, byte by byte, starting inside it. */
  function Stride(psize: nat, byteStep: bool): nat { if byteStep then 1 else psize }

  function FirstSlot(t: Task, psize: nat, byteStep: bool): nat
    requires psize > 0
  {
    if byteStep then t.start else RoundUp(t.start, psize)
  }

  function SlotBound(t: Task, psize: nat): int { Min(t.end, t.readEnd - psize + 1) }

  function TaskSlots(t: Task, psize: nat, byteStep: bool): seq<nat>
    requires psize > 0
  {
    Walk(FirstSlot(t, psize, byteStep), SlotBound(t, psize), Stride(psize, byteStep))
  }

  predicate PointerSize(psize: nat) { psize == 4 || psize == 8 }

  predicate GoodTask(t: Task, byteStep: bool) {
    t.start <= t.end <= t.readEnd <= TAG_LIMIT && (!byteStep ==> t.readEnd == t.end)
  }

  function NodesAt(mem: Memory, psize: nat, a: nat, refs: seq<TargetRef>, m: u64): seq<Node>
    requires PointerSize(psize)
  {
    if a < TAG_LIMIT then NodesFor(SlotValue(mem, a, psize), a, refs, m) else []
  }

  function NodesOver(mem: Memory, psize: nat, slots: seq<nat>, refs: seq<TargetRef>, m: u64): seq<Node>
    requires PointerSize(psize)
  {
    Collect(slots, (a: nat) => NodesAt(mem, psize, a, refs, m))
  }

  lemma NodesOverWalk(mem: Memory, psize: nat, from: nat, to: int, step: nat, refs: seq<TargetRef>, m: u64)
    requires PointerSize(psize) && step > 0
    ensures NodesOver(mem, psize, Walk(from, to, step), refs, m) ==
      if from >= to then []
      else NodesAt(mem, psize, from, refs, m) + NodesOver(mem, psize, Walk(from + step, to, step), refs, m)
  {
    if from < to {
      CollectOne(from, Walk(from + step, to, step), (a: nat) => NodesAt(mem, psize, a, refs, m));
    }
  }

  lemma NodesOverCut(mem: Memory, psize: nat, from: nat, mid: nat, to: int, step: nat, refs: seq<TargetRef>, m: u64)
    requires PointerSize(psize) && step > 0 && from <= mid && Whole(mid - from, step)
    ensures NodesOver(mem, psize, Walk(from, to, step), refs, m)
         == NodesOver(mem, psize, Walk(from, Min(mid, to), step), refs, m)
          + NodesOver(mem, psize, Walk(mid, to, step), refs, m)
  {
    WalkSplit(from, mid, to, step);
    CollectSplit(Walk(from, Min(mid, to), step), Walk(mid, to, step), (a: nat) => NodesAt(mem, psize, a, refs, m));
  }

  /** One buffer of a batch read: the slots that start before `scanLimit` and end inside the buffer. */
  method ScanChunk(ghost mem: Memory, buffer: seq<byte>, addr: nat, scanLimit: nat, psize: nat, step: nat,
                   refs: seq<TargetRef>, m: u64) returns (nodes: seq<Node>)
    requires PointerSize(psize) && step > 0 && SortedBy(refs, RefLe)
    requires buffer == Bytes(mem, addr, |buffer|) && addr + |buffer| <= TAG_LIMIT
    ensures nodes == NodesOver(mem, psize, Walk(addr, Min(scanLimit, addr + |buffer| - psize + 1), step), refs, m)
  {
    hide NodesOver, NodesFor, PointerOf, Walk;
    nodes := [];
    var bytes := |buffer|;
    var limit := if bytes >= psize then bytes - psize + 1 else 0;
    var offset: nat := 0;
    ghost var bound := Min(scanLimit, addr + |buffer| - psize + 1);
    while offset < limit
      invariant NodesOver(mem, psize, Walk(addr, bound, step), refs, m)
             == nodes + NodesOver(mem, psize, Walk(addr + offset, bound, step), refs, m)
      decreases limit + step - offset
    {
      NodesOverWalk(mem, psize, addr + offset, bound, step, refs, m);
      if addr + offset >= scanLimit {
        break;
      }
      assert buffer[offset..offset + psize] == Bytes(mem, addr + offset, psize);
      var value := PointerOf(buffer[offset..offset + psize]);
      var found := ProcessValue(value, addr + offset, refs, m);
      nodes := nodes + found;
      offset := offset + step;
    }
    NodesOverWalk(mem, psize, addr + offset, bound, step, refs, m);
  }

  /** One request of a batch: read `size` bytes at `addr`, look at slots before `limit`, go on at `next`. */
  datatype Piece = Piece(addr: nat, size: nat, limit: nat, next: nat)

  ghost predicate GoodPiece(p: Piece, t: Task, psize: nat, byteStep: bool)
    requires PointerSize(psize)
  {
    && psize <= p.size && p.addr + p.size <= t.readEnd
    && p.limit == Min(t.end, p.addr + p.size)
    && p.next == (if byteStep then p.addr + p.size - (psize - 1) else p.addr + p.size)
    && Whole(p.next - p.addr, Stride(psize, byteStep))
  }

  /** The slots a piece looks at are those from its address up to where the next piece starts. */
  lemma PieceCovers(p: Piece, t: Task, psize: nat, byteStep: bool)
    requires PointerSize(psize) && GoodTask(t, byteStep) && GoodPiece(p, t, psize, byteStep)
    ensures Walk(p.addr, Min(p.limit, p.addr + p.size - psize + 1), Stride(psize, byteStep))
         == Walk(p.addr, Min(p.next, SlotBound(t, psize)), Stride(psize, byteStep))
  {
    if !byteStep {
      WalkBound(p.addr, p.next, p.addr + p.size - psize + 1, psize);
      WalkBound(p.addr, p.next, Min(p.next, SlotBound(t, psize)), psize);
    }
  }

  /** The size of the next request, from what is left and the current chunk size. */
  function ChunkSize(remaining: nat, dynamic: nat, psize: nat, byteStep: bool): nat
    requires PointerSize(psize)
  {
    var wanted := Min(Min(remaining, dynamic), MAX_CHUNK);
    var chunk := if wanted < MIN_CHUNK then Min(remaining, MIN_CHUNK) else wanted;
    if byteStep then chunk else RoundDown(chunk, psize)
  }

  /** The next request of a batch, or none when what is left cannot hold a pointer. */
  function PlanPiece(t: Task, cursor: nat, dynamic: nat, psize: nat, byteStep: bool): Option<Piece>
    requires PointerSize(psize) && cursor < t.readEnd
  {
    var chunk := ChunkSize(t.readEnd - cursor, dynamic, psize, byteStep);
    var overlap: nat := if byteStep then psize - 1 else 0;
    if chunk == 0 || (byteStep && chunk < psize) then None
    else
      var advance := if byteStep && chunk > overlap then chunk - overlap else chunk;
      Some(Piece(cursor, chunk, Min(t.end, cursor + chunk), cursor + advance))
  }

  lemma PlanPieceGood(t: Task, cursor: nat, dynamic: nat, psize: nat, byteStep: bool)
    requires PointerSize(psize) && GoodTask(t, byteStep) && MIN_CHUNK <= dynamic <= MAX_CHUNK && cursor < t.readEnd
    ensures match PlanPiece(t, cursor, dynamic, psize, byteStep)
      case None => SlotBound(t, psize) <= cursor
      case Some(p) => GoodPiece(p, t, psize, byteStep) && p.addr == cursor && cursor < p.next
  {
    hide Whole, RoundDown;
    var chunk := ChunkSize(t.readEnd - cursor, dynamic, psize, byteStep);
    if byteStep {
      if chunk >= psize { WholeBytes(chunk - (psize - 1)); }
    } else {
      assert chunk > 0 ==> chunk >= psize by { WholeAtLeast(chunk, psize); }
    }
  }

  /** Where the cursor stands after the first `i` requests. */
  function Reached(batch: seq<Piece>, cursor: nat, i: nat): nat
    requires i <= |batch|
  {
    if i == 0 then cursor else batch[i - 1].next
  }

  /** A batch lies back to back, each piece within the task. */
  ghost predicate GoodBatch(batch: seq<Piece>, t: Task, cursor: nat, psize: nat, byteStep: bool)
    requires PointerSize(psize)
  {
    forall i :: 0 <= i < |batch| ==>
      && GoodPiece(batch[i], t, psize, byteStep) && batch[i].addr == Reached(batch, cursor, i)
      && batch[i].addr < batch[i].next
  }

  /** Every piece is the one planned next. */
  ghost predicate InPlan(batch: seq<Piece>, t: Task, cursor: nat, dynamic: nat, psize: nat, byteStep: bool)
    requires PointerSize(psize)
  {
    forall i :: 0 <= i < |batch| ==>
      Reached(batch, cursor, i) < t.readEnd
      && PlanPiece(t, Reached(batch, cursor, i), dynamic, psize, byteStep) == Some(batch[i])
  }

  /** Fewer than four pieces are planned only if no more can be. */
  ghost predicate Planned(batch: seq<Piece>, t: Task, cursor: nat, dynamic: nat, psize: nat, byteStep: bool)
    requires PointerSize(psize)
  {
    InPlan(batch, t, cursor, dynamic, psize, byteStep)
    && (|batch| == BATCH || Exhausted(t, Reached(batch, cursor, |batch|), dynamic, psize, byteStep))
  }

  lemma PlanMore(batch: seq<Piece>, p: Piece, t: Task, cursor: nat, dynamic: nat, psize: nat, byteStep: bool)
    requires PointerSize(psize)
    requires GoodBatch(batch, t, cursor, psize, byteStep) && InPlan(batch, t, cursor, dynamic, psize, byteStep)
    requires var at := Reached(batch, cursor, |batch|);
      at < t.readEnd && PlanPiece(t, at, dynamic, psize, byteStep) == Some(p)
      && GoodPiece(p, t, psize, byteStep) && p.addr == at < p.next
    ensures GoodBatch(batch + [p], t, cursor, psize, byteStep)
    ensures InPlan(batch + [p], t, cursor, dynamic, psize, byteStep)
    ensures Reached(batch + [p], cursor, |batch| + 1) == p.next
  {
    hide GoodPiece, PlanPiece, Reached;
    var more := batch + [p];
    SameReached(batch, p, cursor);
    forall i | 0 <= i < |more|
      ensures GoodPiece(more[i], t, psize, byteStep) && more[i].addr == Reached(more, cursor, i)
        && more[i].addr < more[i].next
      ensures Reached(more, cursor, i) < t.readEnd
      ensures PlanPiece(t, Reached(more, cursor, i), dynamic, psize, byteStep) == Some(more[i])
    {
      assert Reached(more, cursor, i) == Reached(batch, cursor, i);
      if i < |batch| { assert more[i] == batch[i]; }
    }
  }

  lemma SameReached(batch: seq<Piece>, p: Piece, cursor: nat)
    ensures forall i :: 0 <= i <= |batch| ==> Reached(batch + [p], cursor, i) == Reached(batch, cursor, i)
    ensures Reached(batch + [p], cursor, |batch| + 1) == p.next
  {
  }

  predicate Exhausted(t: Task, cursor: nat, dynamic: nat, psize: nat, byteStep: bool)
    requires PointerSize(psize)
  {
    cursor >= t.readEnd || PlanPiece(t, cursor, dynamic, psize, byteStep).None?
  }

  /** Up to four requests, back to back (overlapping by less than a pointer in byte mode). */
  method PlanBatch(t: Task, cursor: nat, dynamic: nat, psize: nat, byteStep: bool)
    returns (batch: seq<Piece>)
    requires PointerSize(psize) && GoodTask(t, byteStep) && MIN_CHUNK <= dynamic <= MAX_CHUNK
    ensures |batch| <= BATCH && GoodBatch(batch, t, cursor, psize, byteStep)
    ensures Planned(batch, t, cursor, dynamic, psize, byteStep)
    ensures batch == [] ==> SlotBound(t, psize) <= cursor
  {
    hide GoodPiece, GoodTask, PlanPiece, GoodBatch, InPlan;
    var next := cursor;
    batch := [];
    NoPieces(t, cursor, dynamic, psize, byteStep);
    while |batch| < BATCH && next < t.readEnd
      invariant |batch| <= BATCH && GoodBatch(batch, t, cursor, psize, byteStep)
      invariant next == Reached(batch, cursor, |batch|) && InPlan(batch, t, cursor, dynamic, psize, byteStep)
    {
      PlanPieceGood(t, next, dynamic, psize, byteStep);
      var piece := PlanPiece(t, next, dynamic, psize, byteStep);
      if piece.None? {
        break;
      }
      PlanMore(batch, piece.value, t, cursor, dynamic, psize, byteStep);
      batch := batch + [piece.value];
      next := piece.value.next;
    }
  }

  lemma NoPieces(t: Task, cursor: nat, dynamic: nat, psize: nat, byteStep: bool)
    requires PointerSize(psize)
    ensures GoodBatch([], t, cursor, psize, byteStep) && InPlan([], t, cursor, dynamic, psize, byteStep)
  {
  }

  // ----- how much of a task a thread gets

  /** The start positions from `cursor` on, in bytes. */
  function Left(t: Task, cursor: nat, psize: nat, byteStep: bool): nat
    requires PointerSize(psize)
  {
    if cursor >= t.readEnd then 0
    else if byteStep then LeftAfter(t.readEnd - cursor, psize - 1)
    else RoundDown(t.readEnd - cursor, psize)
  }

  /** How many a piece of the longest readable length covers. */
  function PerRead(psize: nat, byteStep: bool): (r: nat)
    requires PointerSize(psize)
    ensures r > 0
  {
    Covered(MAX_READ, psize, byteStep)
  }

  function Covered(chunk: nat, psize: nat, byteStep: bool): nat
    requires PointerSize(psize) && chunk >= MAX_READ
  {
    if byteStep then chunk - (psize - 1) else chunk
  }

  predicate Doubled(chunk: nat) { chunk == MAX_READ || chunk == 2 * MAX_READ || chunk == 4 * MAX_READ }

  lemma DoubledIsWhole(chunk: nat, psize: nat)
    requires PointerSize(psize) && Doubled(chunk)
    ensures Whole(chunk, psize)
  {
    WholeMultiple(chunk / psize, psize);
    assert (chunk / psize) * psize == chunk;
  }

  lemma RoundDownLess(n: nat, d: nat, s: nat)
    requires s > 0 && Whole(d, s) && d <= n
    ensures RoundDown(n, s) >= d && RoundDown(n - d, s) == RoundDown(n, s) - d
  {
    hide Whole, RoundDown;
    var r := RoundDown(n - d, s);
    WholeAdds(d, r, s);
    RoundDownIs(n, d + r, s);
  }

  /** One piece takes what it covers; it is longer than one read iff more is left than one read covers. */
  ghost predicate Takes(t: Task, cursor: nat, chunk: nat, psize: nat, byteStep: bool)
    requires PointerSize(psize) && cursor < t.readEnd && chunk >= MAX_READ
  {
    var left := Left(t, cursor, psize, byteStep);
    match PlanPiece(t, cursor, chunk, psize, byteStep)
    case None => left == 0
    case Some(p) =>
      && left > 0 && Left(t, p.next, psize, byteStep) == LeftAfter(left, Covered(chunk, psize, byteStep))
      && (p.size > MAX_READ <==> chunk > MAX_READ && left > PerRead(psize, byteStep))
  }

  lemma PieceTakes(t: Task, cursor: nat, chunk: nat, psize: nat, byteStep: bool)
    requires PointerSize(psize) && cursor < t.readEnd && Doubled(chunk)
    ensures Takes(t, cursor, chunk, psize, byteStep)
  {
    hide Whole, RoundDown;
    if !byteStep { AlignedPieceTakes(t, cursor, chunk, psize); }
  }

  lemma AlignedPieceTakes(t: Task, cursor: nat, chunk: nat, psize: nat)
    requires PointerSize(psize) && cursor < t.readEnd && Doubled(chunk)
    ensures Takes(t, cursor, chunk, psize, false)
  {
    hide Whole, RoundDown;
    var remaining: nat := t.readEnd - cursor;
    DoubledIsWhole(chunk, psize);
    if chunk <= remaining {
      RoundDownIs(chunk, chunk, psize);
      RoundDownLess(remaining, chunk, psize);
      DoubledIsWhole(MAX_READ, psize);
    } else {
      LastPiece(remaining, chunk, psize);
    }
  }

  lemma ZeroIsRound(s: nat)
    requires s > 0
    ensures RoundDown(0, s) == 0
  {
  }

  /** What is rounded off is less than a step. */
  lemma LastPiece(remaining: nat, chunk: nat, s: nat)
    requires s > 0 && remaining < chunk && Whole(chunk, s)
    ensures RoundDown(remaining, s) <= chunk && RoundDown(remaining - RoundDown(remaining, s), s) == 0
  {
    ZeroIsRound(s);
  }

  lemma NothingBetween(a: nat, b: nat, s: nat)
    requires s > 0 && a <= b
    ensures RoundDown(a, s) <= RoundDown(b, s)
  {
    hide Whole;
    var d := RoundDown(a, s);
    RoundDownLess(b, d, s);
  }

  /** What one piece of a batch takes. */
  lemma PieceOfBatch(batch: seq<Piece>, t: Task, cursor: nat, chunk: nat, psize: nat, byteStep: bool, i: nat)
    requires PointerSize(psize) && Doubled(chunk) && i < |batch| && Planned(batch, t, cursor, chunk, psize, byteStep)
    ensures var left := Left(t, Reached(batch, cursor, i), psize, byteStep);
      && left > 0 && (batch[i].size > MAX_READ <==> chunk > MAX_READ && left > PerRead(psize, byteStep))
      && Left(t, Reached(batch, cursor, i + 1), psize, byteStep) == LeftAfter(left, Covered(chunk, psize, byteStep))
  {
    hide PlanPiece, Left, Covered;
    PieceTakes(t, Reached(batch, cursor, i), chunk, psize, byteStep);
    assert PlanPiece(t, Reached(batch, cursor, i), chunk, psize, byteStep) == Some(batch[i]);
  }

  /** What `i` full pieces leave. */
  function LeftAfterPieces(left: nat, covered: nat, i: nat): nat {
    if i == 0 then left else LeftAfter(LeftAfterPieces(left, covered, i - 1), covered)
  }

  /** After `i` pieces of a batch. */
  lemma {:induction false} BatchTakes(batch: seq<Piece>, t: Task, cursor: nat, chunk: nat, psize: nat, byteStep: bool,
                                      i: nat)
    requires PointerSize(psize) && Doubled(chunk) && i <= |batch|
    requires Planned(batch, t, cursor, chunk, psize, byteStep)
    ensures Left(t, Reached(batch, cursor, i), psize, byteStep)
         == LeftAfterPieces(Left(t, cursor, psize, byteStep), Covered(chunk, psize, byteStep), i)
  {
    hide Planned, Left, Covered, LeftAfter;
    if i > 0 {
      BatchTakes(batch, t, cursor, chunk, psize, byteStep, i - 1);
      PieceOfBatch(batch, t, cursor, chunk, psize, byteStep, i - 1);
    }
  }

  /** Four pieces take four times what one covers; fewer pieces that leave nothing take no less. */
  lemma FourPieces(left: nat, covered: nat, i: nat)
    requires i <= 4 && (i == 4 || LeftAfterPieces(left, covered, i) == 0)
    ensures LeftAfterPieces(left, covered, i) == LeftAfter(left, 4 * covered)
  {
    assert LeftAfterPieces(left, covered, 4) == LeftAfter(left, 4 * covered) by {
      assert LeftAfterPieces(left, covered, 1) == LeftAfter(left, covered);
      assert LeftAfterPieces(left, covered, 2) == LeftAfter(left, 2 * covered);
      assert LeftAfterPieces(left, covered, 3) == LeftAfter(left, 3 * covered);
    }
    if i < 4 { StaysEmpty(left, covered, i, 4); }
  }

  lemma {:induction false} StaysEmpty(left: nat, covered: nat, i: nat, j: nat)
    requires i <= j && LeftAfterPieces(left, covered, i) == 0
    ensures LeftAfterPieces(left, covered, j) == 0
    decreases j - i
  {
    if i < j { StaysEmpty(left, covered, i, j - 1); }
  }

  /** A batch takes four full pieces, or all there is; some piece is too long iff the first one is. */
  lemma BatchLeaves(batch: seq<Piece>, t: Task, cursor: nat, chunk: nat, psize: nat, byteStep: bool)
    requires PointerSize(psize) && Doubled(chunk) && |batch| <= BATCH && cursor < t.readEnd
    requires Planned(batch, t, cursor, chunk, psize, byteStep)
    ensures var left := Left(t, cursor, psize, byteStep);
      && (batch == [] <==> left == 0)
      && Left(t, Reached(batch, cursor, |batch|), psize, byteStep)
        == LeftAfter(left, 4 * Covered(chunk, psize, byteStep))
      && ((exists i :: 0 <= i < |batch| && batch[i].size > MAX_READ) <==>
        chunk > MAX_READ && left > PerRead(psize, byteStep))
  {
    hide PlanPiece, Left, Planned, Covered, LeftAfter, LeftAfterPieces;
    var left, c := Left(t, cursor, psize, byteStep), Covered(chunk, psize, byteStep);
    if |batch| < BATCH { BatchEnds(batch, t, cursor, chunk, psize, byteStep); }
    BatchTakes(batch, t, cursor, chunk, psize, byteStep, |batch|);
    FourPieces(left, c, |batch|);
    forall i | 0 <= i < |batch| && batch[i].size > MAX_READ
      ensures chunk > MAX_READ && left > PerRead(psize, byteStep)
    {
      BatchTakes(batch, t, cursor, chunk, psize, byteStep, i);
      PieceOfBatch(batch, t, cursor, chunk, psize, byteStep, i);
      NoMore(left, c, i);
    }
    if batch != [] {
      PieceOfBatch(batch, t, cursor, chunk, psize, byteStep, 0);
      assert batch[0].size > MAX_READ <==> chunk > MAX_READ && left > PerRead(psize, byteStep);
    }
  }

  lemma {:induction false} NoMore(left: nat, covered: nat, i: nat)
    ensures LeftAfterPieces(left, covered, i) <= left
  {
    if i > 0 { NoMore(left, covered, i - 1); }
  }

  lemma BatchEnds(batch: seq<Piece>, t: Task, cursor: nat, chunk: nat, psize: nat, byteStep: bool)
    requires PointerSize(psize) && Doubled(chunk) && |batch| < BATCH
      && Planned(batch, t, cursor, chunk, psize, byteStep)
    ensures Left(t, Reached(batch, cursor, |batch|), psize, byteStep) == 0
  {
    AllTaken(t, Reached(batch, cursor, |batch|), chunk, psize, byteStep);
  }

  lemma AllTaken(t: Task, cursor: nat, chunk: nat, psize: nat, byteStep: bool)
    requires PointerSize(psize) && Doubled(chunk) && Exhausted(t, cursor, chunk, psize, byteStep)
    ensures Left(t, cursor, psize, byteStep) == 0
  {
    if cursor < t.readEnd { PieceTakes(t, cursor, chunk, psize, byteStep); }
  }

  // ----- replies

  /**
   What comes back for a batch: nothing, or for each piece a front part of it, of at most one read. `prompt` says that
   every piece came back as far as the agent returns any.
   */
  method ReadBatch(mem: Memory, batch: seq<Piece>) returns (sent: bool, buffers: seq<seq<byte>>, ghost prompt: bool)
    ensures sent ==> |buffers| == |batch| && forall i :: 0 <= i < |batch| ==>
      |buffers[i]| <= Min(batch[i].size, MAX_READ) && buffers[i] == Bytes(mem, batch[i].addr, |buffers[i]|)
    ensures prompt <==> sent && forall i :: 0 <= i < |batch| ==> |buffers[i]| == Min(batch[i].size, MAX_READ)
  {
    sent, buffers, prompt := *, [], false;
    if !sent {
      return;
    }
    prompt := true;
    for i := 0 to |batch|
      invariant |buffers| == i && forall j :: 0 <= j < i ==>
        |buffers[j]| <= Min(batch[j].size, MAX_READ) && buffers[j] == Bytes(mem, batch[j].addr, |buffers[j]|)
      invariant prompt <==> forall j :: 0 <= j < i ==> |buffers[j]| == Min(batch[j].size, MAX_READ)
    {
      var n: nat :| n <= Min(batch[i].size, MAX_READ);
      prompt := prompt && n == Min(batch[i].size, MAX_READ);
      buffers := buffers + [Bytes(mem, batch[i].addr, n)];
    }
  }

  /** The slots from `cursor` to the end of the task. */
  function Rest(t: Task, cursor: nat, psize: nat, byteStep: bool): seq<nat>
    requires PointerSize(psize)
  {
    Walk(cursor, SlotBound(t, psize), Stride(psize, byteStep))
  }

  /** The slots of a piece that lie in the first `n` bytes of it. */
  function Shown(p: Piece, n: nat, psize: nat, byteStep: bool): seq<nat>
    requires PointerSize(psize)
  {
    Walk(p.addr, Min(p.limit, p.addr + n - psize + 1), Stride(psize, byteStep))
  }

  /** A task reads no farther than its last slot. */
  predicate Snug(t: Task, psize: nat) { t.readEnd < t.end + psize }

  lemma {:induction false} WalkPrefix(from: nat, to: int, more: int, step: nat)
    requires step > 0 && to <= more
    ensures Walk(from, to, step) <= Walk(from, more, step)
    decreases if from < to then to - from else 0
  {
    if from < to { WalkPrefix(from + step, to, more, step); }
  }

  /** A short reply shows fewer slots than the piece has; a full one shows them all. */
  lemma PieceShows(t: Task, p: Piece, n: nat, psize: nat, byteStep: bool)
    requires PointerSize(psize) && GoodTask(t, byteStep) && GoodPiece(p, t, psize, byteStep) && n <= p.size
    ensures Shown(p, n, psize, byteStep) <= Shown(p, p.size, psize, byteStep)
    ensures n < p.size && Snug(t, psize) ==> |Shown(p, n, psize, byteStep)| < |Shown(p, p.size, psize, byteStep)|
  {
    hide Walk, Whole;
    var step, last := Stride(psize, byteStep), p.addr + p.size - psize;
    var few, all := Min(p.limit, p.addr + n - psize + 1), Min(p.limit, p.addr + p.size - psize + 1);
    WalkPrefix(p.addr, few, all, step);
    if n < p.size && Snug(t, psize) {
      LastIsOnGrid(p, t, psize, byteStep);
      WalkMember(p.addr, few, step, last);
      WalkMember(p.addr, all, step, last);
      assert Walk(p.addr, few, step) != Walk(p.addr, all, step);
    }
  }

  lemma LastIsOnGrid(p: Piece, t: Task, psize: nat, byteStep: bool)
    requires PointerSize(psize) && GoodPiece(p, t, psize, byteStep)
    ensures Whole(p.size - psize, Stride(psize, byteStep))
  {
    if byteStep { WholeBytes(p.size - psize); }
  }

  /** Looking through one piece leaves the slots from the next piece on. */
  lemma PieceStep(t: Task, p: Piece, psize: nat, byteStep: bool)
    requires PointerSize(psize) && GoodTask(t, byteStep) && GoodPiece(p, t, psize, byteStep) && p.addr < p.next
    ensures Rest(t, p.addr, psize, byteStep) == Shown(p, p.size, psize, byteStep) + Rest(t, p.next, psize, byteStep)
  {
    hide Walk;
    PieceCovers(p, t, psize, byteStep);
    WalkSplit(p.addr, p.next, SlotBound(t, psize), Stride(psize, byteStep));
  }

  /** What was looked at, of the slots there were, when the cursor has come to `end`. */
  ghost predicate LookedAt(looked: seq<nat>, rest: seq<nat>, all: seq<nat>, complete: bool, snug: bool) {
    && multiset(looked) + multiset(rest) <= multiset(all)
    && (complete ==> looked + rest == all)
    && (!complete && snug ==> |looked| + |rest| < |all|)
  }

  lemma LookOn(looked: seq<nat>, piece: seq<nat>, whole: seq<nat>, rest: seq<nat>, next: seq<nat>, all: seq<nat>,
               complete: bool, snug: bool, full: bool)
    requires LookedAt(looked, rest, all, complete, snug) && rest == whole + next && piece <= whole
    requires full ==> piece == whole
    requires !full && snug ==> |piece| < |whole|
    ensures LookedAt(looked + piece, next, all, complete && full, snug)
  {
    assert whole == piece + whole[|piece|..];
    assert multiset(rest) == multiset(whole) + multiset(next);
    assert multiset(whole) == multiset(piece) + multiset(whole[|piece|..]);
    assert multiset(looked + piece) == multiset(looked) + multiset(piece);
    if complete && full { assert looked + (whole + next) == looked + whole + next; }
  }

  /** The nodes of some of the slots are among those of all of them. */
  lemma FewerSlots(mem: Memory, psize: nat, some: seq<nat>, all: seq<nat>, refs: seq<TargetRef>, m: u64)
    requires PointerSize(psize) && multiset(some) <= multiset(all)
    ensures multiset(NodesOver(mem, psize, some, refs, m)) <= multiset(NodesOver(mem, psize, all, refs, m))
  {
    CollectFewer(some, all, (a: nat) => NodesAt(mem, psize, a, refs, m));
  }

  lemma NodesOverMore(mem: Memory, psize: nat, a: seq<nat>, b: seq<nat>, refs: seq<TargetRef>, m: u64)
    requires PointerSize(psize)
    ensures NodesOver(mem, psize, a + b, refs, m)
      == NodesOver(mem, psize, a, refs, m) + NodesOver(mem, psize, b, refs, m)
  {
    CollectSplit(a, b, (x: nat) => NodesAt(mem, psize, x, refs, m));
  }

  /**
   Looks through the buffers of a batch. In strict mode one that is shorter than its piece ends the scan; otherwise what
   is missing is passed over.
   */
  method ScanBatch(mem: Memory, t: Task, batch: seq<Piece>, buffers: seq<seq<byte>>, cursor: nat, psize: nat,
                   byteStep: bool, strict: bool, refs: seq<TargetRef>, m: u64)
    returns (nodes: seq<Node>, failed: bool, complete: bool, next: nat, ghost looked: seq<nat>)
    requires PointerSize(psize) && GoodTask(t, byteStep) && SortedBy(refs, RefLe) && batch != []
    requires GoodBatch(batch, t, cursor, psize, byteStep) && |buffers| == |batch|
    requires forall i :: 0 <= i < |batch| ==>
      |buffers[i]| <= batch[i].size && buffers[i] == Bytes(mem, batch[i].addr, |buffers[i]|)
    ensures failed <==> strict && !complete
    ensures complete <==> forall i :: 0 <= i < |batch| ==> |buffers[i]| == batch[i].size
    ensures nodes == NodesOver(mem, psize, looked, refs, m)
    ensures LookedAt(looked, Rest(t, next, psize, byteStep), Rest(t, cursor, psize, byteStep), complete, Snug(t, psize))
    ensures !failed ==> cursor < next == Reached(batch, cursor, |batch|)
  {
    hide NodesOver, Walk, Whole, GoodTask, GoodPiece, GoodBatch, Rest, Shown, LookedAt, Snug, Reached;
    nodes, looked, failed, complete, next := [], [], false, true, cursor;
    ghost var all, snug := Rest(t, cursor, psize, byteStep), Snug(t, psize);
    NothingLooked(all, snug);
    NoNodes(mem, psize, refs, m);
    BatchAdvances(batch, t, cursor, psize, byteStep);
    assert Reached(batch, cursor, 0) == cursor by { StartsThere(batch, cursor); }
    for i := 0 to |batch|
      invariant !failed && (strict ==> complete)
      invariant complete <==> forall j :: 0 <= j < i ==> |buffers[j]| == batch[j].size
      invariant nodes == NodesOver(mem, psize, looked, refs, m)
      invariant next == Reached(batch, cursor, i)
      invariant LookedAt(looked, Rest(t, next, psize, byteStep), all, complete, snug)
    {
      var p, buffer := batch[i], buffers[i];
      PieceAt(batch, t, cursor, psize, byteStep, i);
      LookAtPiece(t, p, |buffer|, psize, byteStep, looked, all, complete);
      if strict && |buffer| < p.size {
        failed, complete, next := true, false, p.next;
        return;
      }
      var found := ScanPiece(mem, t, p, buffer, psize, byteStep, refs, m);
      ghost var piece := Shown(p, |buffer|, psize, byteStep);
      NodesOverMore(mem, psize, looked, piece, refs, m);
      nodes, looked, complete, next := nodes + found, looked + piece, complete && |buffer| == p.size, p.next;
    }
  }

  lemma StartsThere(batch: seq<Piece>, cursor: nat)
    ensures Reached(batch, cursor, 0) == cursor
  {
  }

  lemma PieceAt(batch: seq<Piece>, t: Task, cursor: nat, psize: nat, byteStep: bool, i: nat)
    requires PointerSize(psize) && GoodBatch(batch, t, cursor, psize, byteStep) && i < |batch|
    ensures GoodPiece(batch[i], t, psize, byteStep) && batch[i].addr == Reached(batch, cursor, i) < batch[i].next
    ensures Reached(batch, cursor, i + 1) == batch[i].next
  {
    hide GoodPiece;
  }

  lemma NothingLooked(all: seq<nat>, snug: bool)
    ensures LookedAt([], all, all, true, snug)
  {
    assert [] + all == all;
  }

  lemma NoNodes(mem: Memory, psize: nat, refs: seq<TargetRef>, m: u64)
    requires PointerSize(psize)
    ensures NodesOver(mem, psize, [], refs, m) == []
  {
  }

  lemma NoneInNothing(p: Piece, psize: nat, byteStep: bool)
    requires PointerSize(psize)
    ensures Shown(p, 0, psize, byteStep) == []
  {
  }

  /** A piece of which `n` bytes came, or that is passed over altogether. */
  lemma LookAtPiece(t: Task, p: Piece, n: nat, psize: nat, byteStep: bool, looked: seq<nat>, all: seq<nat>,
                    complete: bool)
    requires PointerSize(psize) && GoodTask(t, byteStep) && GoodPiece(p, t, psize, byteStep) && p.addr < p.next
      && n <= p.size
    requires LookedAt(looked, Rest(t, p.addr, psize, byteStep), all, complete, Snug(t, psize))
    ensures LookedAt(looked + Shown(p, n, psize, byteStep), Rest(t, p.next, psize, byteStep), all,
      complete && n == p.size, Snug(t, psize))
    ensures LookedAt(looked, Rest(t, p.next, psize, byteStep), all, false, Snug(t, psize))
  {
    hide LookedAt, GoodTask, GoodPiece, Snug, Rest, Shown;
    var whole := Shown(p, p.size, psize, byteStep);
    var rest, next := Rest(t, p.addr, psize, byteStep), Rest(t, p.next, psize, byteStep);
    PieceStep(t, p, psize, byteStep);
    PieceShows(t, p, n, psize, byteStep);
    LookOn(looked, Shown(p, n, psize, byteStep), whole, rest, next, all, complete, Snug(t, psize), n == p.size);
    PieceHasBytes(t, p, psize, byteStep);
    PieceShows(t, p, 0, psize, byteStep);
    NoneInNothing(p, psize, byteStep);
    LookOn(looked, [], whole, rest, next, all, complete, Snug(t, psize), false);
    assert looked + [] == looked;
  }

  lemma PieceHasBytes(t: Task, p: Piece, psize: nat, byteStep: bool)
    requires PointerSize(psize) && GoodPiece(p, t, psize, byteStep)
    ensures p.size > 0
  {
  }

  lemma {:induction false} BatchAdvances(batch: seq<Piece>, t: Task, cursor: nat, psize: nat, byteStep: bool)
    requires PointerSize(psize) && GoodBatch(batch, t, cursor, psize, byteStep)
    ensures cursor <= Reached(batch, cursor, |batch|) && (batch != [] ==> cursor < Reached(batch, cursor, |batch|))
    decreases |batch|
  {
    hide GoodPiece;
    if batch != [] {
      var init := batch[..|batch| - 1];
      assert forall i :: 0 <= i <= |init| ==> Reached(init, cursor, i) == Reached(batch, cursor, i);
      BatchAdvances(init, t, cursor, psize, byteStep);
      assert batch[|init|].addr == Reached(batch, cursor, |init|);
    }
  }

  /** Asks for a batch and looks through what comes. A batch that fails costs the scan, or at least its first piece. */
  method AskBatch(mem: Memory, t: Task, batch: seq<Piece>, cursor: nat, psize: nat, byteStep: bool, strict: bool,
                  refs: seq<TargetRef>, m: u64)
    returns (sent: bool, nodes: seq<Node>, failed: bool, complete: bool, next: nat,
             ghost looked: seq<nat>, ghost prompt: bool)
    requires PointerSize(psize) && GoodTask(t, byteStep) && SortedBy(refs, RefLe) && batch != []
    requires GoodBatch(batch, t, cursor, psize, byteStep)
    ensures failed <==> strict && !complete
    ensures nodes == NodesOver(mem, psize, looked, refs, m)
    ensures LookedAt(looked, Rest(t, next, psize, byteStep), Rest(t, cursor, psize, byteStep), complete, Snug(t, psize))
    ensures !failed ==> cursor < next
    ensures prompt && !failed ==> next == Reached(batch, cursor, |batch|)
    ensures (complete ==> prompt) && (prompt ==> sent)
    ensures prompt ==> (complete <==> forall i :: 0 <= i < |batch| ==> Min(batch[i].size, MAX_READ) == batch[i].size)
  {
    hide NodesOver, GoodTask, GoodBatch, Rest, LookedAt, Snug, Reached;
    nodes, looked, complete, failed := [], [], false, strict;
    var buffers;
    sent, buffers, prompt := ReadBatch(mem, batch);
    if !sent {
      NoNodes(mem, psize, refs, m);
      NothingLooked(Rest(t, cursor, psize, byteStep), Snug(t, psize));
      PassOver(t, batch, cursor, psize, byteStep, [], Rest(t, cursor, psize, byteStep), true, Snug(t, psize));
      next := batch[0].next;
      return;
    }
    nodes, failed, complete, next, looked :=
      ScanBatch(mem, t, batch, buffers, cursor, psize, byteStep, strict, refs, m);
    AsFarAsComes(batch, buffers, prompt, complete);
  }

  lemma AsFarAsComes(batch: seq<Piece>, buffers: seq<seq<byte>>, prompt: bool, complete: bool)
    requires |buffers| == |batch|
    requires forall i :: 0 <= i < |batch| ==> |buffers[i]| <= Min(batch[i].size, MAX_READ)
    requires prompt <==> forall i :: 0 <= i < |batch| ==> |buffers[i]| == Min(batch[i].size, MAX_READ)
    requires complete <==> forall i :: 0 <= i < |batch| ==> |buffers[i]| == batch[i].size
    ensures complete ==> prompt
    ensures prompt ==> (complete <==> forall i :: 0 <= i < |batch| ==> Min(batch[i].size, MAX_READ) == batch[i].size)
  {
  }

  method ScanPiece(mem: Memory, t: Task, p: Piece, buffer: seq<byte>, psize: nat, byteStep: bool, refs: seq<TargetRef>,
                   m: u64)
    returns (nodes: seq<Node>)
    requires PointerSize(psize) && GoodTask(t, byteStep) && SortedBy(refs, RefLe) && GoodPiece(p, t, psize, byteStep)
    requires |buffer| <= p.size && buffer == Bytes(mem, p.addr, |buffer|)
    ensures nodes == NodesOver(mem, psize, Shown(p, |buffer|, psize, byteStep), refs, m)
  {
    hide NodesOver, Walk, Whole;
    nodes := ScanChunk(mem, buffer, p.addr, p.limit, psize, Stride(psize, byteStep), refs, m);
  }

  // ----- one task

  /** The start positions of a task, in bytes. */
  function Positions(t: Task, psize: nat, byteStep: bool): nat
    requires PointerSize(psize)
  {
    Left(t, FirstSlot(t, psize, byteStep), psize, byteStep)
  }

  /** How far a thread has got that began a task of `all` positions after `n0` batches. */
  ghost predicate OnPace(reach: nat, n0: nat, all: nat, p: Pace, n: nat, left: nat, complete: bool)
    requires reach > 0
  {
    && n0 <= 4 && n <= 4 && After(p, n) && Done(reach, n, left) == Done(reach, n0, all)
    && (if complete then Cut(reach, n, left) <==> Cut(reach, n0, all) else Cut(reach, n0, all))
  }

  /** One answered batch. */
  lemma BatchOnPace(batch: seq<Piece>, t: Task, cursor: nat, psize: nat, byteStep: bool,
                    n0: nat, all: nat, p: Pace, n: nat, complete: bool, full: bool)
    requires PointerSize(psize) && |batch| <= BATCH && cursor < t.readEnd && batch != []
    requires Planned(batch, t, cursor, p.chunk, psize, byteStep)
    requires OnPace(PerRead(psize, byteStep), n0, all, p, n, Left(t, cursor, psize, byteStep), complete)
    requires full <==> forall i :: 0 <= i < |batch| ==> Min(batch[i].size, MAX_READ) == batch[i].size
    ensures OnPace(PerRead(psize, byteStep), n0, all, Faster(p), Min(4, n + 1),
      Left(t, Reached(batch, cursor, |batch|), psize, byteStep), complete && full)
  {
    hide Planned, Left, LeftAfter, Done, Cut;
    var reach, left := PerRead(psize, byteStep), Left(t, cursor, psize, byteStep);
    assert Doubled(p.chunk);
    BatchLeaves(batch, t, cursor, p.chunk, psize, byteStep);
    AfterOneMore(p, n);
    assert full <==> !exists i :: 0 <= i < |batch| && batch[i].size > MAX_READ;
    if n < 4 {
      BatchStep(reach, n, left);
    } else {
      LongPieces(reach, left, Covered(p.chunk, psize, byteStep));
    }
  }

  /** With long pieces the task is cut unless one read takes what is left of it. */
  lemma LongPieces(reach: nat, left: nat, covered: nat)
    requires reach > 0 && covered >= reach
    ensures Cut(reach, 4, left) <==> left > reach
    ensures Done(reach, 4, left) == Done(reach, 4, LeftAfter(left, 4 * covered)) == 4
    ensures left <= reach ==> !Cut(reach, 4, LeftAfter(left, 4 * covered))
  {
  }

  /**
   Scans one task. `pace` is what the thread's earlier tasks left it with. A batch may fail: in strict mode that ends
   the scan, otherwise its first piece is passed over; so may a piece come back short. `looked` are the slots looked at.
   If the agent returns all it can (`prompt`), the pieces come back whole exactly as long as the pace is not too fast.
   */
  method ScanOneTask(mem: Memory, t: Task, psize: nat, byteStep: bool, strict: bool, refs: seq<TargetRef>, m: u64,
                     start: Pace, ghost n0: nat)
    returns (nodes: seq<Node>, failed: bool, complete: bool, pace: Pace, ghost looked: seq<nat>, ghost prompt: bool)
    requires PointerSize(psize) && GoodTask(t, byteStep) && SortedBy(refs, RefLe)
    requires Fair(start) && n0 <= 4
    ensures nodes == NodesOver(mem, psize, looked, refs, m)
    ensures multiset(looked) <= multiset(TaskSlots(t, psize, byteStep))
    ensures complete ==> looked == TaskSlots(t, psize, byteStep)
    ensures !complete && Snug(t, psize) ==> |looked| < |TaskSlots(t, psize, byteStep)|
    ensures failed <==> strict && !complete
    ensures complete ==> prompt
    ensures Fair(pace)
    ensures prompt && After(start, n0) ==>
      var reach, all := PerRead(psize, byteStep), Positions(t, psize, byteStep);
      (complete <==> !Cut(reach, n0, all)) && (!failed ==> After(pace, Done(reach, n0, all)))
  {
    hide NodesOver, Walk, RoundUp, RoundDown, Whole, LookedAt, Snug, Planned, OnPace, After, Done, Cut, Left, PerRead;
    ghost var snug, reach, all := Snug(t, psize), PerRead(psize, byteStep), Positions(t, psize, byteStep);
    var cursor := FirstSlot(t, psize, byteStep);
    ghost var whole := Rest(t, cursor, psize, byteStep);
    ghost var n: nat := n0;
    pace, nodes, failed, complete, looked, prompt := start, [], false, true, [], true;
    NothingLooked(whole, snug);
    NoNodes(mem, psize, refs, m);
    StartsOnPace(reach, n0, all, start);
    while cursor < t.readEnd
      invariant !failed && (strict ==> complete) && (complete ==> prompt) && Fair(pace)
      invariant nodes == NodesOver(mem, psize, looked, refs, m)
      invariant LookedAt(looked, Rest(t, cursor, psize, byteStep), whole, complete, snug)
      invariant prompt && After(start, n0) ==>
        OnPace(reach, n0, all, pace, n, Left(t, cursor, psize, byteStep), complete)
      decreases if cursor < t.readEnd then t.readEnd - cursor else 0
    {
      var batch := PlanBatch(t, cursor, pace.chunk, psize, byteStep);
      if batch == [] {
        if prompt && After(start, n0) {
          PlansNothing(batch, t, cursor, pace, n, psize, byteStep, reach, n0, all, complete);
        }
        break;
      }
      var sent, found, stopped, full, next;
      ghost var more, quick;
      sent, found, stopped, full, next, more, quick :=
        AskBatch(mem, t, batch, cursor, psize, byteStep, strict, refs, m);
      NodesOverMore(mem, psize, looked, more, refs, m);
      LookFurther(looked, more, Rest(t, cursor, psize, byteStep), Rest(t, next, psize, byteStep), whole, complete, full,
        snug);
      if prompt && quick && After(start, n0) {
        BatchOnPace(batch, t, cursor, psize, byteStep, n0, all, pace, n, complete, full);
      }
      nodes, looked, complete, prompt := nodes + found, looked + more, complete && full, prompt && quick;
      n := Min(4, n + 1);
      if stopped {
        failed := true;
        SomeLooked(looked, Rest(t, next, psize, byteStep), whole, complete, snug);
        if prompt && After(start, n0) {
          var end := Reached(batch, cursor, |batch|);
          PaceMeans(reach, n0, all, Faster(pace), n, Left(t, end, psize, byteStep), complete);
        }
        return;
      }
      pace, cursor := if sent then Faster(pace) else Slower(pace), next;
    }
    PastEnd(t, cursor, psize, byteStep);
    RestEmpty(t, cursor, psize, byteStep);
    SomeLooked(looked, [], whole, complete, snug);
    if prompt && After(start, n0) { PaceMeans(reach, n0, all, pace, n, 0, complete); }
  }

  lemma PastEnd(t: Task, cursor: nat, psize: nat, byteStep: bool)
    requires PointerSize(psize)
    ensures cursor >= t.readEnd ==> Left(t, cursor, psize, byteStep) == 0
  {
  }

  lemma PlansNothing(batch: seq<Piece>, t: Task, cursor: nat, p: Pace, n: nat, psize: nat, byteStep: bool,
                     reach: nat, n0: nat, all: nat, complete: bool)
    requires PointerSize(psize) && batch == [] && cursor < t.readEnd && reach > 0
    requires Planned(batch, t, cursor, p.chunk, psize, byteStep)
    requires OnPace(reach, n0, all, p, n, Left(t, cursor, psize, byteStep), complete)
    ensures Left(t, cursor, psize, byteStep) == 0
  {
    hide Planned, Left, Done, Cut, PerRead;
    BatchLeaves(batch, t, cursor, p.chunk, psize, byteStep);
  }

  lemma RestEmpty(t: Task, cursor: nat, psize: nat, byteStep: bool)
    requires PointerSize(psize) && (cursor >= t.readEnd || SlotBound(t, psize) <= cursor)
    ensures Rest(t, cursor, psize, byteStep) == []
  {
  }

  lemma SomeLooked(looked: seq<nat>, rest: seq<nat>, all: seq<nat>, complete: bool, snug: bool)
    requires LookedAt(looked, rest, all, complete, snug)
    ensures multiset(looked) <= multiset(all) && (!complete && snug ==> |looked| < |all|)
    ensures complete && rest == [] ==> looked == all
  {
    assert looked + [] == looked;
  }

  lemma LookFurther(looked: seq<nat>, more: seq<nat>, rest: seq<nat>, next: seq<nat>, all: seq<nat>,
                    complete: bool, full: bool, snug: bool)
    requires LookedAt(looked, rest, all, complete, snug) && LookedAt(more, next, rest, full, snug)
    ensures LookedAt(looked + more, next, all, complete && full, snug)
  {
    assert multiset(looked + more) == multiset(looked) + multiset(more);
    assert |rest| == |multiset(rest)| && |multiset(more) + multiset(next)| == |more| + |next|;
    FewerInSub(multiset(more) + multiset(next), multiset(rest));
    FewerInSub(multiset(looked) + multiset(rest), multiset(all));
    if complete && full { assert looked + (more + next) == looked + more + next; }
  }

  lemma FewerInSub(a: multiset<nat>, b: multiset<nat>)
    requires a <= b
    ensures |a| <= |b|
  {
    assert b == a + (b - a);
  }

  lemma PassOver(t: Task, batch: seq<Piece>, cursor: nat, psize: nat, byteStep: bool, looked: seq<nat>, all: seq<nat>,
                 complete: bool, snug: bool)
    requires PointerSize(psize) && GoodTask(t, byteStep) && batch != [] && GoodBatch(batch, t, cursor, psize, byteStep)
    requires snug == Snug(t, psize) && LookedAt(looked, Rest(t, cursor, psize, byteStep), all, complete, snug)
    ensures cursor < batch[0].next
    ensures LookedAt(looked, Rest(t, batch[0].next, psize, byteStep), all, false, snug)
  {
    hide GoodPiece, LookedAt, Snug;
    var p := batch[0];
    assert GoodPiece(p, t, psize, byteStep) && p.addr == Reached(batch, cursor, 0);
    LookAtPiece(t, p, 0, psize, byteStep, looked, all, complete);
  }

  lemma StartsOnPace(reach: nat, n0: nat, all: nat, start: Pace)
    requires reach > 0 && n0 <= 4
    ensures After(start, n0) ==> OnPace(reach, n0, all, start, n0, all, true)
  {
  }

  lemma PaceMeans(reach: nat, n0: nat, all: nat, p: Pace, n: nat, left: nat, complete: bool)
    requires reach > 0 && OnPace(reach, n0, all, p, n, left, complete) && (complete ==> left == 0)
    ensures complete <==> !Cut(reach, n0, all)
    ensures left == 0 ==> After(p, Done(reach, n0, all))
  {
    hide Done, Cut, After;
    NoneLeft(reach, n);
  }
}
