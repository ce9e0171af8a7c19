/**
 The value scanner: a first scan over all selected regions on several threads, and next scans that
 narrow its results down without losing their order.
 */
module MemoryScanner {
  import opened Machine
  import opened Ordering
  import opened Grid
  import opened Collecting
  import opened ClaimQueue
  import opened ScanQuery
  import opened FirstScanTasks

  const MAX_RESULTS := 20_000_000

  /** A mapping; `selected` is whether its permissions and kind pass the scanner's filters. */
  datatype Region = Region(start: nat, end: nat, selected: bool)

  // ----- the first scan

  /** The tasks of one region, from `cursor` on. */
  function RegionTasks(q: Query, byteStep: bool, cursor: nat, end: nat): seq<ScanTask>
    decreases if cursor < end then end - cursor else 0
  {
    if cursor >= end then []
    else
      var next := NextTask(q, byteStep, cursor, end);
      if next.None? || next.value.scanEnd <= cursor then []
      else [next.value] + RegionTasks(q, byteStep, next.value.scanEnd, end)
  }

  /** What a worker reports for a task, on the scalar or on the vector path. */
  function TaskHits(mem: Memory, q: Query, byteStep: bool, neon: bool, t: ScanTask): seq<Hit> {
    HitsOver(mem, q, t.readEnd,
      if neon && Vectorized(q, byteStep) then NeonPlaces(q, t) else TaskPlaces(q, byteStep, t))
  }

  function TasksHits(mem: Memory, q: Query, byteStep: bool, neon: bool, tasks: seq<ScanTask>): seq<Hit> {
    Collect(tasks, (t: ScanTask) => TaskHits(mem, q, byteStep, neon, t))
  }

  /** Seen from its own buffer or from the whole region, a task finds the same. */
  lemma TaskHitsInRegion(mem: Memory, q: Query, byteStep: bool, t: ScanTask, end: nat)
    requires GoodTask(q, byteStep, t, end) && MinMatch(q) > 0
    ensures TaskHits(mem, q, byteStep, false, t) == HitsOver(mem, q, end, TaskPlaces(q, byteStep, t))
  {
    var places := TaskPlaces(q, byteStep, t);
    var f := (a: nat) => HitAt(mem, q, t.readEnd, a);
    var g := (a: nat) => HitAt(mem, q, end, a);
    forall i | 0 <= i < |places| ensures f(places[i]) == g(places[i]) {
      WindowInBuffer(q, byteStep, t, end, places[i]);
    }
    CollectSame(places, f, g);
  }

  /** However a region is cut, its tasks together find every match in it, in order and once. */
  lemma {:induction false} TasksFindRegion(mem: Memory, q: Query, byteStep: bool, cursor: nat, end: nat)
    requires 0 < MinMatch(q) <= CHUNK_SIZE
    ensures TasksHits(mem, q, byteStep, false, RegionTasks(q, byteStep, cursor, end))
         == RegionHits(mem, q, byteStep, cursor, end)
    decreases if cursor < end then end - cursor else 0
  {
    hide HitsOver, Walk, GoodTask, TaskHits, NextTask, FirstScanTasks.TaskPlaces;
    var step, bound := Step(q, byteStep), end - MinMatch(q) + 1;
    HitsWalk(mem, q, end, cursor, bound, step);
    if cursor < end {
      NextTaskCovers(q, byteStep, cursor, end);
      var next := NextTask(q, byteStep, cursor, end);
      if next.Some? {
        var t := next.value;
        GoodTaskAdvances(q, byteStep, t, end);
        var rest := RegionTasks(q, byteStep, t.scanEnd, end);
        TasksFindRegion(mem, q, byteStep, t.scanEnd, end);
        CollectOne(t, rest, (t: ScanTask) => TaskHits(mem, q, byteStep, false, t));
        TaskHitsInRegion(mem, q, byteStep, t, end);
        HitsCut(mem, q, end, cursor, t.scanEnd, bound, step);
      } else {
        NoHits(mem, q, end);
      }
    }
  }

  lemma NoHits(mem: Memory, q: Query, end: nat)
    ensures HitsOver(mem, q, end, []) == []
  {
  }

  lemma GoodTaskAdvances(q: Query, byteStep: bool, t: ScanTask, end: nat)
    requires GoodTask(q, byteStep, t, end)
    ensures t.start < t.scanEnd <= end && GoodTask(q, byteStep, t, t.readEnd)
  {
  }

  /** A pattern longer than a chunk is cut into no task at all and so never found. */
  lemma LongPatternsAreMissed(q: Query, byteStep: bool, cursor: nat, end: nat)
    requires MinMatch(q) > CHUNK_SIZE
    ensures RegionTasks(q, byteStep, cursor, end) == []
  {
    hide Whole;
  }

  lemma {:induction false} RegionTasksGood(q: Query, byteStep: bool, cursor: nat, end: nat)
    requires MinMatch(q) > 0
    ensures forall t :: t in RegionTasks(q, byteStep, cursor, end) ==> GoodTask(q, byteStep, t, t.readEnd)
    decreases if cursor < end then end - cursor else 0
  {
    hide GoodTask, NextTask, Walk;
    if MinMatch(q) > CHUNK_SIZE {
      LongPatternsAreMissed(q, byteStep, cursor, end);
    } else if cursor < end {
      NextTaskCovers(q, byteStep, cursor, end);
      var next := NextTask(q, byteStep, cursor, end);
      if next.Some? && next.value.scanEnd > cursor {
        GoodTaskAdvances(q, byteStep, next.value, end);
        RegionTasksGood(q, byteStep, next.value.scanEnd, end);
        assert RegionTasks(q, byteStep, cursor, end)
          == [next.value] + RegionTasks(q, byteStep, next.value.scanEnd, end);
      }
    }
  }

  lemma HitAtMeaning(mem: Memory, q: Query, end: nat, a: nat, h: Hit)
    ensures h in HitAt(mem, q, end, a) <==>
      h.addr == a <= end && FirstMatch(q, Bytes(mem, a, Min(Need(q), end - a))) == Some(h.value)
  {
    hide FirstMatch, Need;
  }

  /** What a region's hits are: the matching places on the scan's grid. */
  lemma RegionHitsMeaning(mem: Memory, q: Query, byteStep: bool, start: nat, end: nat, h: Hit)
    requires MinMatch(q) > 0
    ensures h in RegionHits(mem, q, byteStep, start, end) <==>
      && start <= h.addr && h.addr + MinMatch(q) <= end && Whole(h.addr - start, Step(q, byteStep))
      && FirstMatch(q, Bytes(mem, h.addr, Min(Need(q), end - h.addr))) == Some(h.value)
  {
    hide FirstMatch, Whole, HitAt, Need, Walk;
    var places := Places(q, byteStep, start, end);
    CollectMember(places, (a: nat) => HitAt(mem, q, end, a), h);
    WalkMember(start, end - MinMatch(q) + 1, Step(q, byteStep), h.addr);
    HitAtMeaning(mem, q, end, h.addr, h);
    forall a ensures h in HitAt(mem, q, end, a) ==> a == h.addr {
      HitAtMeaning(mem, q, end, a, h);
    }
  }

  /** A memory that holds the bytes of `pattern` from `start` on. */
  function Laid(pattern: seq<byte>, start: nat): Memory {
    (x: nat) => if start <= x < start + |pattern| then pattern[x - start] else 0
  }

  /** There the pattern is a match, and nothing reports it if it is longer than a chunk. */
  lemma LongPatternMissed(q: Query, byteStep: bool, start: nat, end: nat)
    requires IsPattern(q.ty) && 0 < |q.pattern| && start + |q.pattern| <= end
    ensures Hit(start, FirstBits(q.pattern, |q.pattern|)) in RegionHits(Laid(q.pattern, start), q, byteStep, start, end)
    ensures |q.pattern| > CHUNK_SIZE ==>
      TasksHits(Laid(q.pattern, start), q, byteStep, false, RegionTasks(q, byteStep, start, end)) == []
  {
    hide RegionHits, FirstBits, TaskHits, RegionTasks;
    var mem := Laid(q.pattern, start);
    var w := Bytes(mem, start, |q.pattern|);
    assert w == q.pattern && w[..|q.pattern|] == q.pattern;
    RegionHitsMeaning(mem, q, byteStep, start, end, Hit(start, FirstBits(q.pattern, |q.pattern|)));
    if |q.pattern| > CHUNK_SIZE { LongPatternsAreMissed(q, byteStep, start, end); }
  }

  /**
   A region that can hold the pattern is searched rightly, whatever it holds, if and only if the pattern fits a chunk.
   */
  lemma PatternFoundIff(q: Query, byteStep: bool, start: nat, end: nat)
    requires IsPattern(q.ty) && 0 < |q.pattern| && start + |q.pattern| <= end
    ensures (forall mem: Memory ::
      TasksHits(mem, q, byteStep, false, RegionTasks(q, byteStep, start, end))
        == RegionHits(mem, q, byteStep, start, end))
      <==> |q.pattern| <= 0x10_0000
  {
    hide RegionHits, FirstBits, TasksHits, RegionTasks;
    if |q.pattern| <= CHUNK_SIZE {
      forall mem: Memory
        ensures TasksHits(mem, q, byteStep, false, RegionTasks(q, byteStep, start, end))
          == RegionHits(mem, q, byteStep, start, end)
      {
        TasksFindRegion(mem, q, byteStep, start, end);
      }
    } else {
      LongPatternMissed(q, byteStep, start, end);
    }
  }

  /** They come in ascending order, so none is reported twice. */
  lemma {:induction false} HitsAscend(mem: Memory, q: Query, end: nat, from: nat, to: int, step: nat)
    requires step > 0
    ensures var hits := HitsOver(mem, q, end, Walk(from, to, step));
      && (forall i, j :: 0 <= i < j < |hits| ==> hits[i].addr < hits[j].addr)
      && (forall i :: 0 <= i < |hits| ==> from <= hits[i].addr)
    decreases if from < to then to - from else 0
  {
    hide HitsOver, FirstMatch, Walk;
    HitsWalk(mem, q, end, from, to, step);
    if from < to {
      HitsAscend(mem, q, end, from + step, to, step);
    }
  }

  /** Clipping to the scan range and dropping what the filters exclude. */
  function Clip(r: Region, low: nat, high: nat): Option<Region> {
    var start: nat, end: nat := Max(r.start, low), Min(r.end, high);
    if !r.selected || r.end <= r.start || end <= start then None else Some(Region(start, end, true))
  }

  function ClipTasks(q: Query, byteStep: bool, clip: Option<Region>): seq<ScanTask> {
    if clip.None? then [] else RegionTasks(q, byteStep, clip.value.start, clip.value.end)
  }

  function ClipHits(mem: Memory, q: Query, byteStep: bool, clip: Option<Region>): seq<Hit> {
    if clip.None? then [] else RegionHits(mem, q, byteStep, clip.value.start, clip.value.end)
  }

  function AllTasks(q: Query, byteStep: bool, regions: seq<Region>, low: nat, high: nat): seq<ScanTask> {
    Collect(regions, (r: Region) => ClipTasks(q, byteStep, Clip(r, low, high)))
  }

  /** The intended result of a first scan. */
  function AllHits(mem: Memory, q: Query, byteStep: bool, regions: seq<Region>, low: nat, high: nat): seq<Hit> {
    Collect(regions, (r: Region) => ClipHits(mem, q, byteStep, Clip(r, low, high)))
  }

  lemma {:induction false} TasksFindAll(mem: Memory, q: Query, byteStep: bool, regions: seq<Region>, low: nat,
                                        high: nat)
    requires 0 < MinMatch(q) <= CHUNK_SIZE
    ensures TasksHits(mem, q, byteStep, false, AllTasks(q, byteStep, regions, low, high))
         == AllHits(mem, q, byteStep, regions, low, high)
  {
    hide RegionTasks, RegionHits, TaskHits, Clip;
    if regions != [] {
      var clip := Clip(regions[0], low, high);
      TasksFindAll(mem, q, byteStep, regions[1..], low, high);
      if clip.Some? { TasksFindRegion(mem, q, byteStep, clip.value.start, clip.value.end); }
      CollectSplit(ClipTasks(q, byteStep, clip), AllTasks(q, byteStep, regions[1..], low, high),
                   (t: ScanTask) => TaskHits(mem, q, byteStep, false, t));
    }
  }

  lemma AllTasksGood(q: Query, byteStep: bool, regions: seq<Region>, low: nat, high: nat)
    requires MinMatch(q) > 0
    ensures forall t :: t in AllTasks(q, byteStep, regions, low, high) ==> GoodTask(q, byteStep, t, t.readEnd)
  {
    hide GoodTask, RegionTasks, Clip;
    forall t | t in AllTasks(q, byteStep, regions, low, high) ensures GoodTask(q, byteStep, t, t.readEnd) {
      CollectMember(regions, (r: Region) => ClipTasks(q, byteStep, Clip(r, low, high)), t);
      var r :| r in regions && t in ClipTasks(q, byteStep, Clip(r, low, high));
      var clip := Clip(r, low, high).value;
      RegionTasksGood(q, byteStep, clip.start, clip.end);
    }
  }

  /** Some selected region, clipped to the scan range, has room for a match. */
  ghost predicate HasRoom(q: Query, regions: seq<Region>, low: nat, high: nat) {
    exists r :: r in regions && RoomIn(q, Clip(r, low, high))
  }

  predicate RoomIn(q: Query, clip: Option<Region>) { clip.Some? && clip.value.start + MinMatch(q) <= clip.value.end }

  /** The whole scan finds a pattern wherever it lies if and only if it fits a chunk, or no region could hold it. */
  lemma ScanFindsPatternIff(q: Query, byteStep: bool, regions: seq<Region>, low: nat, high: nat)
    requires IsPattern(q.ty) && 0 < |q.pattern|
    ensures (forall mem: Memory ::
      TasksHits(mem, q, byteStep, false, AllTasks(q, byteStep, regions, low, high))
        == AllHits(mem, q, byteStep, regions, low, high))
      <==> |q.pattern| <= 0x10_0000 || !HasRoom(q, regions, low, high)
  {
    hide RegionHits, RegionTasks, TasksHits, AllTasks, AllHits, Clip, FirstBits;
    if |q.pattern| <= CHUNK_SIZE {
      forall mem: Memory
        ensures TasksHits(mem, q, byteStep, false, AllTasks(q, byteStep, regions, low, high))
          == AllHits(mem, q, byteStep, regions, low, high)
      {
        TasksFindAll(mem, q, byteStep, regions, low, high);
      }
    } else {
      NothingCut(q, byteStep, regions, low, high);
      forall mem: Memory ensures TasksHits(mem, q, byteStep, false, AllTasks(q, byteStep, regions, low, high)) == [] {
        NoTasksNoHits(mem, q, byteStep, false);
      }
      if HasRoom(q, regions, low, high) {
        var r :| r in regions && RoomIn(q, Clip(r, low, high));
        var clip := Clip(r, low, high).value;
        LongPatternMissed(q, byteStep, clip.start, clip.end);
        HitOfRegion(Laid(q.pattern, clip.start), q, byteStep, regions, low, high, r,
          Hit(clip.start, FirstBits(q.pattern, |q.pattern|)));
      } else {
        forall mem: Memory ensures AllHits(mem, q, byteStep, regions, low, high) == [] {
          NoRoomNoHits(mem, q, byteStep, regions, low, high);
        }
      }
    }
  }

  lemma NothingCut(q: Query, byteStep: bool, regions: seq<Region>, low: nat, high: nat)
    requires MinMatch(q) > CHUNK_SIZE
    ensures AllTasks(q, byteStep, regions, low, high) == []
  {
    hide RegionTasks, Clip;
    forall i | 0 <= i < |regions| ensures ClipTasks(q, byteStep, Clip(regions[i], low, high)) == [] {
      var clip := Clip(regions[i], low, high);
      if clip.Some? { LongPatternsAreMissed(q, byteStep, clip.value.start, clip.value.end); }
    }
    CollectNone(regions, (r: Region) => ClipTasks(q, byteStep, Clip(r, low, high)));
  }

  lemma HitOfRegion(mem: Memory, q: Query, byteStep: bool, regions: seq<Region>, low: nat, high: nat, r: Region, h: Hit)
    requires r in regions && h in ClipHits(mem, q, byteStep, Clip(r, low, high))
    ensures h in AllHits(mem, q, byteStep, regions, low, high)
  {
    hide ClipHits, Clip;
    CollectMember(regions, (r: Region) => ClipHits(mem, q, byteStep, Clip(r, low, high)), h);
  }

  lemma NoRoomNoHits(mem: Memory, q: Query, byteStep: bool, regions: seq<Region>, low: nat, high: nat)
    requires !HasRoom(q, regions, low, high)
    ensures AllHits(mem, q, byteStep, regions, low, high) == []
  {
    hide Clip, HitAt;
    forall i | 0 <= i < |regions| ensures ClipHits(mem, q, byteStep, Clip(regions[i], low, high)) == [] {
      assert regions[i] in regions && !RoomIn(q, Clip(regions[i], low, high));
    }
    CollectNone(regions, (r: Region) => ClipHits(mem, q, byteStep, Clip(r, low, high)));
  }

  method CutRegion(q: Query, byteStep: bool, start: nat, end: nat) returns (tasks: seq<ScanTask>)
    ensures tasks == RegionTasks(q, byteStep, start, end)
  {
    hide NextTask, Walk;
    tasks := [];
    var cursor := start;
    while cursor < end
      invariant RegionTasks(q, byteStep, start, end) == tasks + RegionTasks(q, byteStep, cursor, end)
    {
      var next := NextTask(q, byteStep, cursor, end);
      if next.None? || next.value.scanEnd <= cursor {
        break;
      }
      assert forall rest: seq<ScanTask> :: tasks + ([next.value] + rest) == (tasks + [next.value]) + rest;
      tasks, cursor := tasks + [next.value], next.value.scanEnd;
    }
  }

  lemma AllTasksStep(q: Query, byteStep: bool, regions: seq<Region>, low: nat, high: nat, i: nat)
    requires i < |regions|
    ensures AllTasks(q, byteStep, regions[i..], low, high)
         == ClipTasks(q, byteStep, Clip(regions[i], low, high)) + AllTasks(q, byteStep, regions[i + 1..], low, high)
  {
    assert regions[i..] == [regions[i]] + regions[i + 1..];
    CollectOne(regions[i], regions[i + 1..], (r: Region) => ClipTasks(q, byteStep, Clip(r, low, high)));
  }

  method CutClipped(q: Query, byteStep: bool, r: Region, low: nat, high: nat) returns (tasks: seq<ScanTask>)
    ensures tasks == ClipTasks(q, byteStep, Clip(r, low, high))
  {
    hide RegionTasks;
    tasks := [];
    var start: nat, end: nat := Max(r.start, low), Min(r.end, high);
    if r.selected && r.start < r.end && start < end {
      tasks := CutRegion(q, byteStep, start, end);
    }
  }

  method CutRegions(q: Query, byteStep: bool, regions: seq<Region>, low: nat, high: nat) returns (tasks: seq<ScanTask>)
    ensures tasks == AllTasks(q, byteStep, regions, low, high)
  {
    hide ClipTasks, AllTasks;
    tasks := [];
    NoRegionsNoTasks(q, byteStep, low, high);
    assert regions[0..] == regions;
    for i := 0 to |regions|
      invariant AllTasks(q, byteStep, regions, low, high) == tasks + AllTasks(q, byteStep, regions[i..], low, high)
    {
      AllTasksStep(q, byteStep, regions, low, high, i);
      var more := CutClipped(q, byteStep, regions[i], low, high);
      tasks := tasks + more;
    }
    assert regions[|regions|..] == [];
  }

  lemma NoRegionsNoTasks(q: Query, byteStep: bool, low: nat, high: nat)
    ensures AllTasks(q, byteStep, [], low, high) == []
  {
  }

  /** Without the vector branch both settings of the build are the same scan. */
  lemma ScalarHits(mem: Memory, q: Query, byteStep: bool, neon: bool, tasks: seq<ScanTask>)
    requires !(neon && Vectorized(q, byteStep))
    ensures TasksHits(mem, q, byteStep, neon, tasks) == TasksHits(mem, q, byteStep, false, tasks)
  {
    CollectSame(tasks, (t: ScanTask) => TaskHits(mem, q, byteStep, neon, t),
      (t: ScanTask) => TaskHits(mem, q, byteStep, false, t));
  }

  /** The hits in the last slots of the tasks. */
  function LastHit(mem: Memory, q: Query, t: ScanTask): seq<Hit> {
    if t.scanEnd < ValueSize(q.ty) then [] else HitAt(mem, q, t.readEnd, t.scanEnd - ValueSize(q.ty))
  }

  function LastSlotHits(mem: Memory, q: Query, tasks: seq<ScanTask>): seq<Hit> {
    Collect(tasks, (t: ScanTask) => LastHit(mem, q, t))
  }

  /** A scan on the vector branch misses the last slot of every task and nothing else. */
  lemma {:induction false} VectorScanLoss(mem: Memory, q: Query, byteStep: bool, tasks: seq<ScanTask>)
    requires Vectorized(q, byteStep)
    requires forall t :: t in tasks ==> GoodTask(q, byteStep, t, t.readEnd) && t.scanEnd - t.start >= ValueSize(q.ty)
    ensures multiset(TasksHits(mem, q, byteStep, false, tasks))
         == multiset(TasksHits(mem, q, byteStep, true, tasks)) + multiset(LastSlotHits(mem, q, tasks))
  {
    hide HitAt, GoodTask, TaskHits, Vectorized, ValueSize;
    if tasks != [] {
      var t := tasks[0];
      assert t in tasks && forall u :: u in tasks[1..] ==> u in tasks;
      LastSlotsStep(mem, q, tasks);
      VectorScanLoss(mem, q, byteStep, tasks[1..]);
      TaskLoss(mem, q, byteStep, t);
      MergeLoss(TaskHits(mem, q, byteStep, false, t), TaskHits(mem, q, byteStep, true, t), LastSlotHits(mem, q, [t]),
                TasksHits(mem, q, byteStep, false, tasks[1..]), TasksHits(mem, q, byteStep, true, tasks[1..]),
                LastSlotHits(mem, q, tasks[1..]));
    }
  }

  lemma LastSlotsStep(mem: Memory, q: Query, tasks: seq<ScanTask>)
    requires tasks != []
    ensures LastSlotHits(mem, q, tasks) == LastSlotHits(mem, q, [tasks[0]]) + LastSlotHits(mem, q, tasks[1..])
  {
    hide HitAt;
    assert tasks == [tasks[0]] + tasks[1..];
    CollectSplit([tasks[0]], tasks[1..], (t: ScanTask) => LastHit(mem, q, t));
  }

  lemma TaskLoss(mem: Memory, q: Query, byteStep: bool, t: ScanTask)
    requires Vectorized(q, byteStep) && GoodTask(q, byteStep, t, t.readEnd) && t.scanEnd - t.start >= ValueSize(q.ty)
    ensures TaskHits(mem, q, byteStep, false, t) == TaskHits(mem, q, byteStep, true, t) + LastSlotHits(mem, q, [t])
  {
    hide HitsOver, HitAt, NeonPlaces, FirstScanTasks.TaskPlaces;
    NeonLosesLastSlot(mem, q, byteStep, t, t.readEnd);
    assert [t] == [t] + [];
    CollectOne(t, [], (t: ScanTask) => LastHit(mem, q, t));
  }

  lemma MergeLoss(all: seq<Hit>, some: seq<Hit>, lost: seq<Hit>, all': seq<Hit>, some': seq<Hit>, lost': seq<Hit>)
    requires all == some + lost && multiset(all') == multiset(some') + multiset(lost')
    ensures multiset(all + all') == multiset(some + some') + multiset(lost + lost')
  {
  }

  /** So it reports what was asked for if and only if no task ends in a slot that holds the target. */
  lemma VectorScanExactIff(mem: Memory, q: Query, byteStep: bool, tasks: seq<ScanTask>)
    requires Vectorized(q, byteStep)
    requires forall t :: t in tasks ==> GoodTask(q, byteStep, t, t.readEnd) && t.scanEnd - t.start >= ValueSize(q.ty)
    ensures multiset(TasksHits(mem, q, byteStep, true, tasks)) == multiset(TasksHits(mem, q, byteStep, false, tasks))
      <==> forall t :: t in tasks ==> SlotBits(mem, t.scanEnd - ValueSize(q.ty), ValueSize(q.ty)) != q.target
  {
    hide HitsOver, HitAt, NeonPlaces, FirstScanTasks.TaskPlaces, TasksHits;
    VectorScanLoss(mem, q, byteStep, tasks);
    var lost := LastSlotHits(mem, q, tasks);
    assert multiset(TasksHits(mem, q, byteStep, true, tasks)) == multiset(TasksHits(mem, q, byteStep, false, tasks))
      <==> |lost| == 0 by { assert |multiset(lost)| == |lost|; }
    LostNothingIff(mem, q, byteStep, tasks);
  }

  /** Every task of a vector scan has a slot, and the first starts where the region does. */
  lemma VectorTasks(q: Query, start: nat, end: nat)
    requires Vectorized(q, false)
    ensures var tasks := RegionTasks(q, false, start, end);
      && (forall t :: t in tasks ==> GoodTask(q, false, t, t.readEnd) && t.scanEnd - t.start >= ValueSize(q.ty))
      && (tasks == [] <==> start + ValueSize(q.ty) > end)
  {
    hide RoundDown, Whole, GoodTask;
    var tasks := RegionTasks(q, false, start, end);
    RegionTasksGood(q, false, start, end);
    forall t | t in tasks ensures t.scanEnd - t.start >= ValueSize(q.ty) { TaskHasSlot(q, t); }
    if start < end {
      var whole := Min(end - start, CHUNK_SIZE);
      WholeAtLeast(RoundDown(whole, ValueSize(q.ty)), ValueSize(q.ty));
      if whole >= ValueSize(q.ty) { RoundDownKeepsOne(whole, ValueSize(q.ty)); }
    }
  }

  lemma TaskHasSlot(q: Query, t: ScanTask)
    requires Vectorized(q, false) && GoodTask(q, false, t, t.readEnd)
    ensures t.scanEnd - t.start >= ValueSize(q.ty)
  {
    WholeAtLeast(t.scanEnd - t.start, ValueSize(q.ty));
  }

  lemma RoundDownKeepsOne(n: nat, s: nat)
    requires 0 < s <= n
    ensures RoundDown(n, s) >= s
  {
  }

  /**
   A memory on which the vector scan of a region misses what it looks for: the target in the first task's last slot.
   */
  lemma VectorScanMisses(q: Query, start: nat, end: nat) returns (mem: Memory)
    requires Vectorized(q, false) && q.target < Pow256(ValueSize(q.ty)) && start + ValueSize(q.ty) <= end
    ensures var tasks := RegionTasks(q, false, start, end);
      multiset(TasksHits(mem, q, false, true, tasks)) != multiset(TasksHits(mem, q, false, false, tasks))
  {
    hide RegionTasks, TasksHits, GoodTask, StoreLE, LoadLE;
    VectorTasks(q, start, end);
    var tasks, size := RegionTasks(q, false, start, end), ValueSize(q.ty);
    var t := tasks[0];
    assert t in tasks;
    var a := t.scanEnd - size;
    mem := Laid(StoreLE(q.target, size), a);
    assert Bytes(mem, a, size) == StoreLE(q.target, size);
    LoadStore(q.target, size);
    assert SlotBits(mem, a, size) == q.target;
    VectorScanExactIff(mem, q, false, tasks);
  }

  /** So the vector branch serves a region, whatever it holds, if and only if the region has no slot at all. */
  lemma VectorScanServesIff(q: Query, start: nat, end: nat)
    requires Vectorized(q, false) && q.target < Pow256(ValueSize(q.ty))
    ensures var tasks := RegionTasks(q, false, start, end);
      (forall mem: Memory :: multiset(TasksHits(mem, q, false, true, tasks))
        == multiset(TasksHits(mem, q, false, false, tasks)))
      <==> start + ValueSize(q.ty) > end
  {
    hide RegionTasks, TasksHits;
    VectorTasks(q, start, end);
    if start + ValueSize(q.ty) <= end {
      var mem := VectorScanMisses(q, start, end);
    } else {
      forall mem: Memory, neon ensures TasksHits(mem, q, false, neon, []) == [] { NoTasksNoHits(mem, q, false, neon); }
    }
  }

  lemma {:induction false} LostNothingIff(mem: Memory, q: Query, byteStep: bool, tasks: seq<ScanTask>)
    requires Vectorized(q, byteStep)
    requires forall t :: t in tasks ==> GoodTask(q, byteStep, t, t.readEnd) && t.scanEnd - t.start >= ValueSize(q.ty)
    ensures LastSlotHits(mem, q, tasks) == [] <==>
      forall t :: t in tasks ==> SlotBits(mem, t.scanEnd - ValueSize(q.ty), ValueSize(q.ty)) != q.target
  {
    hide HitAt, SlotBits;
    if tasks != [] {
      var t := tasks[0];
      assert t in tasks && forall u :: u in tasks[1..] ==> u in tasks;
      assert forall u :: u in tasks ==> u == t || u in tasks[1..];
      LostNothingIff(mem, q, byteStep, tasks[1..]);
      LastSlotHit(mem, q, byteStep, t);
    }
  }

  lemma LastSlotHit(mem: Memory, q: Query, byteStep: bool, t: ScanTask)
    requires Vectorized(q, byteStep) && GoodTask(q, byteStep, t, t.readEnd) && t.scanEnd - t.start >= ValueSize(q.ty)
    ensures HitAt(mem, q, t.readEnd, t.scanEnd - ValueSize(q.ty)) == [] <==>
      SlotBits(mem, t.scanEnd - ValueSize(q.ty), ValueSize(q.ty)) != q.target
  {
    var w := Bytes(mem, t.scanEnd - ValueSize(q.ty), ValueSize(q.ty));
    assert w[..ValueSize(q.ty)] == w;
  }

  lemma NoTasksNoHits(mem: Memory, q: Query, byteStep: bool, neon: bool)
    ensures TasksHits(mem, q, byteStep, neon, []) == []
  {
  }

  // ----- the scanner's state

  datatype NextMatch = NextMatch(index: nat, addr: nat, value: nat)

  /** What could be read at an address: the bytes, possibly fewer than asked for, or nothing. */
  type Rereads = (nat, nat) -> Option<seq<byte>>

  datatype NextStep = NextStep(q: Query, read: Rereads)

  function OutcomeOf(step: NextStep, h: Hit): Outcome {
    NextOutcome(step.q, h.value, step.read(h.addr, Need(step.q)))
  }

  /** One entry through one next scan: kept with its new value, or gone. */
  function Keeps(step: NextStep, h: Hit): seq<Hit> {
    match OutcomeOf(step, h)
    case Keep(bits) => [Hit(h.addr, bits)]
    case _ => []
  }

  /** A next scan of the whole list. */
  function Narrow(step: NextStep, hits: seq<Hit>): seq<Hit> { Collect(hits, (h: Hit) => Keeps(step, h)) }

  /** The matches of the entries from `i` on, with their positions: what the sort by position restores. */
  function MatchesFrom(step: NextStep, hits: seq<Hit>, i: nat): seq<NextMatch>
    requires i <= |hits|
    decreases |hits| - i
  {
    if i == |hits| then []
    else (match OutcomeOf(step, hits[i])
          case Keep(bits) => [NextMatch(i, hits[i].addr, bits)]
          case _ => []) + MatchesFrom(step, hits, i + 1)
  }

  function Stripped(matches: seq<NextMatch>): (r: seq<Hit>)
    ensures |r| == |matches| && forall i :: 0 <= i < |r| ==> r[i] == Hit(matches[i].addr, matches[i].value)
  {
    seq(|matches|, i requires 0 <= i < |matches| => Hit(matches[i].addr, matches[i].value))
  }

  predicate MatchLe(a: NextMatch, b: NextMatch) { a.index <= b.index }

  lemma {:induction false} MatchesMeaning(step: NextStep, hits: seq<Hit>, i: nat)
    requires i <= |hits|
    ensures Stripped(MatchesFrom(step, hits, i)) == Narrow(step, hits[i..])
    ensures forall k :: 0 <= k < |MatchesFrom(step, hits, i)| ==> i <= MatchesFrom(step, hits, i)[k].index
    ensures forall k, l :: 0 <= k < l < |MatchesFrom(step, hits, i)| ==>
      MatchesFrom(step, hits, i)[k].index < MatchesFrom(step, hits, i)[l].index
    ensures |MatchesFrom(step, hits, i)| <= |hits| - i
    decreases |hits| - i
  {
    hide OutcomeOf;
    if i < |hits| {
      MatchesMeaning(step, hits, i + 1);
      assert hits[i..] == [hits[i]] + hits[i + 1..];
      CollectOne(hits[i], hits[i + 1..], (h: Hit) => Keeps(step, h));
    }
  }

  /** One item of the shared queue: an index, what reading it does and whether it is kept. */
  function IndexEvents(step: NextStep, strict: bool, hits: seq<Hit>, i: nat): seq<Event<NextMatch>>
    requires i < |hits|
  {
    match OutcomeOf(step, hits[i])
    case Bad => if strict then [Fail] else []
    case Drop => []
    case Keep(bits) => [Emit(NextMatch(i, hits[i].addr, bits))]
  }

  lemma {:induction false} EventsAreMatches(step: NextStep, strict: bool, hits: seq<Hit>,
                                            items: seq<seq<Event<NextMatch>>>, i: nat)
    requires |items| == |hits| && i <= |hits|
    requires forall k :: 0 <= k < |hits| ==> items[k] == IndexEvents(step, strict, hits, k)
    ensures Fail !in Flat(items[i..]) ==> Flat(items[i..]) == Emits(MatchesFrom(step, hits, i))
    ensures Fail in Flat(items[i..]) <==> strict && exists k :: i <= k < |hits| && OutcomeOf(step, hits[k]) == Bad
    ensures |Flat(items[i..])| <= |hits| - i
    decreases |hits| - i
  {
    hide OutcomeOf;
    if i < |hits| {
      EventsAreMatches(step, strict, hits, items, i + 1);
      assert items[i..][1..] == items[i + 1..] && items[i..][0] == items[i];
      assert Flat(items[i..]) == items[i] + Flat(items[i + 1..]);
    }
  }

  /** A query a next scan can answer: patterns are not empty, and only single numbers can have changed. */
  predicate Sensible(q: Query) {
    MinMatch(q) > 0 && !((IsPattern(q.ty) || q.ty == ALL) && (q.condition == CHANGED || q.condition == UNCHANGED))
  }

  /** Some entry cannot be read any more. */
  ghost predicate SomeBad(step: NextStep, hits: seq<Hit>) {
    exists h :: h in hits && OutcomeOf(step, h) == Bad
  }

  class Scanner {
    var results: seq<nat>
    var lastValues: seq<nat>
    var byteStep: bool
    var strict: bool
    var low: nat
    var high: nat

    constructor ()
      ensures Valid() && Hits() == [] && !strict && !byteStep && low == 0 && high == 0xFFFF_FFFF_FFFF_FFFF
    {
      results, lastValues, byteStep, strict, low, high := [], [], false, false, 0, U64_LIMIT - 1;
    }

    ghost predicate Valid()
      reads this
    {
      |results| == |lastValues| <= MAX_RESULTS
    }

    /** The addresses found, each with the value last seen there. */
    function Hits(): seq<Hit>
      reads this
      requires |results| == |lastValues|
    {
      seq(|results|, i requires 0 <= i < |results| reads this requires |results| == |lastValues| =>
        Hit(results[i], lastValues[i]))
    }

    method SetScanRange(start: nat, end: nat)
      modifies this`low, this`high
      ensures if start < end then low == start && high == end else low == 0 && high == U64_LIMIT - 1
    {
      if end > start {
        low, high := start, end;
      } else {
        low, high := 0, U64_LIMIT - 1;
      }
    }

    method Clear()
      modifies this`results, this`lastValues
      ensures Valid() && Hits() == []
    {
      results, lastValues := [], [];
    }

    method Store(hits: seq<Hit>)
      modifies this`results, this`lastValues
      requires |hits| <= MAX_RESULTS
      ensures Valid() && Hits() == hits
    {
      results := seq(|hits|, i requires 0 <= i < |hits| => hits[i].addr);
      lastValues := seq(|hits|, i requires 0 <= i < |hits| => hits[i].value);
    }

    /**
     The first scan. Any task's read may fail: a strict scan then fails, another skips the task. When no
     read failed the result is what all tasks find together, whichever threads found it in which order,
     and the scan fails only for want of maps, for an empty pattern or for too many results.
     */
    method FirstScan(mem: Memory, mapsOk: bool, regions: seq<Region>, q: Query, neon: bool, threads: nat)
      returns (ok: bool, complete: bool)
      requires Valid() && threads > 0
      modifies this`results, this`lastValues
      ensures Valid()
      ensures !ok ==> Hits() == []
      ensures ok ==> mapsOk && MinMatch(q) > 0
      ensures ok && strict ==> complete
      ensures complete ==>
        (ok <==>
          mapsOk && MinMatch(q) > 0
          && |TasksHits(mem, q, byteStep, neon, AllTasks(q, byteStep, regions, low, high))| <= 20_000_000)
      ensures ok && complete ==>
        multiset(Hits()) == multiset(TasksHits(mem, q, byteStep, neon, AllTasks(q, byteStep, regions, low, high)))
      ensures ok ==>
        multiset(Hits()) <= multiset(TasksHits(mem, q, byteStep, neon, AllTasks(q, byteStep, regions, low, high)))
      ensures !ok && mapsOk && MinMatch(q) > 0 && !(strict && !complete) ==>
        |TasksHits(mem, q, byteStep, neon, AllTasks(q, byteStep, regions, low, high))| > MAX_RESULTS
      ensures ok && complete && MinMatch(q) <= 0x10_0000 && !(neon && Vectorized(q, byteStep)) ==>
        multiset(Hits()) == multiset(AllHits(mem, q, byteStep, regions, low, high))
    {
      hide AllTasks, AllHits, TasksHits, Vectorized, MinMatch, Flat, Gather, Emitted;
      results, lastValues := [], [];
      ok, complete := false, true;
      if !mapsOk || MinMatch(q) == 0 {
        return;
      }
      if MinMatch(q) <= CHUNK_SIZE { TasksFindAll(mem, q, byteStep, regions, low, high); }
      AllTasksGood(q, byteStep, regions, low, high);
      var tasks := CutRegions(q, byteStep, regions, low, high);
      if tasks == [] {
        NoTasksNoHits(mem, q, byteStep, neon);
        NoTasksNoHits(mem, q, byteStep, false);
        return true, true;
      }
      var items;
      items, complete := ReadTasks(mem, q, byteStep, neon, strict, tasks);
      var locals, total, failed, overflow := RunWorkers(items, MAX_RESULTS, threads);
      if complete { NoFailsEmitted(items, TasksHits(mem, q, byteStep, neon, tasks)); }
      if failed || overflow {
        return;
      }
      if !(neon && Vectorized(q, byteStep)) { ScalarHits(mem, q, byteStep, neon, tasks); }
      GatheredIsExpected(items, Gather(locals), TasksHits(mem, q, byteStep, neon, tasks));
      GatheredAtMost(items, Gather(locals), TasksHits(mem, q, byteStep, neon, tasks));
      Store(Gather(locals));
      ok := true;
    }

    /**
     A next scan. On success exactly the entries that still match remain, in their old order and with
     the values just read; on failure nothing has changed. It fails only for a query that makes no
     sense or, in strict mode, for an unreadable entry: the result cap cannot be hit.
     */
    method NextScan(q: Query, read: Rereads, threads: nat) returns (ok: bool)
      requires Valid() && threads > 0
      modifies this`results, this`lastValues
      ensures Valid()
      ensures Hits() == if ok then Narrow(NextStep(q, read), old(Hits())) else old(Hits())
      ensures ok <==> old(Hits()) == [] || (Sensible(q) && !(strict && SomeBad(NextStep(q, read), old(Hits()))))
    {
      hide SomeBad, Narrow;
      NothingToNarrow(NextStep(q, read));
      if |results| == 0 {
        return true;
      }
      if (IsPattern(q.ty) || q.ty == ALL) && (q.condition == CHANGED || q.condition == UNCHANGED) {
        return false;
      }
      if MinMatch(q) == 0 {
        return false;
      }
      var hits, step := Hits(), NextStep(q, read);
      assert hits[0] == Hit(results[0], lastValues[0]);
      var done, kept := NarrowOnThreads(step, strict, hits, threads);
      ok := done;
      if ok {
        Store(kept);
      }
    }
  }

  /** The body of a next scan: claim indices in batches, gather, restore the order. */
  method NarrowOnThreads(step: NextStep, strict: bool, hits: seq<Hit>, threads: nat) returns (ok: bool, kept: seq<Hit>)
    requires |hits| <= MAX_RESULTS && threads > 0
    ensures ok <==> !(strict && SomeBad(step, hits))
    ensures ok ==> kept == Narrow(step, hits) && |kept| <= |hits|
  {
    hide OutcomeOf, MatchesFrom, Narrow, SomeBad, IndexEvents, Flat, Gather;
    var items: seq<seq<Event<NextMatch>>> := [];
    for i := 0 to |hits|
      invariant |items| == i && forall k :: 0 <= k < i ==> items[k] == IndexEvents(step, strict, hits, k)
    {
      items := items + [IndexEvents(step, strict, hits, i)];
    }
    QueueMeaning(step, strict, hits, items);
    var locals, total, failed, overflow := RunWorkers(items, MAX_RESULTS, threads);
    if failed || total > MAX_RESULTS {
      return false, [];
    }
    NoFailure(items, Gather(locals));
    var merged := Sort(Gather(locals), MatchLe);
    MergedIsOrdered(step, hits, Gather(locals), merged);
    return true, Stripped(merged);
  }

  lemma NothingToNarrow(step: NextStep)
    ensures Narrow(step, []) == []
  {
  }

  lemma QueueMeaning(step: NextStep, strict: bool, hits: seq<Hit>, items: seq<seq<Event<NextMatch>>>)
    requires |items| == |hits| && forall k :: 0 <= k < |hits| ==> items[k] == IndexEvents(step, strict, hits, k)
    ensures Fail in Flat(items) <==> strict && SomeBad(step, hits)
    ensures Fail !in Flat(items) ==> Flat(items) == Emits(MatchesFrom(step, hits, 0))
    ensures |Flat(items)| <= |hits|
  {
    hide OutcomeOf, MatchesFrom, IndexEvents, Flat;
    EventsAreMatches(step, strict, hits, items, 0);
    assert items[0..] == items && hits[0..] == hits;
    if SomeBad(step, hits) {
      var h :| h in hits && OutcomeOf(step, h) == Bad;
      var k :| 0 <= k < |hits| && hits[k] == h;
    }
  }

  lemma NoFailure(items: seq<seq<Event<NextMatch>>>, gathered: seq<NextMatch>)
    requires multiset(Emits(gathered)) == multiset(Flat(items))
    ensures Fail !in Flat(items)
  {
    hide Flat;
    EmitsCount(gathered, NextMatch(0, 0, 0));
    assert Fail !in multiset(Flat(items));
  }

  lemma NoFailsEmitted(items: seq<seq<Event<Hit>>>, hits: seq<Hit>)
    requires Flat(items) == Emits(hits)
    ensures Fail !in Flat(items) && |Flat(items)| == |hits|
  {
    hide Flat;
  }

  /** What the threads gathered without a fatal error is what the items hold. */
  lemma GatheredIsExpected(items: seq<seq<Event<Hit>>>, gathered: seq<Hit>, expected: seq<Hit>)
    requires multiset(Emits(gathered)) == multiset(Flat(items))
    ensures Fail !in Flat(items)
    ensures Flat(items) == Emits(expected) ==> multiset(gathered) == multiset(expected)
  {
    hide Flat;
    EmitsCount(gathered, Hit(0, 0));
    assert Fail !in multiset(Flat(items));
    if Flat(items) == Emits(expected) { EmitsInjective(gathered, expected); }
  }

  /** The sort by position undoes whatever the threads did to the order. */
  lemma MergedIsOrdered(step: NextStep, hits: seq<Hit>, gathered: seq<NextMatch>, merged: seq<NextMatch>)
    requires multiset(Emits(gathered)) == multiset(Emits(MatchesFrom(step, hits, 0)))
    requires SortedBy(merged, MatchLe) && multiset(merged) == multiset(gathered)
    ensures merged == MatchesFrom(step, hits, 0) && |merged| <= |hits|
    ensures Stripped(merged) == Narrow(step, hits)
  {
    var matches := MatchesFrom(step, hits, 0);
    MatchesMeaning(step, hits, 0);
    assert hits[0..] == hits;
    EmitsInjective(gathered, matches);
    SortedPermutationUnique(matches, merged, MatchLe);
  }

  /** No match is among the items more often than in the list. */
  ghost predicate AtMost(items: seq<seq<Event<Hit>>>, hits: seq<Hit>) {
    Emitted(Flat(items)) <= |hits| && forall h :: multiset(Flat(items))[Emit(h)] <= multiset(hits)[h]
  }

  lemma AtMostMore(items: seq<seq<Event<Hit>>>, rest: seq<Hit>, hits: seq<Hit>)
    requires AtMost(items, rest)
    ensures AtMost([Emits(hits)] + items, hits + rest)
  {
    hide Flat, Emitted;
    FlatStep(Emits(hits), items);
    EmittedSplit(Emits(hits), Flat(items));
    EmittedAll(hits);
    forall h ensures multiset(Emits(hits))[Emit(h)] == multiset(hits)[h] { EmitsCount(hits, h); }
  }

  lemma AtMostSkipped(items: seq<seq<Event<Hit>>>, rest: seq<Hit>, hits: seq<Hit>, strict: bool)
    requires AtMost(items, rest)
    ensures AtMost([if strict then [Fail] else []] + items, hits + rest)
  {
    hide Flat, Emitted;
    var none: seq<Event<Hit>> := if strict then [Fail] else [];
    FlatStep(none, items);
    EmittedSplit(none, Flat(items));
    NoneEmitted(none);
    forall h ensures multiset(none)[Emit(h)] == 0 {}
  }

  lemma FlatStep(item: seq<Event<Hit>>, items: seq<seq<Event<Hit>>>)
    ensures Flat([item] + items) == item + Flat(items)
  {
    assert ([item] + items)[1..] == items;
  }

  lemma NoneEmitted(s: seq<Event<Hit>>)
    requires s == [] || s == [Fail]
    ensures Emitted(s) == 0
  {
  }

  lemma GatheredAtMost(items: seq<seq<Event<Hit>>>, gathered: seq<Hit>, hits: seq<Hit>)
    requires AtMost(items, hits) && multiset(Emits(gathered)) == multiset(Flat(items))
    ensures multiset(gathered) <= multiset(hits)
  {
    hide Flat;
    forall h ensures multiset(gathered)[h] <= multiset(hits)[h] { EmitsCount(gathered, h); }
  }

  /** Reading and looking through every task; the order is immaterial, each reports to one item. */
  method ReadTasks(mem: Memory, q: Query, byteStep: bool, neon: bool, strict: bool, tasks: seq<ScanTask>)
    returns (items: seq<seq<Event<Hit>>>, complete: bool)
    requires MinMatch(q) > 0 && forall t :: t in tasks ==> GoodTask(q, byteStep, t, t.readEnd)
    ensures complete ==> Flat(items) == Emits(TasksHits(mem, q, byteStep, neon, tasks))
    ensures strict && !complete ==> Fail in Flat(items)
    ensures Fail in Flat(items) ==> strict && !complete
    ensures AtMost(items, TasksHits(mem, q, byteStep, neon, tasks))
  {
    hide TaskHits, TasksHits, Flat, Emitted, AtMost;
    items, complete := [], true;
    NothingRead(mem, q, byteStep, neon);
    var i := |tasks|;
    assert tasks[i..] == [];
    while i > 0
      invariant 0 <= i <= |tasks|
      invariant complete ==> Flat(items) == Emits(TasksHits(mem, q, byteStep, neon, tasks[i..]))
      invariant Fail in Flat(items) <==> strict && !complete
      invariant AtMost(items, TasksHits(mem, q, byteStep, neon, tasks[i..]))
    {
      i := i - 1;
      var t := tasks[i];
      ghost var before, rest := items, TasksHits(mem, q, byteStep, neon, tasks[i + 1..]);
      HitsOfTasks(mem, q, byteStep, neon, tasks, i);
      var ok: bool := *;
      if ok {
        var hits := ReadTask(mem, q, byteStep, neon, t);
        FlatStep(Emits(hits), before);
        EmitsSplit(hits, rest);
        AtMostMore(before, rest, hits);
        items := [Emits(hits)] + items;
      } else {
        var failure: seq<Event<Hit>> := if strict then [Fail] else [];
        FlatStep(failure, before);
        AtMostSkipped(before, rest, TaskHits(mem, q, byteStep, neon, t), strict);
        complete := false;
        items := [failure] + items;
      }
    }
    assert tasks[0..] == tasks;
  }

  lemma NothingRead(mem: Memory, q: Query, byteStep: bool, neon: bool)
    ensures Flat<Event<Hit>>([]) == [] && AtMost([], [])
    ensures TasksHits(mem, q, byteStep, neon, []) == [] && Emits<Hit>([]) == []
  {
  }

  lemma HitsOfTasks(mem: Memory, q: Query, byteStep: bool, neon: bool, tasks: seq<ScanTask>, i: nat)
    requires i < |tasks|
    ensures TasksHits(mem, q, byteStep, neon, tasks[i..])
         == TaskHits(mem, q, byteStep, neon, tasks[i]) + TasksHits(mem, q, byteStep, neon, tasks[i + 1..])
  {
    hide TaskHits;
    assert tasks[i..] == [tasks[i]] + tasks[i + 1..];
    CollectOne(tasks[i], tasks[i + 1..], (t: ScanTask) => TaskHits(mem, q, byteStep, neon, t));
  }

  method ReadTask(mem: Memory, q: Query, byteStep: bool, neon: bool, t: ScanTask) returns (hits: seq<Hit>)
    requires MinMatch(q) > 0 && GoodTask(q, byteStep, t, t.readEnd)
    ensures hits == TaskHits(mem, q, byteStep, neon, t)
  {
    hide HitsOver, Walk;
    var buffer := Bytes(mem, t.start, t.readEnd - t.start);
    if neon && Vectorized(q, byteStep) {
      if t.scanEnd - t.start < ValueSize(q.ty) {
        assert false;
      }
      hits := ScanBufferNeon(mem, q, byteStep, t, t.readEnd, buffer);
    } else {
      hits := ScanBuffer(mem, q, byteStep, t, t.readEnd, buffer);
    }
  }

  // ----- whole runs

  /** One entry through a whole run of next scans. */
  function Track(h: Hit, steps: seq<NextStep>): seq<Hit>
    decreases |steps|
  {
    if steps == [] then [h]
    else match OutcomeOf(steps[0], h)
      case Keep(bits) => Track(Hit(h.addr, bits), steps[1..])
      case _ => []
  }

  /** The list through the same run. */
  function Replay(hits: seq<Hit>, steps: seq<NextStep>): seq<Hit>
    decreases |steps|
  {
    if steps == [] then hits else Replay(Narrow(steps[0], hits), steps[1..])
  }

  /**
   Narrowing the list scan by scan is following each first-scan entry by itself through all later
   conditions, each against the value it had one scan earlier, and keeping the survivors in order.
   */
  lemma {:induction false} ReplayIsTracking(hits: seq<Hit>, steps: seq<NextStep>)
    ensures Replay(hits, steps) == Collect(hits, (h: Hit) => Track(h, steps))
    decreases |steps|, |hits|
  {
    hide OutcomeOf;
    var f := (h: Hit) => Track(h, steps);
    if hits == [] {
      ReplayNothing(steps);
    } else {
      var h, rest := hits[0], hits[1..];
      assert hits == [h] + rest;
      CollectOne(h, rest, f);
      ReplayIsTracking(rest, steps);
      if steps == [] {
      } else {
        var g := (h: Hit) => Keeps(steps[0], h);
        CollectOne(h, rest, g);
        ReplaySplit(Keeps(steps[0], h), Narrow(steps[0], rest), steps[1..]);
        var kept := Keeps(steps[0], h);
        if kept != [] {
          ReplayIsTracking(kept, steps[1..]);
          CollectOne(kept[0], [], (h: Hit) => Track(h, steps[1..]));
          assert kept == [kept[0]] + [];
        } else {
          ReplayNothing(steps[1..]);
        }
      }
    }
  }

  lemma {:induction false} ReplayNothing(steps: seq<NextStep>)
    ensures Replay([], steps) == []
    decreases |steps|
  {
    if steps != [] { ReplayNothing(steps[1..]); }
  }

  lemma {:induction false} ReplaySplit(a: seq<Hit>, b: seq<Hit>, steps: seq<NextStep>)
    ensures Replay(a + b, steps) == Replay(a, steps) + Replay(b, steps)
    decreases |steps|
  {
    if steps != [] {
      CollectSplit(a, b, (h: Hit) => Keeps(steps[0], h));
      ReplaySplit(Narrow(steps[0], a), Narrow(steps[0], b), steps[1..]);
    }
  }
}
