/** Cutting the regions of a pointer scan into tasks of 8 MiB, and which slots the tasks then visit. */
module PointerTasks {
  import opened Machine
  import opened Collecting
  import opened Grid
  import opened PointerLevels

  function TasksFrom(r: Range, start: nat, overlap: nat): seq<Task>
    decreases if start < r.end then r.end - start else 0
  {
    if start >= r.end then []
    else
      var end: nat := Min(r.end, start + TASK_SIZE);
      [Task(start, end, Min(r.end, end + overlap))] + TasksFrom(r, start + TASK_SIZE, overlap)
  }

  function Overlap(psize: nat, byteStep: bool): nat { if byteStep && psize > 1 then psize - 1 else 0 }

  function TasksOf(ranges: seq<Range>, psize: nat, byteStep: bool): seq<Task> {
    Collect(ranges, (r: Range) => TasksFrom(r, r.start, Overlap(psize, byteStep)))
  }

  method CutTasks(ranges: seq<Range>, psize: nat, byteStep: bool) returns (tasks: seq<Task>)
    ensures tasks == TasksOf(ranges, psize, byteStep)
  {
    hide TasksFrom;
    var overlap := Overlap(psize, byteStep);
    ghost var f := (r: Range) => TasksFrom(r, r.start, overlap);
    tasks := [];
    assert ranges[0..] == ranges;
    for i := 0 to |ranges|
      invariant Collect(ranges, f) == tasks + Collect(ranges[i..], f)
    {
      assert ranges[i..] == [ranges[i]] + ranges[i + 1..];
      CollectOne(ranges[i], ranges[i + 1..], f);
      var cut := CutRange(ranges[i], overlap);
      assert cut == f(ranges[i]);
      tasks := tasks + cut;
    }
    assert TasksOf(ranges, psize, byteStep) == Collect(ranges, f);
  }

  method CutRange(r: Range, overlap: nat) returns (tasks: seq<Task>)
    ensures tasks == TasksFrom(r, r.start, overlap)
  {
    hide TasksFrom;
    tasks := [];
    var start := r.start;
    while start < r.end
      invariant TasksFrom(r, r.start, overlap) == tasks + TasksFrom(r, start, overlap)
    {
      var end: nat := Min(r.end, start + TASK_SIZE);
      var readEnd: nat := if overlap > 0 then Min(r.end, end + overlap) else end;
      TasksFromStep(r, start, overlap);
      tasks, start := tasks + [Task(start, end, readEnd)], start + TASK_SIZE;
    }
    TasksFromStep(r, start, overlap);
  }

  lemma TasksFromStep(r: Range, start: nat, overlap: nat)
    ensures TasksFrom(r, start, overlap) ==
      if start >= r.end then []
      else
        var end := Min(r.end, start + TASK_SIZE);
        [Task(start, end, Min(r.end, end + overlap))] + TasksFrom(r, start + TASK_SIZE, overlap)
  {
  }

  /** A slot of the region: pointer-aligned unless the scan goes byte by byte. */
  predicate SlotOf(r: Range, a: nat, psize: nat, byteStep: bool)
    requires PointerSize(psize)
  {
    r.start <= a && a + psize <= r.end && (byteStep || Whole(a, psize))
  }

  /** No 8 MiB cut of the region falls inside the slot. */
  predicate Uncut(start: nat, a: nat, psize: nat)
    requires start <= a
    decreases a - start
  {
    if a < start + TASK_SIZE then a + psize <= start + TASK_SIZE else Uncut(start + TASK_SIZE, a, psize)
  }

  lemma {:induction false} TasksFromGood(r: Range, start: nat, psize: nat, byteStep: bool)
    requires PointerSize(psize) && r.end <= TAG_LIMIT
    ensures forall t :: t in TasksFrom(r, start, Overlap(psize, byteStep)) ==> GoodTask(t, byteStep)
    decreases if start < r.end then r.end - start else 0
  {
    if start < r.end {
      TasksFromGood(r, start + TASK_SIZE, psize, byteStep);
    }
  }

  /** A task reads no farther than its last slot. */
  lemma {:induction false} TasksFromSnug(r: Range, start: nat, psize: nat, byteStep: bool)
    requires PointerSize(psize)
    ensures forall t :: t in TasksFrom(r, start, Overlap(psize, byteStep)) ==> Snug(t, psize)
    decreases if start < r.end then r.end - start else 0
  {
    if start < r.end { TasksFromSnug(r, start + TASK_SIZE, psize, byteStep); }
  }

  /** Exactly which slots of a region its tasks visit: all in byte mode, else those no cut runs through. */
  lemma {:induction false} TasksCover(r: Range, start: nat, psize: nat, byteStep: bool, a: nat)
    requires PointerSize(psize) && start <= a
    ensures (exists t :: t in TasksFrom(r, start, Overlap(psize, byteStep)) && a in TaskSlots(t, psize, byteStep))
        <==> a + psize <= r.end && (byteStep || (Whole(a, psize) && Uncut(start, a, psize)))
    decreases if start < r.end then r.end - start else 0
  {
    hide TaskSlots, Whole;
    if start < r.end {
      var tasks := TasksFrom(r, start, Overlap(psize, byteStep));
      assert tasks == [tasks[0]] + tasks[1..] && tasks[0] in tasks;
      TaskSlotMember(tasks[0], psize, byteStep, a);
      assert forall t :: t in tasks <==> t == tasks[0] || t in tasks[1..];
      if a < start + TASK_SIZE {
        NoSlotBefore(r, start + TASK_SIZE, psize, byteStep, a);
      } else {
        TasksCover(r, start + TASK_SIZE, psize, byteStep, a);
      }
    }
  }

  lemma TaskSlotMember(t: Task, psize: nat, byteStep: bool, a: nat)
    requires PointerSize(psize)
    ensures a in TaskSlots(t, psize, byteStep)
       <==> t.start <= a && a < t.end && a + psize <= t.readEnd && (byteStep || Whole(a, psize))
  {
    hide Whole, RoundDown;
    var first := FirstSlot(t, psize, byteStep);
    WalkMember(first, SlotBound(t, psize), Stride(psize, byteStep), a);
    if byteStep {
      if first <= a { WholeBytes(a - first); }
    } else {
      if first <= a { WholeAdds(first, a - first, psize); } else if t.start <= a { WholeGap(a, first, psize); }
    }
  }

  /** There is no aligned address strictly between an aligned address and the one before it. */
  lemma {:induction false} WholeGap(a: nat, next: nat, s: nat)
    requires s > 0 && Whole(next, s) && a < next < a + s
    ensures !Whole(a, s)
  {
    if a >= s {
      WholeGap(a - s, next - s, s);
    }
  }

  lemma {:induction false} NoSlotBefore(r: Range, start: nat, psize: nat, byteStep: bool, a: nat)
    requires PointerSize(psize) && a < start
    ensures !exists t :: t in TasksFrom(r, start, Overlap(psize, byteStep)) && a in TaskSlots(t, psize, byteStep)
    decreases if start < r.end then r.end - start else 0
  {
    hide TaskSlots;
    if start < r.end {
      var tasks := TasksFrom(r, start, Overlap(psize, byteStep));
      assert forall t :: t in tasks <==> t == tasks[0] || t in tasks[1..];
      TaskSlotMember(tasks[0], psize, byteStep, a);
      NoSlotBefore(r, start + TASK_SIZE, psize, byteStep, a);
    }
  }

  /** Pointer-aligned regions, such as every mapped page, are scanned without a gap. */
  lemma AlignedRegionsAreCovered(r: Range, psize: nat, byteStep: bool, a: nat)
    requires PointerSize(psize) && r.start <= a && (byteStep || Whole(r.start, psize))
    ensures (exists t :: t in TasksFrom(r, r.start, Overlap(psize, byteStep)) && a in TaskSlots(t, psize, byteStep))
        <==> SlotOf(r, a, psize, byteStep)
  {
    hide TasksFrom, TaskSlots, Uncut;
    TasksCover(r, r.start, psize, byteStep, a);
    if !byteStep && Whole(a, psize) {
      WholeSlotUncut(r.start, a, psize);
    }
  }

  /** The slots of all regions together. */
  ghost predicate SlotIn(ranges: seq<Range>, a: nat, psize: nat, byteStep: bool)
    requires PointerSize(psize)
  {
    exists r :: r in ranges && SlotOf(r, a, psize, byteStep)
  }

  predicate AlignedRanges(ranges: seq<Range>, psize: nat, byteStep: bool)
    requires PointerSize(psize)
  {
    byteStep || forall r :: r in ranges ==> Whole(r.start, psize)
  }

  lemma AlignedRangesIff(ranges: seq<Range>, psize: nat, byteStep: bool)
    requires PointerSize(psize)
    ensures AlignedRanges(ranges, psize, byteStep) <==> byteStep || forall r :: r in ranges ==> r.start % psize == 0
  {
    hide Whole;
    forall r: Range ensures Whole(r.start, psize) <==> r.start % psize == 0 { WholeIsMultiple(r.start, psize); }
  }

  /** The tasks of aligned regions visit exactly the regions' slots. */
  lemma TasksVisitSlots(ranges: seq<Range>, psize: nat, byteStep: bool, a: nat)
    requires PointerSize(psize) && AlignedRanges(ranges, psize, byteStep)
    ensures (exists t :: t in TasksOf(ranges, psize, byteStep) && a in TaskSlots(t, psize, byteStep))
        <==> SlotIn(ranges, a, psize, byteStep)
  {
    hide TasksFrom, TaskSlots, Whole;
    var f := (r: Range) => TasksFrom(r, r.start, Overlap(psize, byteStep));
    forall t ensures t in TasksOf(ranges, psize, byteStep) <==> exists r :: r in ranges && t in f(r) {
      CollectMember(ranges, f, t);
    }
    forall r | r in ranges
      ensures (exists t :: t in f(r) && a in TaskSlots(t, psize, byteStep)) <==> SlotOf(r, a, psize, byteStep)
    {
      if r.start <= a {
        AlignedRegionsAreCovered(r, psize, byteStep, a);
      } else {
        NoSlotBefore(r, r.start, psize, byteStep, a);
      }
    }
    if t :| t in TasksOf(ranges, psize, byteStep) && a in TaskSlots(t, psize, byteStep) {
      var r :| r in ranges && t in f(r);
      assert SlotOf(r, a, psize, byteStep);
    }
    if SlotIn(ranges, a, psize, byteStep) {
      var r :| r in ranges && SlotOf(r, a, psize, byteStep);
      var t :| t in f(r) && a in TaskSlots(t, psize, byteStep);
      assert t in TasksOf(ranges, psize, byteStep);
    }
  }

  /** Cuts of an aligned region fall between slots. */
  lemma {:induction false} WholeSlotUncut(start: nat, a: nat, psize: nat)
    requires PointerSize(psize) && start <= a && Whole(start, psize) && Whole(a, psize)
    ensures Uncut(start, a, psize)
    decreases a - start
  {
    hide Whole;
    var cut := start + TASK_SIZE;
    WholeMultiple(TASK_SIZE / psize, psize);
    assert (TASK_SIZE / psize) * psize == TASK_SIZE;
    WholeAdds(start, TASK_SIZE, psize);
    if a >= cut {
      WholeSlotUncut(cut, a, psize);
    } else if cut < a + psize {
      WholeGap(a, cut, psize);
    }
  }
}
