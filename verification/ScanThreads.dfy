/**
 Whether the threads of a level get their pieces whole. Each thread takes tasks in order and hastens as it goes; which
 thread takes which task is a matter of scheduling.
 */
module ScanThreads {
  import opened Machine
  import opened Grid
  import opened ReadPace
  import opened PointerLevels
  import opened PointerTasks

  /** The start positions of each task. */
  function Loads(tasks: seq<Task>, psize: nat, byteStep: bool): (r: seq<nat>)
    requires PointerSize(psize)
    ensures |r| == |tasks| && forall i :: 0 <= i < |tasks| ==> r[i] == Positions(tasks[i], psize, byteStep)
  {
    seq(|tasks|, i requires 0 <= i < |tasks| => Positions(tasks[i], psize, byteStep))
  }

  /** Task `i` was taken by thread `owners[i]`, one of `threads`. */
  ghost predicate Assigned(owners: seq<nat>, tasks: nat, threads: nat) {
    |owners| == tasks && forall i :: 0 <= i < tasks ==> owners[i] < threads
  }

  /** The batches thread `w` has had answered, counted up to four, when it has done its part of the first `i` tasks. */
  function Answered(reach: nat, loads: seq<nat>, owners: seq<nat>, i: nat, w: nat): (n: nat)
    requires reach > 0 && i <= |loads| <= |owners|
    ensures n <= 4
  {
    if i == 0 then 0
    else
      var n := Answered(reach, loads, owners, i - 1, w);
      if owners[i - 1] == w then Done(reach, n, loads[i - 1]) else n
  }

  predicate CutAt(reach: nat, loads: seq<nat>, owners: seq<nat>, i: nat)
    requires reach > 0 && i < |loads| <= |owners|
  {
    Cut(reach, Answered(reach, loads, owners, i, owners[i]), loads[i])
  }

  /** Some thread asks for more than it gets. */
  ghost predicate SomeCut(reach: nat, loads: seq<nat>, owners: seq<nat>)
    requires reach > 0 && |loads| <= |owners|
  {
    exists i :: 0 <= i < |loads| && CutAt(reach, loads, owners, i)
  }

  /** One thread takes all. */
  function Alone(n: nat): (owners: seq<nat>)
    ensures |owners| == n && forall i :: 0 <= i < n ==> owners[i] == 0
  {
    seq(n, i => 0)
  }

  /** No thread is ever ahead of the one that would do everything. */
  lemma {:induction false} AloneIsAhead(reach: nat, loads: seq<nat>, owners: seq<nat>, i: nat, w: nat)
    requires reach > 0 && i <= |loads| <= |owners|
    ensures Answered(reach, loads, owners, i, w) <= Answered(reach, loads, Alone(|loads|), i, 0)
  {
    hide Done;
    if i > 0 {
      AloneIsAhead(reach, loads, owners, i - 1, w);
      var n, m := Answered(reach, loads, owners, i - 1, w), Answered(reach, loads, Alone(|loads|), i - 1, 0);
      Ahead(reach, n, m, loads[i - 1]);
      NeverBack(reach, m, loads[i - 1]);
    }
  }

  lemma NeverBack(reach: nat, n: nat, left: nat)
    requires reach > 0 && n <= 4
    ensures n <= Done(reach, n, left)
  {
  }

  /** Under every schedule all pieces come whole if and only if they do when one thread takes all the tasks. */
  lemma EveryScheduleIff(reach: nat, loads: seq<nat>, threads: nat)
    requires reach > 0 && threads > 0
    ensures (forall owners :: Assigned(owners, |loads|, threads) ==> !SomeCut(reach, loads, owners))
      <==> !SomeCut(reach, loads, Alone(|loads|))
  {
    hide Answered, Cut;
    assert Assigned(Alone(|loads|), |loads|, threads);
    forall owners | Assigned(owners, |loads|, threads) && SomeCut(reach, loads, owners)
      ensures SomeCut(reach, loads, Alone(|loads|))
    {
      var i :| 0 <= i < |loads| && CutAt(reach, loads, owners, i);
      AloneIsAhead(reach, loads, owners, i, owners[i]);
      Ahead(reach, Answered(reach, loads, owners, i, owners[i]), Answered(reach, loads, Alone(|loads|), i, 0),
        loads[i]);
      assert CutAt(reach, loads, Alone(|loads|), i);
    }
  }

  /** What the first `i` tasks take at first, in batches. */
  function Total(reach: nat, loads: seq<nat>, i: nat): nat
    requires reach > 0 && i <= |loads|
  {
    if i == 0 then 0 else Total(reach, loads, i - 1) + Batches(reach, loads[i - 1])
  }

  lemma {:induction false} AloneAnswered(reach: nat, loads: seq<nat>, i: nat)
    requires reach > 0 && i <= |loads|
    ensures Answered(reach, loads, Alone(|loads|), i, 0) == Min(4, Total(reach, loads, i))
  {
    if i > 0 { AloneAnswered(reach, loads, i - 1); }
  }

  /** What can be checked beforehand: no task is longer than the batches before it allow. */
  lemma AloneIsCutIff(reach: nat, loads: seq<nat>)
    requires reach > 0
    ensures SomeCut(reach, loads, Alone(|loads|)) <==>
      exists i :: 0 <= i < |loads| && Cut(reach, Min(4, Total(reach, loads, i)), loads[i])
  {
    hide Cut, Total, Answered;
    forall i | 0 <= i < |loads|
      ensures CutAt(reach, loads, Alone(|loads|), i) <==> Cut(reach, Min(4, Total(reach, loads, i)), loads[i])
    {
      AloneAnswered(reach, loads, i);
    }
  }

  // ----- too many long tasks

  /** A task of more than one batch. */
  predicate Long(reach: nat, left: nat) { left > 4 * reach }

  /** How many of the first `i` tasks are long. */
  function Longs(reach: nat, loads: seq<nat>, i: nat): nat
    requires i <= |loads|
  {
    if i == 0 then 0 else Longs(reach, loads, i - 1) + (if Long(reach, loads[i - 1]) then 1 else 0)
  }

  /** Half the batches each of the first `threads` threads has had answered. */
  function Halves(reach: nat, loads: seq<nat>, owners: seq<nat>, i: nat, threads: nat): (n: nat)
    requires reach > 0 && i <= |loads| <= |owners|
    ensures n <= 2 * threads
  {
    if threads == 0 then 0
    else Halves(reach, loads, owners, i, threads - 1) + Answered(reach, loads, owners, i, threads - 1) / 2
  }

  /** A long task that is not cut takes a thread half of two batches on. */
  lemma LongTakesTwo(reach: nat, n: nat, left: nat)
    requires reach > 0 && n <= 4 && !Cut(reach, n, left)
    ensures Done(reach, n, left) / 2 >= n / 2 + (if Long(reach, left) then 1 else 0)
  {
    if Long(reach, left) {
      AtLeastTwo(reach, left);
    }
  }

  lemma AtLeastTwo(reach: nat, left: nat)
    requires reach > 0
    ensures Long(reach, left) <==> Batches(reach, left) >= 2
  {
    var d: nat := 4 * reach;
    var q, r := (left + d - 1) / d, (left + d - 1) % d;
    assert left + d - 1 == q * d + r;
    if q < 2 { Product(d, q, 1); }
    if left <= d && q >= 2 { Product(d, 2, q); }
  }

  lemma {:induction false} HalvesStep(reach: nat, loads: seq<nat>, owners: seq<nat>, i: nat, threads: nat)
    requires reach > 0 && i < |loads| <= |owners| && !CutAt(reach, loads, owners, i)
    ensures Halves(reach, loads, owners, i + 1, threads) >= Halves(reach, loads, owners, i, threads)
      + (if Long(reach, loads[i]) && owners[i] < threads then 1 else 0)
  {
    hide Cut, Done;
    if threads > 0 {
      HalvesStep(reach, loads, owners, i, threads - 1);
      if owners[i] == threads - 1 {
        LongTakesTwo(reach, Answered(reach, loads, owners, i, threads - 1), loads[i]);
      }
    }
  }

  lemma {:induction false} LongsAreHalves(reach: nat, loads: seq<nat>, owners: seq<nat>, threads: nat, i: nat)
    requires reach > 0 && Assigned(owners, |loads|, threads) && i <= |loads| && !SomeCut(reach, loads, owners)
    ensures Longs(reach, loads, i) <= Halves(reach, loads, owners, i, threads)
  {
    hide CutAt, Halves;
    if i > 0 {
      LongsAreHalves(reach, loads, owners, threads, i - 1);
      HalvesStep(reach, loads, owners, i - 1, threads);
    }
  }

  /** With more than two long tasks for each thread some piece is cut, whoever takes what. */
  lemma TooManyLongTasks(reach: nat, loads: seq<nat>, owners: seq<nat>, threads: nat)
    requires reach > 0 && Assigned(owners, |loads|, threads) && Longs(reach, loads, |loads|) > 2 * threads
    ensures SomeCut(reach, loads, owners)
  {
    if !SomeCut(reach, loads, owners) { LongsAreHalves(reach, loads, owners, threads, |loads|); }
  }

  // ----- one region

  /** The load of the task that begins at `at`. */
  lemma LoadAt(r: Range, at: nat, psize: nat)
    requires PointerSize(psize) && at < r.end && Whole(at, psize)
    ensures var tasks := TasksFrom(r, at, 0);
      |tasks| > 0 && Positions(tasks[0], psize, false) == RoundDown(Min(TASK_SIZE, r.end - at), psize)
      && tasks[1..] == TasksFrom(r, at + TASK_SIZE, 0)
  {
    hide Whole, RoundDown;
    RoundDownIs(at + psize - 1, at, psize);
  }

  lemma FullTask(psize: nat)
    requires PointerSize(psize)
    ensures Whole(TASK_SIZE, psize) && RoundDown(TASK_SIZE, psize) == TASK_SIZE
    ensures Whole(2 * TASK_SIZE, psize)
  {
    hide Whole, RoundDown;
    WholeMultiple(TASK_SIZE / psize, psize);
    assert (TASK_SIZE / psize) * psize == TASK_SIZE;
    RoundDownIs(TASK_SIZE, TASK_SIZE, psize);
    WholeAdds(TASK_SIZE, TASK_SIZE, psize);
  }

  /** The first three tasks of an aligned region. */
  lemma FirstLoads(r: Range, psize: nat)
    requires PointerSize(psize) && Whole(r.start, psize) && r.start < r.end
    ensures var tasks, size := TasksFrom(r, r.start, 0), r.end - r.start;
      var loads := Loads(tasks, psize, false);
      && (|tasks| == 1 <==> size <= TASK_SIZE) && (|tasks| <= 2 <==> size <= 2 * TASK_SIZE)
      && (|tasks| <= 3 <==> size <= 3 * TASK_SIZE)
      && |tasks| > 0 && loads[0] == RoundDown(Min(TASK_SIZE, size), psize)
      && (|tasks| > 1 ==> loads[1] == RoundDown(Min(TASK_SIZE, size - TASK_SIZE), psize))
      && (|tasks| > 2 ==> loads[2] == RoundDown(Min(TASK_SIZE, size - 2 * TASK_SIZE), psize))
  {
    hide Whole, RoundDown, Positions;
    FullTask(psize);
    var second, third := r.start + TASK_SIZE, r.start + 2 * TASK_SIZE;
    WholeAdds(r.start, TASK_SIZE, psize);
    WholeAdds(r.start, 2 * TASK_SIZE, psize);
    WholeSum(r.start, TASK_SIZE, psize);
    WholeSum(r.start, 2 * TASK_SIZE, psize);
    LoadAt(r, r.start, psize);
    if second < r.end { LoadAt(r, second, psize); }
    if third < r.end { LoadAt(r, third, psize); }
  }

  lemma WholeSum(a: nat, b: nat, s: nat)
    requires s > 0 && Whole(a, s) && Whole(b, s)
    ensures Whole(a + b, s)
  {
    WholeAdds(a, b, s);
  }

  /** An aligned region is read without a cut under every schedule if and only if it is no longer than 17 MiB. */
  lemma OneRegionIff(r: Range, psize: nat, threads: nat)
    requires PointerSize(psize) && Whole(r.start, psize) && r.start <= r.end && threads > 0
    ensures var loads := Loads(TasksFrom(r, r.start, 0), psize, false);
      (forall owners :: Assigned(owners, |loads|, threads) ==> !SomeCut(PerRead(psize, false), loads, owners))
      <==> RoundDown(r.end - r.start, psize) <= 17 * 0x10_0000
  {
    hide Whole, RoundDown, Positions, SomeCut;
    var loads, size := Loads(TasksFrom(r, r.start, 0), psize, false), r.end - r.start;
    EveryScheduleIff(MAX_READ, loads, threads);
    AloneIsCutIff(MAX_READ, loads);
    if r.start < r.end {
      FirstLoads(r, psize);
      FullTask(psize);
      RegionIsCutIff(loads, size, psize);
    } else {
      RoundOfNothing(psize);
    }
  }

  lemma RoundOfNothing(s: nat)
    requires s > 0
    ensures RoundDown(0, s) == 0
  {
  }

  lemma RegionIsCutIff(loads: seq<nat>, size: nat, psize: nat)
    requires PointerSize(psize) && loads != []
    requires (|loads| == 1 <==> size <= TASK_SIZE) && (|loads| <= 2 <==> size <= 2 * TASK_SIZE)
    requires |loads| <= 3 <==> size <= 3 * TASK_SIZE
    requires loads[0] == RoundDown(Min(TASK_SIZE, size), psize)
    requires |loads| > 1 ==> loads[1] == RoundDown(Min(TASK_SIZE, size - TASK_SIZE), psize)
    requires |loads| > 2 ==> loads[2] == RoundDown(Min(TASK_SIZE, size - 2 * TASK_SIZE), psize)
    ensures (exists i :: 0 <= i < |loads| && Cut(MAX_READ, Min(4, Total(MAX_READ, loads, i)), loads[i]))
      <==> RoundDown(size, psize) > 17 * MAX_READ
  {
    hide Whole, RoundDown;
    FullTask(psize);
    if |loads| > 2 {
      assert loads[0] == TASK_SIZE && loads[1] == TASK_SIZE;
      assert Batches(MAX_READ, TASK_SIZE) == 2;
      assert Total(MAX_READ, loads, 1) == 2 && Total(MAX_READ, loads, 2) == 4;
      RoundDownLess(size, 2 * TASK_SIZE, psize);
      if |loads| > 3 { assert Cut(MAX_READ, Min(4, Total(MAX_READ, loads, 2)), loads[2]); }
    } else if |loads| == 2 {
      assert loads[0] == TASK_SIZE && Batches(MAX_READ, TASK_SIZE) == 2;
      assert Total(MAX_READ, loads, 1) == 2;
    }
  }

  // ----- whole pieces of a region

  lemma {:induction false} LongsOfFirst(reach: nat, first: nat, rest: seq<nat>, i: nat)
    requires i <= |rest|
    ensures Longs(reach, [first] + rest, i + 1) == (if Long(reach, first) then 1 else 0) + Longs(reach, rest, i)
  {
    if i == 0 {
      assert Longs(reach, [first] + rest, 0) == 0;
    } else {
      LongsOfFirst(reach, first, rest, i - 1);
      assert ([first] + rest)[i] == rest[i - 1];
    }
  }

  lemma WholePieceIsLong(r: Range, start: nat, psize: nat, byteStep: bool)
    requires PointerSize(psize) && start + TASK_SIZE <= r.end && (byteStep || Whole(start, psize))
    ensures var tasks := TasksFrom(r, start, Overlap(psize, byteStep));
      |tasks| > 0 && Long(PerRead(psize, byteStep), Positions(tasks[0], psize, byteStep))
  {
    hide Whole, RoundDown;
    if !byteStep {
      FullTask(psize);
      RoundDownIs(start + psize - 1, start, psize);
    }
  }

  /** How many whole tasks fit into the region from `start` on. */
  function WholePieces(r: Range, start: nat): nat
    decreases if start < r.end then r.end - start else 0
  {
    if start + TASK_SIZE <= r.end then 1 + WholePieces(r, start + TASK_SIZE) else 0
  }

  lemma LoadsOfRest(tasks: seq<Task>, psize: nat, byteStep: bool)
    requires PointerSize(psize) && tasks != []
    ensures Loads(tasks, psize, byteStep) == [Positions(tasks[0], psize, byteStep)] + Loads(tasks[1..], psize, byteStep)
  {
    hide Positions;
  }

  /** Every whole 8 MiB of a region are a long task. */
  lemma {:induction false} WholePiecesAreLong(r: Range, start: nat, psize: nat, byteStep: bool)
    requires PointerSize(psize) && (byteStep || Whole(start, psize))
    ensures var tasks := TasksFrom(r, start, Overlap(psize, byteStep));
      Longs(PerRead(psize, byteStep), Loads(tasks, psize, byteStep), |tasks|) >= WholePieces(r, start)
    decreases if start < r.end then r.end - start else 0
  {
    hide Whole, Longs, Long, Positions, PerRead, Loads, Overlap;
    var next, overlap := start + TASK_SIZE, Overlap(psize, byteStep);
    if next <= r.end {
      var tasks := TasksFrom(r, start, overlap);
      TasksFromStep(r, start, overlap);
      assert tasks[1..] == TasksFrom(r, next, overlap);
      if !byteStep {
        FullTask(psize);
        WholeSum(start, TASK_SIZE, psize);
      }
      WholePieceIsLong(r, start, psize, byteStep);
      WholePiecesAreLong(r, next, psize, byteStep);
      LoadsOfRest(tasks, psize, byteStep);
      LongsOfFirst(PerRead(psize, byteStep), Positions(tasks[0], psize, byteStep), Loads(tasks[1..], psize, byteStep),
        |tasks| - 1);
    }
  }

  lemma {:induction false} LongsSplit(reach: nat, a: seq<nat>, b: seq<nat>, i: nat)
    requires i <= |b|
    ensures Longs(reach, a + b, |a| + i) == Longs(reach, a, |a|) + Longs(reach, b, i)
  {
    if i == 0 {
      LongsFront(reach, a, b, |a|);
    } else {
      LongsSplit(reach, a, b, i - 1);
      assert (a + b)[|a| + i - 1] == b[i - 1];
    }
  }

  lemma {:induction false} LongsFront(reach: nat, a: seq<nat>, b: seq<nat>, i: nat)
    requires i <= |a|
    ensures Longs(reach, a + b, i) == Longs(reach, a, i)
  {
    if i > 0 { LongsFront(reach, a, b, i - 1); }
  }

  lemma LoadsSplit(a: seq<Task>, b: seq<Task>, psize: nat, byteStep: bool)
    requires PointerSize(psize)
    ensures Loads(a + b, psize, byteStep) == Loads(a, psize, byteStep) + Loads(b, psize, byteStep)
  {
    hide Positions;
  }

  /** The whole 8 MiB of all regions. */
  function WholePiecesOf(ranges: seq<Range>): nat {
    if ranges == [] then 0 else WholePieces(ranges[0], ranges[0].start) + WholePiecesOf(ranges[1..])
  }

  lemma {:induction false} LongTasksOf(ranges: seq<Range>, psize: nat, byteStep: bool)
    requires PointerSize(psize) && AlignedRanges(ranges, psize, byteStep)
    ensures var tasks := TasksOf(ranges, psize, byteStep);
      Longs(PerRead(psize, byteStep), Loads(tasks, psize, byteStep), |tasks|) >= WholePiecesOf(ranges)
  {
    hide Whole, Longs, Loads, PerRead, TasksFrom, WholePieces;
    if ranges != [] {
      var r, rest, reach := ranges[0], ranges[1..], PerRead(psize, byteStep);
      var here, later := TasksFrom(r, r.start, Overlap(psize, byteStep)), TasksOf(rest, psize, byteStep);
      assert TasksOf(ranges, psize, byteStep) == here + later;
      LongTasksOf(rest, psize, byteStep);
      WholePiecesAreLong(r, r.start, psize, byteStep);
      LoadsSplit(here, later, psize, byteStep);
      LongsSplit(reach, Loads(here, psize, byteStep), Loads(later, psize, byteStep), |later|);
    }
  }
}
