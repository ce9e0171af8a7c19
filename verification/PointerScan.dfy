/**
 One round of the pointer scan: the level of nodes that point near a list of wanted addresses, built on a
 pool of threads by reading the slots of tasks or by looking the addresses up in an index.
 */
module PointerScan {
  import opened Machine
  import opened Ordering
  import opened Collecting
  import opened ClaimQueue
  import opened PointerIndexFile
  import opened PointerLevels
  import opened PointerLookup
  import opened ReadPace
  import opened ScanThreads

  const MAX_DEPTH := 50
  const MAX_TARGETS := 2000

  /**
   What is scanned, how slots are read and how far a value may lie from what it points at. An index, if one is used,
   takes the place of the tasks: its addresses are then the slots.
   */
  datatype Config = Config(mem: Memory, psize: nat, byteStep: bool, strict: bool, maxOffset: u64, tasks: seq<Task>,
                           index: Option<seq<Entry>>)

  ghost predicate GoodConfig(c: Config) {
    && PointerSize(c.psize) && (forall i :: 0 <= i < |c.tasks| ==> GoodTask(c.tasks[i], c.byteStep))
    && (c.index.Some? ==> TrueEntries(c.mem, c.psize, c.index.value))
  }

  /** Pairs of an address and the nonzero pointer stored there: what an index of this memory consists of. */
  ghost predicate TrueEntries(mem: Memory, psize: nat, entries: seq<Entry>)
    requires PointerSize(psize)
  {
    forall e :: e in entries ==> e.address < TAG_LIMIT && e.value == SlotValue(mem, e.address, psize) && e.value != 0
  }

  /** Some task visits the slot at `a`, or the index has it. */
  ghost predicate Scanned(c: Config, a: nat)
    requires PointerSize(c.psize)
  {
    if c.index.Some? then exists e :: e in c.index.value && e.address == a
    else exists i :: 0 <= i < |c.tasks| && a in TaskSlots(c.tasks[i], c.psize, c.byteStep)
  }

  function Value(c: Config, a: nat): u64
    requires PointerSize(c.psize)
  {
    SlotValue(c.mem, a, c.psize)
  }

  /** The slot at `n.address` holds a nonzero value within reach of the wanted address `n` names. */
  ghost predicate PointsAt(c: Config, n: Node, refs: seq<TargetRef>)
    requires PointerSize(c.psize)
  {
    && Value(c, n.address) != 0
    && exists r :: r in refs && Near(Value(c, n.address), r.addr, c.maxOffset)
        && n.offset == r.addr - Value(c, n.address) && n.parent == r.index
  }

  /** The meaning of a level: every node there is over the scanned slots, and no other, once. */
  ghost predicate IsLevel(c: Config, level: seq<Node>, refs: seq<TargetRef>, complete: bool)
    requires PointerSize(c.psize)
  {
    && SortedBy(level, NodeLe) && NoDuplicates(level)
    && (forall n :: n in level ==> Scanned(c, n.address) && PointsAt(c, n, refs))
    && (complete ==> forall n: Node :: Scanned(c, n.address) && PointsAt(c, n, refs) ==> n in level)
  }

  predicate NodeLe(a: Node, b: Node) {
    a.address < b.address
    || (a.address == b.address && (a.parent < b.parent || (a.parent == b.parent && a.offset <= b.offset)))
  }

  lemma NodeOrder()
    ensures TotalOrder(NodeLe)
  {
  }

  /** A level is determined by its meaning, whichever way it was computed. */
  lemma LevelIsUnique(c: Config, a: seq<Node>, b: seq<Node>, refs: seq<TargetRef>)
    requires PointerSize(c.psize) && IsLevel(c, a, refs, true) && IsLevel(c, b, refs, true)
    ensures a == b
  {
    NodeOrder();
    forall n ensures n in a <==> n in b {
    }
    StrictlySortedUnique(a, b, NodeLe);
  }

  // ----- a level as the threads collect it

  lemma NodesOverMember(c: Config, slots: seq<nat>, refs: seq<TargetRef>, n: Node)
    requires PointerSize(c.psize) && forall i :: 0 <= i < |slots| ==> slots[i] < TAG_LIMIT
    ensures n in NodesOver(c.mem, c.psize, slots, refs, c.maxOffset) <==> n.address in slots && PointsAt(c, n, refs)
  {
    hide PointerOf;
    CollectMember(slots, (a: nat) => NodesAt(c.mem, c.psize, a, refs, c.maxOffset), n);
    forall a: nat | a in slots
      ensures n in NodesAt(c.mem, c.psize, a, refs, c.maxOffset) <==> n.address == a && PointsAt(c, n, refs)
    {
      var v := Value(c, a);
      CollectMember(refs, (r: TargetRef) => NodeFor(v, a, r, c.maxOffset), n);
    }
  }

  /** A node found in a scanned slot of one task. */
  lemma TaskNodeMember(c: Config, i: nat, refs: seq<TargetRef>, n: Node)
    requires GoodConfig(c) && i < |c.tasks|
    ensures var slots := TaskSlots(c.tasks[i], c.psize, c.byteStep);
      n in NodesOver(c.mem, c.psize, slots, refs, c.maxOffset) <==> n.address in slots && PointsAt(c, n, refs)
  {
    var slots := TaskSlots(c.tasks[i], c.psize, c.byteStep);
    assert GoodTask(c.tasks[i], c.byteStep);
    NodesOverMember(c, slots, refs, n);
  }

  lemma {:induction false} FlatMember<T>(items: seq<seq<T>>, e: T)
    ensures e in Flat(items) <==> exists i :: 0 <= i < |items| && e in items[i]
  {
    if items != [] {
      FlatMember(items[1..], e);
      assert forall i :: 0 < i < |items| ==> items[i] == items[1..][i - 1];
      if i :| 0 <= i < |items| - 1 && e in items[1..][i] {
        assert e in items[i + 1];
      }
    }
  }

  /** What the merged thread vectors contain is what the items produced. */
  lemma GatheredMember(items: seq<seq<Event<Node>>>, locals: seq<ClaimQueue.Worker<Node>>, n: Node)
    requires multiset(Emits(Gather(locals))) == multiset(Flat(items))
    ensures n in Gather(locals) <==> exists i :: 0 <= i < |items| && Emit(n) in items[i]
  {
    EmitsCount(Gather(locals), n);
    assert Emit(n) in multiset(Emits(Gather(locals))) <==> n in multiset(Gather(locals));
    assert Emit(n) in multiset(Flat(items)) <==> Emit(n) in Flat(items);
    FlatMember(items, Emit(n));
  }

  /** The nodes a level is made of, gathered thread by thread, sorted and made unique. */
  method FinishLevel(found: seq<Node>) returns (level: seq<Node>)
    ensures SortedBy(level, NodeLe) && NoDuplicates(level) && SameElements(level, found)
    ensures |level| <= |found|
  {
    NodeOrder();
    var sorted := Sort(found, NodeLe);
    level := Unique(sorted, NodeLe);
    SameMultisetSameElements(sorted, found);
  }

  function TaskEvents(nodes: seq<Node>, failed: bool): seq<Event<Node>> {
    Emits(nodes) + if failed then [Fail] else []
  }

  /** How building a level ends. An empty level is found, too. */
  datatype Stop = Found | Unreadable | TooMany

  /** The nodes the tasks contribute, before repetitions are dropped: what the node limit counts. */
  function NodesOfTasks(c: Config, refs: seq<TargetRef>): seq<Node>
    requires GoodConfig(c)
  {
    NodesOfFirst(c, refs, |c.tasks|)
  }

  function NodesOfFirst(c: Config, refs: seq<TargetRef>, n: nat): seq<Node>
    requires GoodConfig(c) && n <= |c.tasks|
  {
    if n == 0 then []
    else
      NodesOfFirst(c, refs, n - 1)
      + NodesOver(c.mem, c.psize, TaskSlots(c.tasks[n - 1], c.psize, c.byteStep), refs, c.maxOffset)
  }

  /** What one task contributes. */
  function TaskNodes(c: Config, refs: seq<TargetRef>, i: nat): seq<Node>
    requires GoodConfig(c) && i < |c.tasks|
  {
    NodesOver(c.mem, c.psize, TaskSlots(c.tasks[i], c.psize, c.byteStep), refs, c.maxOffset)
  }

  ghost predicate ItemSound(c: Config, refs: seq<TargetRef>, i: nat, item: seq<Event<Node>>)
    requires GoodConfig(c) && i < |c.tasks|
  {
    forall n :: Emit(n) in item ==> n in TaskNodes(c, refs, i)
  }

  ghost predicate ItemFull(c: Config, refs: seq<TargetRef>, i: nat, item: seq<Event<Node>>)
    requires GoodConfig(c) && i < |c.tasks|
  {
    forall n :: n in TaskNodes(c, refs, i) ==> Emit(n) in item
  }

  lemma ItemMeaning(c: Config, refs: seq<TargetRef>, i: nat, nodes: seq<Node>, failed: bool, all: bool)
    requires GoodConfig(c) && i < |c.tasks|
    requires multiset(nodes) <= multiset(TaskNodes(c, refs, i)) && (all ==> nodes == TaskNodes(c, refs, i))
    ensures ItemSound(c, refs, i, TaskEvents(nodes, failed))
      && (all ==> ItemFull(c, refs, i, TaskEvents(nodes, failed)))
    ensures failed ==> Fail in TaskEvents(nodes, failed)
    ensures |nodes| <= |TaskNodes(c, refs, i)|
  {
    hide TaskNodes;
    var item := TaskEvents(nodes, failed);
    forall n ensures Emit(n) in item <==> n in nodes {
      if n in nodes {
        var k :| 0 <= k < |nodes| && nodes[k] == n;
        assert item[k] == Emit(n);
      }
    }
    forall n | n in nodes ensures n in TaskNodes(c, refs, i) { assert n in multiset(nodes); }
    if failed { assert item[|nodes|] == Fail; }
    assert |nodes| == |multiset(nodes)| && |multiset(TaskNodes(c, refs, i))| == |TaskNodes(c, refs, i)|;
    SubMultiset(multiset(nodes), multiset(TaskNodes(c, refs, i)));
  }

  lemma SubMultiset(a: multiset<Node>, b: multiset<Node>)
    requires a <= b
    ensures |a| <= |b|
  {
    assert b == a + (b - a);
  }

  /** Every thread keeps the pace that its answered batches give it. */
  ghost predicate Paces(paces: seq<Pace>, reach: nat, loads: seq<nat>, owners: seq<nat>, i: nat)
    requires reach > 0 && i <= |loads| <= |owners|
  {
    forall w :: 0 <= w < |paces| ==> After(paces[w], Answered(reach, loads, owners, i, w))
  }

  lemma StartPaces(reach: nat, loads: seq<nat>, owners: seq<nat>, threads: nat)
    requires reach > 0 && |loads| <= |owners|
    ensures Paces(seq(threads, w => START), reach, loads, owners, 0)
  {
  }

  lemma PacesStep(paces: seq<Pace>, reach: nat, loads: seq<nat>, owners: seq<nat>, i: nat, pace: Pace)
    requires reach > 0 && i < |loads| <= |owners| && owners[i] < |paces| && Paces(paces, reach, loads, owners, i)
    requires After(pace, Done(reach, Answered(reach, loads, owners, i, owners[i]), loads[i]))
    ensures Paces(paces[owners[i] := pace], reach, loads, owners, i + 1)
  {
    hide After, Done;
  }

  /** Which thread takes which task. */
  method Schedule(tasks: nat, threads: nat) returns (owners: seq<nat>)
    requires threads > 0
    ensures Assigned(owners, tasks, threads)
  {
    owners := [];
    for i := 0 to tasks
      invariant |owners| == i && forall j :: 0 <= j < i ==> owners[j] < threads
    {
      var w: nat :| w < threads;
      owners := owners + [w];
    }
  }

  /** The positions in each task, and how many a read covers. */
  function LoadsOf(c: Config): (r: seq<nat>)
    requires GoodConfig(c)
    ensures |r| == |c.tasks|
  {
    Loads(c.tasks, c.psize, c.byteStep)
  }

  /** Some thread of this schedule comes to a piece longer than the agent returns. */
  ghost predicate CutFor(c: Config, owners: seq<nat>)
    requires GoodConfig(c) && |owners| == |c.tasks|
  {
    SomeCut(PerRead(c.psize, c.byteStep), LoadsOf(c), owners)
  }

  /** Every schedule of so many threads gets all its pieces whole. */
  ghost predicate NeverCut(c: Config, threads: nat)
    requires GoodConfig(c)
  {
    forall owners :: Assigned(owners, |c.tasks|, threads) ==> !CutFor(c, owners)
  }

  /**
   Reading was complete only under a schedule without a cut, and is if there is no other and the agent does its part.
   */
  ghost predicate ReadBy(c: Config, threads: nat, complete: bool, prompt: bool)
    requires GoodConfig(c)
  {
    c.index.None? ==>
      && (complete ==> prompt && exists owners :: Assigned(owners, |c.tasks|, threads) && !CutFor(c, owners))
      && (prompt && NeverCut(c, threads) ==> complete)
  }

  /** With more than two long tasks for each thread reading is never complete. */
  lemma LongScanIsIncomplete(c: Config, threads: nat, complete: bool, prompt: bool)
    requires GoodConfig(c) && c.index.None? && ReadBy(c, threads, complete, prompt)
    requires Longs(PerRead(c.psize, c.byteStep), LoadsOf(c), |c.tasks|) > 2 * threads
    ensures !complete
  {
    hide SomeCut, LoadsOf, PerRead;
    if complete {
      var owners :| Assigned(owners, |c.tasks|, threads) && !CutFor(c, owners);
      TooManyLongTasks(PerRead(c.psize, c.byteStep), LoadsOf(c), owners, threads);
    }
  }

  /** What can be checked beforehand: the tasks one after the other, as if one thread took them all. */
  lemma NeverCutIff(c: Config, threads: nat)
    requires GoodConfig(c) && threads > 0
    ensures NeverCut(c, threads) <==> forall i :: 0 <= i < |c.tasks| ==>
      !Cut(PerRead(c.psize, c.byteStep), Min(4, Total(PerRead(c.psize, c.byteStep), LoadsOf(c), i)), LoadsOf(c)[i])
  {
    hide SomeCut, LoadsOf, PerRead, Cut, Total, Assigned;
    EveryScheduleIff(PerRead(c.psize, c.byteStep), LoadsOf(c), threads);
    AloneIsCutIff(PerRead(c.psize, c.byteStep), LoadsOf(c));
  }

  /**
   One item per task: the nodes found in it, and a failure if a strict read failed. When the agent returns all it can
   (`prompt`), the reads are complete exactly if no piece is cut.
   */
  method ReadTasks(c: Config, refs: seq<TargetRef>, threads: nat)
    returns (items: seq<seq<Event<Node>>>, complete: bool, ghost owners: seq<nat>, ghost prompt: bool)
    requires GoodConfig(c) && SortedBy(refs, RefLe) && threads > 0
    ensures |items| == |c.tasks| && forall j :: 0 <= j < |items| ==> ItemSound(c, refs, j, items[j])
    ensures complete ==> forall j :: 0 <= j < |items| ==> ItemFull(c, refs, j, items[j])
    ensures complete ==> Flat(items) == Emits(NodesOfTasks(c, refs))
    ensures Fail in Flat(items) ==> c.strict
    ensures c.strict && !complete ==> exists j :: 0 <= j < |items| && Fail in items[j]
    ensures Emitted(Flat(items)) <= |NodesOfTasks(c, refs)|
    ensures Assigned(owners, |c.tasks|, threads) && (complete ==> prompt)
    ensures prompt ==> (complete <==> !CutFor(c, owners))
  {
    hide NodesOver, TaskSlots, ItemSound, ItemFull, TaskEvents, Emitted, Flat, Paces, After, CutAt, LoadsOf, PerRead;
    var taken := Schedule(|c.tasks|, threads);
    var paces := seq(threads, w => START);
    ghost var reach, loads := PerRead(c.psize, c.byteStep), LoadsOf(c);
    items, complete, owners, prompt := [], true, taken, true;
    NoItems();
    StartPaces(reach, loads, owners, threads);
    for i := 0 to |c.tasks|
      invariant |items| == i && forall j :: 0 <= j < i ==> ItemSound(c, refs, j, items[j])
      invariant complete ==> forall j :: 0 <= j < i ==> ItemFull(c, refs, j, items[j])
      invariant complete ==> Flat(items) == Emits(NodesOfFirst(c, refs, i))
      invariant Fail in Flat(items) ==> c.strict
      invariant c.strict && !complete ==> exists j :: 0 <= j < i && Fail in items[j]
      invariant Emitted(Flat(items)) <= |NodesOfFirst(c, refs, i)|
      invariant |paces| == threads && forall w :: 0 <= w < threads ==> Fair(paces[w])
      invariant complete ==> prompt && Paces(paces, reach, loads, owners, i)
      invariant complete ==> forall j :: 0 <= j < i ==> !CutAt(reach, loads, owners, j)
      invariant prompt && !complete ==> exists j :: 0 <= j < i && CutAt(reach, loads, owners, j)
    {
      var w := taken[i];
      var nodes, failed, all, pace;
      ghost var quick;
      nodes, failed, all, pace, quick := ScanTaskOf(c, refs, i, paces[w], Answered(reach, loads, owners, i, w));
      ItemMeaning(c, refs, i, nodes, failed, all);
      FailsAppend(items, nodes, failed);
      if complete {
        OnePace(paces, reach, loads, owners, i);
        CutAtIs(c, owners, i);
        if quick && !failed { PacesStep(paces, reach, loads, owners, i, pace); }
        assert quick ==> (all <==> !CutAt(reach, loads, owners, i));
      }
      if complete && all { MoreItems(items, nodes, NodesOfFirst(c, refs, i), failed); }
      ghost var before := items;
      items := items + [TaskEvents(nodes, failed)];
      assert forall j :: 0 <= j < i ==> items[j] == before[j];
      if c.strict && !complete {
        ghost var j :| 0 <= j < i && Fail in before[j];
        assert Fail in items[j];
      }
      assert failed ==> Fail in items[i];
      paces, complete, prompt := paces[w := pace], complete && all, prompt && quick;
    }
  }

  /** Scanning task `i` on a thread of that pace. */
  method ScanTaskOf(c: Config, refs: seq<TargetRef>, i: nat, start: Pace, ghost n: nat)
    returns (nodes: seq<Node>, failed: bool, all: bool, pace: Pace, ghost prompt: bool)
    requires GoodConfig(c) && SortedBy(refs, RefLe) && i < |c.tasks| && Fair(start) && n <= 4
    ensures multiset(nodes) <= multiset(TaskNodes(c, refs, i)) && (all ==> nodes == TaskNodes(c, refs, i))
    ensures (failed <==> c.strict && !all) && (all ==> prompt) && Fair(pace)
    ensures prompt && After(start, n) ==>
      var reach, load := PerRead(c.psize, c.byteStep), Positions(c.tasks[i], c.psize, c.byteStep);
      (all <==> !Cut(reach, n, load)) && (!failed ==> After(pace, Done(reach, n, load)))
  {
    hide NodesOver, TaskSlots, After, Cut, Done, Positions, PerRead;
    ghost var looked;
    var t := c.tasks[i];
    nodes, failed, all, pace, looked, prompt :=
      ScanOneTask(c.mem, t, c.psize, c.byteStep, c.strict, refs, c.maxOffset, start, n);
    FewerSlots(c.mem, c.psize, looked, TaskSlots(t, c.psize, c.byteStep), refs, c.maxOffset);
  }

  lemma OnePace(paces: seq<Pace>, reach: nat, loads: seq<nat>, owners: seq<nat>, i: nat)
    requires reach > 0 && i < |loads| <= |owners| && owners[i] < |paces| && Paces(paces, reach, loads, owners, i)
    ensures After(paces[owners[i]], Answered(reach, loads, owners, i, owners[i]))
  {
  }

  lemma CutAtIs(c: Config, owners: seq<nat>, i: nat)
    requires GoodConfig(c) && i < |c.tasks| == |owners|
    ensures var reach := PerRead(c.psize, c.byteStep);
      && LoadsOf(c)[i] == Positions(c.tasks[i], c.psize, c.byteStep)
      && (CutAt(reach, LoadsOf(c), owners, i) <==>
          Cut(reach, Answered(reach, LoadsOf(c), owners, i, owners[i]), LoadsOf(c)[i]))
  {
  }

  lemma NoItems()
    ensures Flat<Event<Node>>([]) == [] && Emitted<Node>([]) == 0 && Emits<Node>([]) == []
  {
  }

  /**
   Reading the slots from the process. The node limit is only reported when it is reached, and always if no read failed.
   */
  method LevelFromMemory(c: Config, refs: seq<TargetRef>, threads: nat, limit: nat)
    returns (stop: Stop, complete: bool, level: seq<Node>, ghost owners: seq<nat>, ghost prompt: bool)
    requires GoodConfig(c) && c.index.None? && SortedBy(refs, RefLe) && threads > 0
    ensures Assigned(owners, |c.tasks|, threads) && (complete ==> prompt)
    ensures prompt ==> (complete <==> !CutFor(c, owners))
    ensures ReadBy(c, threads, complete, prompt)
    ensures stop == Found ==> IsLevel(c, level, refs, complete)
    ensures stop == Found && c.strict ==> complete
    ensures stop == Unreadable ==> c.strict && !complete
    ensures stop == TooMany ==> |NodesOfTasks(c, refs)| >= limit
    ensures complete && stop == Found ==> |NodesOfTasks(c, refs)| < limit
  {
    hide ItemSound, ItemFull, NodesOfTasks, Flat, Gather, IsLevel, CutFor;
    var items;
    items, complete, owners, prompt := ReadTasks(c, refs, threads);
    assert ReadBy(c, threads, complete, prompt);
    var locals, total, failed, overflow := RunWorkers(items, limit, threads);
    level := [];
    if complete { NoFailIn(items, NodesOfTasks(c, refs)); }
    if failed {
      return Unreadable, complete, level, owners, prompt;
    }
    if overflow || total >= limit {
      return TooMany, complete, level, owners, prompt;
    }
    level := FinishLevel(Gather(locals));
    stop := Found;
    MemoryLevelMeaning(c, refs, items, locals, level, complete);
  }

  lemma MoreItems(items: seq<seq<Event<Node>>>, nodes: seq<Node>, before: seq<Node>, failed: bool)
    requires Flat(items) == Emits(before) && !failed
    ensures Flat(items + [TaskEvents(nodes, failed)]) == Emits(before + nodes)
  {
    var last := [TaskEvents(nodes, failed)];
    FlatConcat(items, last);
    assert last[1..] == [];
    assert Flat(last) == Emits(nodes) + [];
    EmitsSplit(before, nodes);
  }

  lemma FailsAppend(items: seq<seq<Event<Node>>>, nodes: seq<Node>, failed: bool)
    ensures Fail in Flat(items + [TaskEvents(nodes, failed)]) <==> Fail in Flat(items) || failed
    ensures Emitted(Flat(items + [TaskEvents(nodes, failed)])) == Emitted(Flat(items)) + |nodes|
  {
    var last := [TaskEvents(nodes, failed)];
    FlatConcat(items, last);
    assert last[1..] == [];
    assert Flat(last) == TaskEvents(nodes, failed) + [];
    if failed { assert TaskEvents(nodes, failed)[|nodes|] == Fail; }
    var one: seq<Event<Node>> := [Fail];
    var tail := if failed then one else [];
    assert one[1..] == [] && Emitted(one[1..]) == 0 && Emitted(tail) == 0;
    assert TaskEvents(nodes, failed) == Emits(nodes) + tail;
    assert Flat(items + last) == Flat(items) + TaskEvents(nodes, failed);
    EmittedSplit(Flat(items), TaskEvents(nodes, failed));
    EmittedSplit(Emits(nodes), tail);
    EmittedAll(nodes);
  }

  lemma NoFailIn(items: seq<seq<Event<Node>>>, nodes: seq<Node>)
    requires Flat(items) == Emits(nodes)
    ensures Fail !in Flat(items) && |Flat(items)| == |nodes|
  {
  }

  lemma MemoryLevelMeaning(c: Config, refs: seq<TargetRef>, items: seq<seq<Event<Node>>>,
                           locals: seq<ClaimQueue.Worker<Node>>, level: seq<Node>, complete: bool)
    requires GoodConfig(c) && c.index.None? && |items| == |c.tasks|
    requires multiset(Emits(Gather(locals))) == multiset(Flat(items))
    requires SortedBy(level, NodeLe) && NoDuplicates(level) && SameElements(level, Gather(locals))
    requires forall j :: 0 <= j < |items| ==> ItemSound(c, refs, j, items[j])
    requires complete ==> forall j :: 0 <= j < |items| ==> ItemFull(c, refs, j, items[j])
    requires c.strict && !complete ==> exists j :: 0 <= j < |items| && Fail in items[j]
    ensures IsLevel(c, level, refs, complete)
    ensures c.strict ==> complete
  {
    hide NodesOver, TaskSlots, PointsAt, Flat, Gather;
    forall n | n in level ensures Scanned(c, n.address) && PointsAt(c, n, refs) {
      GatheredMember(items, locals, n);
      var i :| 0 <= i < |items| && Emit(n) in items[i];
      assert ItemSound(c, refs, i, items[i]);
      TaskNodeMember(c, i, refs, n);
    }
    if complete {
      forall n: Node | Scanned(c, n.address) && PointsAt(c, n, refs) ensures n in level {
        var i :| 0 <= i < |c.tasks| && n.address in TaskSlots(c.tasks[i], c.psize, c.byteStep);
        TaskNodeMember(c, i, refs, n);
        assert ItemFull(c, refs, i, items[i]);
        assert Emit(n) in items[i];
        GatheredMember(items, locals, n);
      }
    }
    FlatMember(items, Fail);
    EmitsCount(Gather(locals), Node(0, 0, 0));
    assert Fail !in multiset(Flat(items));
  }

  /** The index as it is looked up in: sorted, over the slots the configuration names. */
  ghost predicate Looks(c: Config, entries: seq<Entry>) {
    c.index.Some? && SortedBy(entries, EntryLe) && SameElements(entries, c.index.value)
  }

  lemma FoundMember(c: Config, entries: seq<Entry>, ref: TargetRef, n: Node)
    requires GoodConfig(c) && Looks(c, entries)
    ensures n in FoundFrom(entries, 0, ref, c.maxOffset) <==> Scanned(c, n.address) && PointsAt(c, n, [ref])
  {
    hide SlotValue;
    assert entries[0..] == entries;
    CollectMember(entries, (e: Entry) => NodeFor(e.value, e.address, ref, c.maxOffset), n);
    assert ref in [ref];
    if Scanned(c, n.address) && PointsAt(c, n, [ref]) {
      var e :| e in c.index.value && e.address == n.address;
      assert e in entries && n in NodeFor(e.value, e.address, ref, c.maxOffset);
    }
  }

  /** What the wanted addresses find in the index, before repetitions are dropped. */
  function NodesOfRefs(entries: seq<Entry>, refs: seq<TargetRef>, m: u64, n: nat): seq<Node>
    requires n <= |refs|
  {
    if n == 0 then [] else NodesOfRefs(entries, refs, m, n - 1) + FoundFrom(entries, 0, refs[n - 1], m)
  }

  /** Looking the wanted addresses up in the index; each is claimed by one thread. */
  method LevelFromIndex(c: Config, entries: seq<Entry>, refs: seq<TargetRef>, threads: nat, limit: nat)
    returns (stop: Stop, level: seq<Node>)
    requires GoodConfig(c) && Looks(c, entries) && threads > 0
    ensures stop == Found ==> IsLevel(c, level, refs, true)
    ensures stop != Unreadable && (stop == TooMany <==> |NodesOfRefs(entries, refs, c.maxOffset, |refs|)| >= limit)
  {
    hide FoundFrom, Scanned, SlotValue;
    var blocks := BuildBlocks(entries);
    var items: seq<seq<Event<Node>>> := [];
    stop, level := TooMany, [];
    for i := 0 to |refs|
      invariant |items| == i
      invariant forall j :: 0 <= j < i ==> items[j] == Emits(FoundFrom(entries, 0, refs[j], c.maxOffset))
      invariant Flat(items) == Emits(NodesOfRefs(entries, refs, c.maxOffset, i))
    {
      var found := LookupTarget(entries, blocks, refs[i], c.maxOffset);
      MoreItems(items, found, NodesOfRefs(entries, refs, c.maxOffset, i), false);
      items := items + [TaskEvents(found, false)];
    }
    var locals, total, failed, overflow := RunWorkers(items, limit, threads);
    NoFailIn(items, NodesOfRefs(entries, refs, c.maxOffset, |refs|));
    if overflow || total >= limit {
      return;
    }
    var found := Gather(locals);
    level := FinishLevel(found);
    stop := Found;
    IndexLevelMeaning(c, entries, refs, items, locals, level);
  }

  /** The index items emit a node iff it stands over a scanned slot and points at a wanted address. */
  lemma IndexNodeMember(c: Config, entries: seq<Entry>, refs: seq<TargetRef>, items: seq<seq<Event<Node>>>, n: Node)
    requires GoodConfig(c) && Looks(c, entries) && |items| == |refs|
    requires forall j :: 0 <= j < |items| ==> items[j] == Emits(FoundFrom(entries, 0, refs[j], c.maxOffset))
    ensures (exists i :: 0 <= i < |items| && Emit(n) in items[i]) <==> Scanned(c, n.address) && PointsAt(c, n, refs)
  {
    hide FoundFrom, Scanned, SlotValue, Looks;
    forall i | 0 <= i < |refs|
      ensures Emit(n) in items[i] <==> Scanned(c, n.address) && PointsAt(c, n, [refs[i]])
    {
      var found := FoundFrom(entries, 0, refs[i], c.maxOffset);
      FoundMember(c, entries, refs[i], n);
      if n in found {
        var k :| 0 <= k < |found| && found[k] == n;
        assert items[i][k] == Emit(n);
      }
    }
    PointsAtSome(c, n, refs);
  }

  lemma PointsAtSome(c: Config, n: Node, refs: seq<TargetRef>)
    requires PointerSize(c.psize)
    ensures PointsAt(c, n, refs) <==> exists i :: 0 <= i < |refs| && PointsAt(c, n, [refs[i]])
  {
    hide SlotValue, Near;
    if PointsAt(c, n, refs) {
      var r :| r in refs && Near(Value(c, n.address), r.addr, c.maxOffset)
        && n.offset == r.addr - Value(c, n.address) && n.parent == r.index;
      var i :| 0 <= i < |refs| && refs[i] == r;
      assert r in [refs[i]];
      assert PointsAt(c, n, [refs[i]]);
    }
  }

  lemma IndexLevelMeaning(c: Config, entries: seq<Entry>, refs: seq<TargetRef>, items: seq<seq<Event<Node>>>,
                          locals: seq<ClaimQueue.Worker<Node>>, level: seq<Node>)
    requires GoodConfig(c) && Looks(c, entries) && |items| == |refs|
    requires multiset(Emits(Gather(locals))) == multiset(Flat(items))
    requires SortedBy(level, NodeLe) && NoDuplicates(level) && SameElements(level, Gather(locals))
    requires forall j :: 0 <= j < |items| ==> items[j] == Emits(FoundFrom(entries, 0, refs[j], c.maxOffset))
    ensures IsLevel(c, level, refs, true)
  {
    hide FoundFrom, Scanned, SlotValue, Looks, PointsAt;
    forall n: Node ensures n in level <==> Scanned(c, n.address) && PointsAt(c, n, refs) {
      GatheredMember(items, locals, n);
      IndexNodeMember(c, entries, refs, items, n);
    }
  }

  // ----- when an index may stand in for reading

  /** The node belongs to the level over these wanted addresses. */
  ghost predicate InLevel(c: Config, refs: seq<TargetRef>, n: Node)
    requires PointerSize(c.psize)
  {
    Scanned(c, n.address) && PointsAt(c, n, refs)
  }

  /** Both look at the same slots, empty ones aside. */
  ghost predicate SameSlots(m: Config, x: Config)
    requires PointerSize(m.psize) && PointerSize(x.psize)
  {
    forall a: nat :: Value(m, a) != 0 ==> (Scanned(m, a) <==> Scanned(x, a))
  }

  /**
   An index gives the levels reading would give if and only if it has the nonzero slots of the tasks and no others.
   */
  lemma IndexStandsInIff(m: Config, x: Config)
    requires GoodConfig(m) && GoodConfig(x) && m.index.None? && x == m.(index := x.index)
    ensures (forall refs, n :: InLevel(m, refs, n) <==> InLevel(x, refs, n)) <==> SameSlots(m, x)
  {
    hide Scanned, SlotValue;
    if forall refs, n :: InLevel(m, refs, n) <==> InLevel(x, refs, n) {
      forall a: nat | Value(m, a) != 0 ensures Scanned(m, a) <==> Scanned(x, a) {
        if Scanned(m, a) || Scanned(x, a) {
          SlotIsAddress(if Scanned(m, a) then m else x, a);
          var ref := TargetRef(Value(m, a), 0);
          var n := Node(a, 0, 0);
          assert ref in [ref];
          assert PointsAt(m, n, [ref]) && PointsAt(x, n, [ref]);
          assert InLevel(m, [ref], n) <==> InLevel(x, [ref], n);
        }
      }
    }
    if SameSlots(m, x) {
      forall refs, n ensures InLevel(m, refs, n) <==> InLevel(x, refs, n) {
        assert PointsAt(m, n, refs) <==> PointsAt(x, n, refs);
      }
    }
  }

  /** Then both ways give the same vector. */
  lemma SameSlotsSameLevel(m: Config, x: Config, refs: seq<TargetRef>, read: seq<Node>, looked: seq<Node>)
    requires GoodConfig(m) && GoodConfig(x) && m.index.None? && x == m.(index := x.index) && SameSlots(m, x)
    requires IsLevel(m, read, refs, true) && IsLevel(x, looked, refs, true)
    ensures read == looked
  {
    hide Scanned, SlotValue;
    IndexStandsInIff(m, x);
    NodeOrder();
    forall n ensures n in read <==> n in looked {
      assert InLevel(m, refs, n) <==> InLevel(x, refs, n);
    }
    StrictlySortedUnique(read, looked, NodeLe);
  }

  lemma SlotIsAddress(c: Config, a: nat)
    requires GoodConfig(c) && Scanned(c, a)
    ensures a < TAG_LIMIT
  {
    if c.index.None? {
      var i :| 0 <= i < |c.tasks| && a in TaskSlots(c.tasks[i], c.psize, c.byteStep);
      assert GoodTask(c.tasks[i], c.byteStep);
    }
  }

  /** An index over more than the selected ranges, which the client accepts, adds nodes that reading does not find. */
  lemma WiderIndexAddsNodes(m: Config, a: nat) returns (x: Config, refs: seq<TargetRef>, n: Node)
    requires GoodConfig(m) && m.index.None? && a < TAG_LIMIT && Value(m, a) != 0 && !Scanned(m, a)
    ensures x == m.(index := Some([Entry(Value(m, a), a)])) && GoodConfig(x)
    ensures InLevel(x, refs, n) && !InLevel(m, refs, n)
  {
    hide Scanned, SlotValue;
    var e := Entry(Value(m, a), a);
    x := m.(index := Some([e]));
    assert e in [e];
    var ref := TargetRef(Value(m, a), 0);
    assert ref in [ref];
    refs, n := [ref], Node(a, 0, 0);
    OneEntry(x, e);
  }

  lemma OneEntry(x: Config, e: Entry)
    requires PointerSize(x.psize) && x.index == Some([e])
    ensures Scanned(x, e.address)
  {
    assert e in [e];
  }
}
