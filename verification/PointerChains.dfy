/**
 What a pointer scan is for: the chains of a given depth that end at a target. The levels of the scan
 hold them as nodes with parent indices; every chain is described by exactly one node of the last level.
 */
module PointerChains {
  import opened Machine
  import opened Ordering
  import opened Collecting
  import opened PointerFile
  import opened PointerIndexFile
  import opened PointerLevels
  import opened PointerTasks
  import opened PointerScan
  import opened ReadPace
  import opened ScanThreads

  predicate Reach(offset: i64, m: u64) { Abs(offset) <= m && Abs(offset) < I64_LIMIT }

  /**
   A chain in file order: `offsets[0]` is the last step, taken into a target; the last offset is the
   first step, taken from the value stored at `a`. Every slot on the way is scanned and not zero.
   */
  ghost predicate Leads(c: Config, targets: seq<u64>, a: nat, offsets: seq<i64>)
    requires PointerSize(c.psize)
    decreases |offsets|
  {
    && offsets != [] && Scanned(c, a) && Value(c, a) != 0 && Reach(offsets[|offsets| - 1], c.maxOffset)
    && var next := Value(c, a) + offsets[|offsets| - 1];
      if |offsets| == 1 then next in targets else next >= 0 && Leads(c, targets, next, offsets[..|offsets| - 1])
  }

  /** A node of level `k`: over a scanned slot, pointing at a target or at a node of the level below. */
  ghost predicate IsNode(c: Config, targets: seq<u64>, levels: seq<seq<Node>>, k: nat, n: Node)
    requires PointerSize(c.psize) && k <= |levels|
  {
    && Scanned(c, n.address) && Value(c, n.address) != 0 && Reach(n.offset, c.maxOffset)
    && var next := Value(c, n.address) + n.offset;
      if k == 0 then n.parent == -1 && next in targets
      else 0 <= n.parent < |levels[k - 1]| && levels[k - 1][n.parent].address == next
  }

  ghost predicate GoodLevels(c: Config, targets: seq<u64>, levels: seq<seq<Node>>, complete: bool)
    requires PointerSize(c.psize)
  {
    forall k :: 0 <= k < |levels| ==>
      && SortedBy(levels[k], NodeLe) && NoDuplicates(levels[k])
      && (forall n :: n in levels[k] ==> IsNode(c, targets, levels, k, n))
      && (complete ==> forall n :: IsNode(c, targets, levels, k, n) ==> n in levels[k])
  }

  /** The offsets of the chain a node describes, found by following parents down to a target. */
  function OffsetsOf(levels: seq<seq<Node>>, k: nat, i: nat): (r: seq<i64>)
    requires k < |levels| && i < |levels[k]|
    requires HaveParents(levels)
    ensures |r| == k + 1
  {
    if k == 0 then [levels[0][i].offset]
    else OffsetsOf(levels, k - 1, levels[k][i].parent) + [levels[k][i].offset]
  }

  lemma ParentsExist(c: Config, targets: seq<u64>, levels: seq<seq<Node>>, complete: bool)
    requires PointerSize(c.psize) && GoodLevels(c, targets, levels, complete)
    ensures HaveParents(levels)
  {
    forall l, j | 0 < l < |levels| && 0 <= j < |levels[l]| ensures 0 <= levels[l][j].parent < |levels[l - 1]| {
      assert IsNode(c, targets, levels, l, levels[l][j]);
    }
  }

  /** Every node describes a chain that leads from its slot to a target. */
  lemma {:induction false} NodeLeads(c: Config, targets: seq<u64>, levels: seq<seq<Node>>, complete: bool, k: nat,
                                     i: nat)
    requires PointerSize(c.psize) && GoodLevels(c, targets, levels, complete) && k < |levels| && i < |levels[k]|
    requires HaveParents(levels)
    ensures Leads(c, targets, levels[k][i].address, OffsetsOf(levels, k, i))
  {
    var n := levels[k][i];
    assert IsNode(c, targets, levels, k, n);
    if k > 0 {
      NodeLeads(c, targets, levels, complete, k - 1, n.parent);
      assert OffsetsOf(levels, k, i)[..k] == OffsetsOf(levels, k - 1, n.parent);
    }
  }

  /** Every chain that leads to a target is described by some node. */
  lemma {:induction false} ChainHasNode(c: Config, targets: seq<u64>, levels: seq<seq<Node>>, k: nat, a: nat,
                                        offsets: seq<i64>)
    returns (i: nat)
    requires PointerSize(c.psize) && GoodLevels(c, targets, levels, true) && k < |levels|
    requires HaveParents(levels)
    requires |offsets| == k + 1 && a < TAG_LIMIT && Leads(c, targets, a, offsets)
    requires forall b: nat :: Scanned(c, b) ==> b < TAG_LIMIT
    ensures i < |levels[k]| && levels[k][i].address == a && OffsetsOf(levels, k, i) == offsets
  {
    hide Scanned, Value;
    var next := Value(c, a) + offsets[k];
    if k == 0 {
      var n := Node(a, offsets[0], -1);
      assert IsNode(c, targets, levels, 0, n) && n in levels[0];
      i :| 0 <= i < |levels[0]| && levels[0][i] == n;
    } else {
      assert Leads(c, targets, next, offsets[..k]);
      var p := ChainHasNode(c, targets, levels, k - 1, next, offsets[..k]);
      var n := Node(a, offsets[k], p);
      assert IsNode(c, targets, levels, k, n) && n in levels[k];
      i :| 0 <= i < |levels[k]| && levels[k][i] == n;
      assert offsets == offsets[..k] + [offsets[k]];
    }
  }

  /** Different nodes describe different chains. */
  lemma {:induction false} ChainHasOneNode(c: Config, targets: seq<u64>, levels: seq<seq<Node>>, complete: bool, k: nat,
                                           i: nat, j: nat)
    requires PointerSize(c.psize) && GoodLevels(c, targets, levels, complete) && k < |levels|
    requires i < |levels[k]| && j < |levels[k]|
    requires HaveParents(levels)
    requires levels[k][i].address == levels[k][j].address && OffsetsOf(levels, k, i) == OffsetsOf(levels, k, j)
    ensures i == j
  {
    hide Scanned, Value;
    var m, n := levels[k][i], levels[k][j];
    assert IsNode(c, targets, levels, k, m) && IsNode(c, targets, levels, k, n);
    assert OffsetsOf(levels, k, i)[k] == m.offset && OffsetsOf(levels, k, j)[k] == n.offset;
    if k > 0 {
      assert OffsetsOf(levels, k, i)[..k] == OffsetsOf(levels, k - 1, m.parent);
      assert OffsetsOf(levels, k, j)[..k] == OffsetsOf(levels, k - 1, n.parent);
      ChainHasOneNode(c, targets, levels, complete, k - 1, m.parent, n.parent);
    }
    assert m == n;
  }

  // ----- the scan

  /** What the next level looks for: the targets, or the slots of the level just found. */
  ghost predicate Wanted(r: TargetRef, targets: seq<u64>, levels: seq<seq<Node>>, k: nat)
    requires k <= |levels|
  {
    if k == 0 then r.index == -1 && r.addr in targets
    else 0 <= r.index < |levels[k - 1]| && r.addr == levels[k - 1][r.index].address
  }

  method WantedRefs(targets: seq<u64>, levels: seq<seq<Node>>) returns (refs: seq<TargetRef>)
    ensures SortedBy(refs, RefLe)
    ensures forall r :: r in refs <==> Wanted(r, targets, levels, |levels|)
  {
    var list: seq<TargetRef> := [];
    if levels == [] {
      list := seq(|targets|, i requires 0 <= i < |targets| => TargetRef(targets[i], -1));
      forall r ensures r in list <==> Wanted(r, targets, levels, 0) {
        if r.index == -1 && r.addr in targets {
          var i :| 0 <= i < |targets| && targets[i] == r.addr;
          assert list[i] == r;
        }
      }
    } else {
      var prev := levels[|levels| - 1];
      list := seq(|prev|, i requires 0 <= i < |prev| => TargetRef(prev[i].address, i));
      forall r ensures r in list <==> Wanted(r, targets, levels, |levels|) {
        if Wanted(r, targets, levels, |levels|) {
          assert list[r.index] == r;
        }
      }
    }
    refs := Sort(list, RefLe);
    SameMultisetSameElements(refs, list);
  }

  /** A level over the wanted addresses is the next level of chains. */
  lemma LevelExtends(c: Config, targets: seq<u64>, levels: seq<seq<Node>>, refs: seq<TargetRef>, level: seq<Node>,
                     before: bool, complete: bool)
    requires PointerSize(c.psize) && GoodLevels(c, targets, levels, before) && (complete ==> before)
    requires forall r :: r in refs <==> Wanted(r, targets, levels, |levels|)
    requires IsLevel(c, level, refs, complete)
    ensures GoodLevels(c, targets, levels + [level], complete)
  {
    hide Scanned, Value;
    var all, top := levels + [level], |levels|;
    forall n: Node ensures PointsAt(c, n, refs) && Scanned(c, n.address) <==> IsNode(c, targets, all, top, n) {
      if PointsAt(c, n, refs) && Scanned(c, n.address) {
        var r :| r in refs && Near(Value(c, n.address), r.addr, c.maxOffset)
          && n.offset == r.addr - Value(c, n.address) && n.parent == r.index;
        assert Wanted(r, targets, levels, top);
      }
      if IsNode(c, targets, all, top, n) {
        var next := Value(c, n.address) + n.offset;
        var r := TargetRef(next, n.parent);
        assert Wanted(r, targets, levels, top) && r in refs;
      }
    }
    forall k, n: Node | 0 <= k < top ensures IsNode(c, targets, all, k, n) <==> IsNode(c, targets, levels, k, n) {
    }
  }

  predicate HaveParents(levels: seq<seq<Node>>) {
    forall l, j :: 0 < l < |levels| && 0 <= j < |levels[l]| ==> 0 <= levels[l][j].parent < |levels[l - 1]|
  }

  /** The offsets of the steps below node `idx` of level `level`, including its own. */
  function OffsetsUpTo(levels: seq<seq<Node>>, level: int, idx: int): seq<i64>
    requires -1 <= level < |levels| && (level >= 0 ==> 0 <= idx < |levels[level]|) && HaveParents(levels)
  {
    if level < 0 then [] else OffsetsOf(levels, level, idx)
  }

  lemma OffsetsStep(levels: seq<seq<Node>>, level: nat, idx: nat)
    requires level < |levels| && idx < |levels[level]| && HaveParents(levels)
    ensures level > 0 ==> 0 <= levels[level][idx].parent < |levels[level - 1]|
    ensures OffsetsOf(levels, level, idx)
         == OffsetsUpTo(levels, level - 1, levels[level][idx].parent) + [levels[level][idx].offset]
  {
  }

  /** Follows parents from a node of the last level, filling the offset vector from its far end. */
  method ExtractOffsets(levels: seq<seq<Node>>, i: nat) returns (offsets: seq<i64>)
    requires levels != [] && i < |levels[|levels| - 1]| && HaveParents(levels)
    ensures offsets == OffsetsOf(levels, |levels| - 1, i)
  {
    hide OffsetsOf, HaveParents;
    var idx: int, level: int := i, |levels| - 1;
    offsets := [];
    while level >= 0
      invariant -1 <= level < |levels|
      invariant level >= 0 ==> 0 <= idx < |levels[level]|
      invariant OffsetsOf(levels, |levels| - 1, i) == OffsetsUpTo(levels, level, idx) + offsets
    {
      if idx < 0 || idx >= |levels[level]| {
        assert false;  // the program would skip the node here
      }
      OffsetsStep(levels, level, idx);
      var node := levels[level][idx];
      offsets := [node.offset] + offsets;
      idx := node.parent;
      level := level - 1;
    }
  }

  /** The chains of the last level, one per node, in the order they are written. */
  method ExtractChains(levels: seq<seq<Node>>) returns (chains: seq<Chain>)
    requires levels != [] && HaveParents(levels)
    ensures |chains| == |levels[|levels| - 1]|
    ensures forall i :: 0 <= i < |chains| ==>
      chains[i] == Chain(levels[|levels| - 1][i].address, OffsetsOf(levels, |levels| - 1, i))
  {
    var final := levels[|levels| - 1];
    chains := [];
    for i := 0 to |final|
      invariant |chains| == i
      invariant forall j :: 0 <= j < i ==> chains[j] == Chain(final[j].address, OffsetsOf(levels, |levels| - 1, j))
    {
      var offsets := ExtractOffsets(levels, i);
      chains := chains + [Chain(final[i].address, offsets)];
    }
  }

  /** The targets as typed in: tags dropped, zeros and repetitions left out, sorted. */
  method NormalizeTargets(raw: seq<u64>, psize: nat) returns (targets: seq<u64>)
    ensures forall t :: t in targets <==> t != 0 && exists r :: r in raw && t == (if psize == 8 then StripTag(r) else r)
    ensures NoDuplicates(targets)
  {
    var list: seq<u64> := [];
    for i := 0 to |raw|
      invariant forall t :: t in list <==>
        t != 0 && exists r :: r in raw[..i] && t == (if psize == 8 then StripTag(r) else r)
      invariant NoDuplicates(list)
    {
      assert raw[..i + 1] == raw[..i] + [raw[i]];
      var value := if psize == 8 then StripTag(raw[i]) else raw[i];
      ghost var before := list;
      if value != 0 && value !in list {
        list := list + [value];
      }
      forall t ensures t in list <==>
        t != 0 && exists r :: r in raw[..i + 1] && t == (if psize == 8 then StripTag(r) else r) {
        assert raw[i] in raw[..i + 1];
        assert t in list <==> t in before || (t == value && t != 0);
      }
    }
    assert raw[..|raw|] == raw;
    targets := Sort(list, (a: u64, b: u64) => a <= b);
    SameMultisetSameElements(targets, list);
    forall i, j | 0 <= i < j < |targets| ensures targets[i] != targets[j] {
      SortedNoDuplicates(list, targets);
    }
  }

  lemma SortedNoDuplicates(a: seq<u64>, b: seq<u64>)
    requires NoDuplicates(a) && multiset(a) == multiset(b)
    ensures NoDuplicates(b)
  {
    forall i, j | 0 <= i < j < |b| ensures b[i] != b[j] {
      if b[i] == b[j] {
        assert b == b[..i] + [b[i]] + b[i + 1..j] + [b[j]] + b[j + 1..];
        assert multiset(b)[b[i]] >= 2;
        CountAtMostOne(a, b[i]);
      }
    }
  }

  lemma {:induction false} CountAtMostOne(a: seq<u64>, x: u64)
    requires NoDuplicates(a)
    ensures multiset(a)[x] <= 1
  {
    if a != [] {
      assert a == [a[0]] + a[1..];
      CountAtMostOne(a[1..], x);
      if a[0] == x { assert x !in a[1..]; }
    }
  }

  ghost predicate Complete(c: Config, targets: seq<u64>, chains: seq<Chain>, depth: nat)
    requires PointerSize(c.psize)
  {
    forall ch: Chain :: |ch.offsets| == depth && Leads(c, targets, ch.base, ch.offsets) ==> ch in chains
  }

  /** How a scan ends: a file was written, the form was not filled in sensibly, or why there is no file. */
  datatype Ending = Written | Refused | ReadFailed | LimitReached | NothingFound

  /** No chain of this length is there to be found. */
  ghost predicate NoChains(c: Config, targets: seq<u64>, depth: nat)
    requires PointerSize(c.psize)
  {
    forall ch: Chain :: |ch.offsets| == depth ==> !Leads(c, targets, ch.base, ch.offsets)
  }

  /** The front of a chain is a chain, so where there are no short ones there are no long ones. */
  lemma {:induction false} LongerChains(c: Config, targets: seq<u64>, a: nat, offsets: seq<i64>, k: nat)
    returns (b: nat)
    requires PointerSize(c.psize) && 0 < k <= |offsets| && Leads(c, targets, a, offsets)
    ensures Leads(c, targets, b, offsets[..k])
    decreases |offsets|
  {
    if k == |offsets| {
      assert offsets[..k] == offsets;
      b := a;
    } else {
      var init := offsets[..|offsets| - 1];
      b := LongerChains(c, targets, Value(c, a) + offsets[|offsets| - 1], init, k);
      assert init[..k] == offsets[..k];
    }
  }

  /** A complete level that is empty ends every chain. */
  lemma EmptyLevel(c: Config, targets: seq<u64>, levels: seq<seq<Node>>, depth: nat)
    requires PointerSize(c.psize) && GoodConfig(c) && GoodLevels(c, targets, levels, true) && HaveParents(levels)
    requires levels != [] && levels[|levels| - 1] == [] && |levels| <= depth
    ensures NoChains(c, targets, depth)
  {
    hide Leads, Scanned, GoodLevels, GoodConfig;
    var k := |levels|;
    forall ch: Chain | |ch.offsets| == depth ensures !Leads(c, targets, ch.base, ch.offsets) {
      if Leads(c, targets, ch.base, ch.offsets) {
        var b := LongerChains(c, targets, ch.base, ch.offsets, k);
        forall b: nat | Scanned(c, b) ensures b < TAG_LIMIT { SlotIsAddress(c, b); }
        LeadsFromScanned(c, targets, b, ch.offsets[..k]);
        var i := ChainHasNode(c, targets, levels, k - 1, b, ch.offsets[..k]);
        assert false;
      }
    }
  }

  // ----- the result in terms of memory and slots alone

  /** The slots of the selected regions, or of the index. */
  ghost function RegionSlots(ranges: seq<Range>, psize: nat, byteStep: bool): iset<nat>
    requires PointerSize(psize)
  {
    iset a: nat | SlotIn(ranges, a, psize, byteStep)
  }

  ghost function IndexSlots(index: seq<Entry>): iset<nat> { iset e | e in index :: e.address as nat }

  /** A chain in file order over the given slots of this memory that ends in a target. */
  ghost predicate ChainOver(mem: Memory, psize: nat, maxOffset: u64, targets: seq<u64>, slots: iset<nat>, a: nat,
                            offsets: seq<i64>)
    requires PointerSize(psize)
    decreases |offsets|
  {
    && offsets != [] && a in slots && SlotValue(mem, a, psize) != 0 && Reach(offsets[|offsets| - 1], maxOffset)
    && var next := SlotValue(mem, a, psize) + offsets[|offsets| - 1];
      if |offsets| == 1 then next in targets
      else next >= 0 && ChainOver(mem, psize, maxOffset, targets, slots, next, offsets[..|offsets| - 1])
  }

  /** The list has chains only, each once, and all of them if reading was complete. */
  ghost predicate Reports(mem: Memory, psize: nat, maxOffset: u64, targets: seq<u64>, slots: iset<nat>, depth: nat,
                          chains: seq<Chain>, complete: bool)
    requires PointerSize(psize)
  {
    && NoDuplicates(chains)
    && (forall ch :: ch in chains ==>
      |ch.offsets| == depth && ChainOver(mem, psize, maxOffset, targets, slots, ch.base, ch.offsets))
    && (complete ==> forall ch: Chain ::
        |ch.offsets| == depth && ChainOver(mem, psize, maxOffset, targets, slots, ch.base, ch.offsets) ==> ch in chains)
  }

  lemma {:induction false} LeadsIsChainOver(c: Config, targets: seq<u64>, slots: iset<nat>, a: nat, offsets: seq<i64>)
    requires PointerSize(c.psize) && forall x: nat :: Scanned(c, x) <==> x in slots
    ensures Leads(c, targets, a, offsets) <==> ChainOver(c.mem, c.psize, c.maxOffset, targets, slots, a, offsets)
    decreases |offsets|
  {
    hide Scanned, SlotValue;
    if |offsets| > 1 && Value(c, a) + offsets[|offsets| - 1] >= 0 {
      LeadsIsChainOver(c, targets, slots, Value(c, a) + offsets[|offsets| - 1], offsets[..|offsets| - 1]);
    }
  }

  /** Slots that hold null make no difference to the chains. */
  lemma {:induction false} SameSlotsSameChains(mem: Memory, psize: nat, maxOffset: u64, targets: seq<u64>, s: iset<nat>,
                                               t: iset<nat>, a: nat, offsets: seq<i64>)
    requires PointerSize(psize) && forall x: nat :: SlotValue(mem, x, psize) != 0 ==> (x in s <==> x in t)
    ensures ChainOver(mem, psize, maxOffset, targets, s, a, offsets) <==>
      ChainOver(mem, psize, maxOffset, targets, t, a, offsets)
    decreases |offsets|
  {
    hide SlotValue;
    if |offsets| > 1 && SlotValue(mem, a, psize) + offsets[|offsets| - 1] >= 0 {
      SameSlotsSameChains(mem, psize, maxOffset, targets, s, t, SlotValue(mem, a, psize) + offsets[|offsets| - 1],
        offsets[..|offsets| - 1]);
    }
  }

  /** A slot of one and not of the other, holding a pointer, begins a chain there alone: to the address it holds. */
  lemma ExtraSlotAddsChain(mem: Memory, psize: nat, maxOffset: u64, s: iset<nat>, t: iset<nat>, a: nat)
    requires PointerSize(psize) && SlotValue(mem, a, psize) != 0 && a in s && a !in t
    ensures ChainOver(mem, psize, maxOffset, [SlotValue(mem, a, psize)], s, a, [0])
    ensures !ChainOver(mem, psize, maxOffset, [SlotValue(mem, a, psize)], t, a, [0])
  {
    hide SlotValue;
  }

  /**
   An index over `s` gives the chains of the slots `t`, whatever is looked for, if and only if they differ in empty
   slots only.
   */
  lemma SameChainsIff(mem: Memory, psize: nat, maxOffset: u64, s: iset<nat>, t: iset<nat>)
    requires PointerSize(psize)
    ensures (forall targets, a, offsets ::
        ChainOver(mem, psize, maxOffset, targets, s, a, offsets) <==>
          ChainOver(mem, psize, maxOffset, targets, t, a, offsets))
      <==> forall x: nat :: SlotValue(mem, x, psize) != 0 ==> (x in s <==> x in t)
  {
    hide SlotValue, ChainOver;
    if forall x: nat :: SlotValue(mem, x, psize) != 0 ==> (x in s <==> x in t) {
      forall targets, a, offsets
        ensures ChainOver(mem, psize, maxOffset, targets, s, a, offsets) <==>
          ChainOver(mem, psize, maxOffset, targets, t, a, offsets)
      {
        SameSlotsSameChains(mem, psize, maxOffset, targets, s, t, a, offsets);
      }
    } else {
      var x: nat :| SlotValue(mem, x, psize) != 0 && !(x in s <==> x in t);
      if x in s {
        ExtraSlotAddsChain(mem, psize, maxOffset, s, t, x);
      } else {
        ExtraSlotAddsChain(mem, psize, maxOffset, t, s, x);
      }
    }
  }

  lemma LeadsReports(c: Config, targets: seq<u64>, slots: iset<nat>, depth: nat, chains: seq<Chain>, complete: bool)
    requires PointerSize(c.psize) && forall x: nat :: Scanned(c, x) <==> x in slots
    requires NoDuplicates(chains) && forall ch :: ch in chains ==>
      |ch.offsets| == depth && Leads(c, targets, ch.base, ch.offsets)
    requires complete ==> Complete(c, targets, chains, depth)
    ensures Reports(c.mem, c.psize, c.maxOffset, targets, slots, depth, chains, complete)
  {
    hide Leads, ChainOver, Scanned;
    forall ch: Chain ensures Leads(c, targets, ch.base, ch.offsets) <==>
      ChainOver(c.mem, c.psize, c.maxOffset, targets, slots, ch.base, ch.offsets)
    {
      LeadsIsChainOver(c, targets, slots, ch.base, ch.offsets);
    }
  }

  /** What is scanned, said without tasks: an aligned region's slots, or the addresses of the index. */
  lemma ScannedSlots(c: Config, ranges: seq<Range>, a: nat)
    requires GoodConfig(c) && c.tasks == TasksOf(ranges, c.psize, c.byteStep)
      && AlignedRanges(ranges, c.psize, c.byteStep)
    ensures Scanned(c, a) <==> a in (if c.index.Some? then IndexSlots(c.index.value)
      else RegionSlots(ranges, c.psize, c.byteStep))
  {
    hide TaskSlots, SlotIn, TasksOf;
    if c.index.None? { TasksVisitSlots(ranges, c.psize, c.byteStep, a); }
  }

  // ----- the levels

  ghost predicate WantedList(refs: seq<TargetRef>, targets: seq<u64>, levels: seq<seq<Node>>) {
    SortedBy(refs, RefLe) && forall r :: r in refs <==> Wanted(r, targets, levels, |levels|)
  }

  /** Whether the nodes there are for these wanted addresses reach the limit. */
  ghost predicate Counted(c: Config, refs: seq<TargetRef>, limit: nat, reached: bool)
    requires GoodConfig(c)
  {
    if c.index.None? then |NodesOfTasks(c, refs)| >= limit <==> reached
    else
      exists entries :: Looks(c, entries) && NoDuplicates(entries) &&
        (|NodesOfRefs(entries, refs, c.maxOffset, |refs|)| >= limit <==> reached)
  }

  /** One wanted list for each level built, and one more if building stopped at the limit. */
  ghost predicate Tried(c: Config, targets: seq<u64>, levels: seq<seq<Node>>, tried: seq<seq<TargetRef>>, limit: nat,
                        complete: bool)
    requires GoodConfig(c)
  {
    && |levels| <= |tried| && (forall k :: 0 <= k < |levels| ==> WantedList(tried[k], targets, levels[..k]))
    && (complete ==> forall k :: 0 <= k < |levels| ==> Counted(c, tried[k], limit, false))
  }

  method BuildLevel(c: Config, entries: seq<Entry>, refs: seq<TargetRef>, threads: nat, limit: nat)
    returns (stop: Stop, complete: bool, level: seq<Node>, ghost prompt: bool)
    requires GoodConfig(c) && SortedBy(refs, RefLe) && threads > 0
    requires c.index.Some? ==> Looks(c, entries) && NoDuplicates(entries)
    ensures stop == Found ==> IsLevel(c, level, refs, complete)
    ensures stop == Unreadable ==> c.strict && !complete
    ensures stop == Found && (c.strict || c.index.Some?) ==> complete
    ensures stop == TooMany ==> Counted(c, refs, limit, true)
    ensures stop == Found && complete ==> Counted(c, refs, limit, false)
    ensures ReadBy(c, threads, complete, prompt)
  {
    hide IsLevel, Looks, NodesOfRefs, NodesOfTasks, CutFor, Assigned;
    if c.index.Some? {
      complete, prompt := true, true;
      stop, level := LevelFromIndex(c, entries, refs, threads, limit);
    } else {
      ghost var owners;
      stop, complete, level, owners, prompt := LevelFromMemory(c, refs, threads, limit);
    }
  }

  /** Level after level until the depth is reached, a level is empty, or building one stops. */
  method BuildLevels(c: Config, entries: seq<Entry>, targets: seq<u64>, depth: nat, threads: nat, limit: nat)
    returns (stop: Stop, levels: seq<seq<Node>>, complete: bool, ghost tried: seq<seq<TargetRef>>, ghost prompt: bool)
    requires GoodConfig(c) && threads > 0 && depth > 0
    requires c.index.Some? ==> Looks(c, entries) && NoDuplicates(entries)
    ensures GoodLevels(c, targets, levels, complete && stop == Found) && HaveParents(levels)
    ensures stop == Found ==> levels != [] && |levels| <= depth && (|levels| == depth || levels[|levels| - 1] == [])
    ensures stop == Found && (c.strict || c.index.Some?) ==> complete
    ensures stop == Unreadable ==> c.strict && !complete
    ensures Tried(c, targets, levels, tried, limit, complete)
    ensures stop == TooMany ==>
      |tried| == |levels| + 1 && WantedList(tried[|levels|], targets, levels)
        && Counted(c, tried[|levels|], limit, true)
    ensures ReadBy(c, threads, complete, prompt)
  {
    hide IsLevel, Looks, GoodLevels, Counted, HaveParents, ReadBy;
    levels, complete, tried, stop, prompt := [], true, [], Found, true;
    NoLevels(c, targets);
    ParentsExist(c, targets, levels, complete);
    while |levels| < depth && (levels == [] || levels[|levels| - 1] != [])
      invariant |levels| == |tried| <= depth && stop == Found
      invariant GoodLevels(c, targets, levels, complete) && HaveParents(levels)
      invariant c.strict || c.index.Some? ==> complete
      invariant Tried(c, targets, levels, tried, limit, complete)
      invariant if levels == [] then complete && prompt else ReadBy(c, threads, complete, prompt)
      decreases depth - |levels|
    {
      var refs := WantedRefs(targets, levels);
      var all, level;
      ghost var quick;
      stop, all, level, quick := BuildLevel(c, entries, refs, threads, limit);
      ReadByBoth(c, threads, complete, prompt, all, quick);
      prompt := prompt && quick;
      ghost var before := levels;
      tried := tried + [refs];
      assert levels[..|levels|] == levels;
      if stop != Found {
        WeakenLevels(c, targets, levels, complete);
        complete := complete && all;
        return;
      }
      LevelWeaken(c, level, refs, all, complete && all);
      LevelExtends(c, targets, levels, refs, level, complete, complete && all);
      levels, complete := levels + [level], complete && all;
      ParentsExist(c, targets, levels, complete);
      assert forall k :: 0 <= k <= |before| ==> levels[..k] == before[..k];
    }
  }

  /** Two levels read: both complete, or not all is. */
  lemma ReadByBoth(c: Config, threads: nat, complete: bool, prompt: bool, all: bool, quick: bool)
    requires GoodConfig(c) && ReadBy(c, threads, all, quick)
    requires (complete && prompt) || ReadBy(c, threads, complete, prompt)
    ensures ReadBy(c, threads, complete && all, prompt && quick)
  {
    hide CutFor, Assigned;
  }

  lemma WeakenLevels(c: Config, targets: seq<u64>, levels: seq<seq<Node>>, complete: bool)
    requires PointerSize(c.psize) && GoodLevels(c, targets, levels, complete)
    ensures GoodLevels(c, targets, levels, false)
  {
  }

  /** What an ending says about the chains of configuration `c`. */
  ghost predicate Rightly(c: Config, targets: seq<u64>, depth: nat, ending: Ending, data: seq<byte>, written: nat,
                          chains: seq<Chain>, complete: bool)
    requires GoodConfig(c)
  {
    && (ending == Written ==>
      && Stream(data, 0, depth, CountField(written)) == Some(chains) && written == |chains| > 0
      && NoDuplicates(chains) && (forall i, j :: 0 <= i < j < |chains| ==> chains[i].base <= chains[j].base)
      && (forall ch :: ch in chains ==> |ch.offsets| == depth && Leads(c, targets, ch.base, ch.offsets))
      && (complete ==> Complete(c, targets, chains, depth)))
    && (ending == NothingFound && complete ==> NoChains(c, targets, depth))
    && (ending == ReadFailed ==> c.strict && !complete)
    && (ending != ReadFailed && (c.strict || c.index.Some?) ==> ending == LimitReached || complete)
  }

  /** Where the scan stood with its levels and what it looked for, in particular when it stopped at the limit. */
  ghost predicate StoppedRightly(c: Config, targets: seq<u64>, limit: nat, ending: Ending, complete: bool,
                                 levels: seq<seq<Node>>, tried: seq<seq<TargetRef>>)
    requires GoodConfig(c)
  {
    && GoodLevels(c, targets, levels, complete && ending != LimitReached && ending != ReadFailed)
    && Tried(c, targets, levels, tried, limit, complete)
    && (ending == LimitReached ==>
      |tried| == |levels| + 1 && WantedList(tried[|levels|], targets, levels)
        && Counted(c, tried[|levels|], limit, true))
  }

  /** The same in terms of slots: the chains written are those there are, and there are none if none were found. */
  ghost predicate RightlyOver(c: Config, slots: iset<nat>, targets: seq<u64>, depth: nat, ending: Ending,
                              chains: seq<Chain>, complete: bool)
    requires GoodConfig(c)
  {
    && (ending == Written ==> Reports(c.mem, c.psize, c.maxOffset, targets, slots, depth, chains, complete))
    && (ending == NothingFound && complete ==> Reports(c.mem, c.psize, c.maxOffset, targets, slots, depth, [], true))
  }

  /** The levels, and what is written about them. */
  method ScanWith(c: Config, entries: seq<Entry>, targets: seq<u64>, depth: nat, threads: nat, limit: nat)
    returns (ending: Ending, data: seq<byte>, written: nat, chains: seq<Chain>, complete: bool,
             ghost levels: seq<seq<Node>>, ghost tried: seq<seq<TargetRef>>, ghost prompt: bool)
    requires GoodConfig(c) && threads > 0 && depth > 0
    requires c.index.Some? ==> Looks(c, entries) && NoDuplicates(entries)
    ensures ending != Refused && (ending != Written ==> data == [] && written == 0 && chains == [])
    ensures Rightly(c, targets, depth, ending, data, written, chains, complete)
    ensures StoppedRightly(c, targets, limit, ending, complete, levels, tried)
    ensures ReadBy(c, threads, complete, prompt)
  {
    hide Leads, Stream, EncodeChains, GoodLevels, Complete, NoChains, Tried, Counted, HaveParents, Looks, WantedList,
      ReadBy;
    data, written, chains := [], 0, [];
    var stop, built;
    stop, built, complete, tried, prompt := BuildLevels(c, entries, targets, depth, threads, limit);
    levels := built;
    if stop != Found {
      WeakenLevels(c, targets, levels, complete && stop == Found);
      ending := if stop == Unreadable then ReadFailed else LimitReached;
      return;
    }
    if built[|built| - 1] == [] {
      ending := NothingFound;
      if complete { EmptyLevel(c, targets, built, depth); }
      return;
    }
    chains := ExtractChains(built);
    data, written := WriteChains(chains);
    ChainsMeanLevels(c, targets, built, complete, chains);
    ChainsRoundTrip(chains, 0, depth);
    ending := Written;
  }

  /**
   The scan. `index`, when used, replaces reading the process. A successful scan has written each
   chain it reports exactly once, every one leads to a target, and no chain is missing unless some
   read failed, which in strict mode makes the scan fail. A scan that found nothing, with every read
   complete, is right that there is nothing; one that stopped at the limit had reached it.
   */
  method RunPointerScan(mem: Memory, ranges: seq<Range>, raw: seq<u64>, depthSetting: int, maxOffset: i64, psize: nat,
                        byteStep: bool, strict: bool, useIndex: bool, index: seq<Entry>, threads: nat, limit: nat)
    returns (ending: Ending, data: seq<byte>, written: nat, chains: seq<Chain>, targets: seq<u64>, complete: bool,
             ghost levels: seq<seq<Node>>, ghost tried: seq<seq<TargetRef>>, ghost prompt: bool)
    requires PointerSize(psize) && threads > 0 && forall i :: 0 <= i < |ranges| ==> ranges[i].end <= TAG_LIMIT
    requires useIndex ==> TrueEntries(mem, psize, index)
    ensures forall t :: t in targets <==> t != 0 && exists r :: r in raw && t == (if psize == 8 then StripTag(r) else r)
    ensures ending != Written ==> data == [] && written == 0 && chains == []
    ensures ending == Refused <==>
        depthSetting < 1 || targets == [] || |targets| > 2000 || (byteStep && !strict)
        || forall r :: r in ranges ==> r.end <= r.start
    ensures ending != Refused ==>
      var c := ScanConfig(mem, ranges, maxOffset, psize, byteStep, strict, useIndex, index);
      var depth := if depthSetting < 50 then depthSetting else 50;
      && GoodConfig(c) && Rightly(c, targets, depth, ending, data, written, chains, complete)
      && StoppedRightly(c, targets, limit, ending, complete, levels, tried) && ReadBy(c, threads, complete, prompt)
      && (AlignedRanges(ranges, psize, byteStep) ==>
        RightlyOver(c, SlotsOf(ranges, psize, byteStep, useIndex, index), targets, depth, ending, chains, complete))
  {
    hide Rightly, StoppedRightly, RightlyOver, AlignedRanges, TasksOf, ReadBy;
    ending, data, written, chains, complete, levels, tried, prompt := Refused, [], 0, [], true, [], [], true;
    targets := NormalizeTargets(raw, psize);
    var depth: int := if depthSetting > MAX_DEPTH then MAX_DEPTH else depthSetting;
    if depth < 1 || targets == [] || |targets| > MAX_TARGETS || (byteStep && !strict) {
      return;
    }
    var tasks := CutTasks(ranges, psize, byteStep);
    TasksAreGood(ranges, psize, byteStep);
    NoTasksIff(ranges, psize, byteStep);
    if tasks == [] {
      return;
    }
    var lookup := useIndex && index != [];
    var c := Config(mem, psize, byteStep, strict, Abs(maxOffset), tasks, if lookup then Some(index) else None);
    var entries := [];
    if lookup {
      entries := SortIndex(index);
    }
    ending, data, written, chains, complete, levels, tried, prompt :=
      ScanWith(c, entries, targets, depth, threads, limit);
    if AlignedRanges(ranges, psize, byteStep) {
      OverSlots(c, ranges, targets, depth, ending, data, written, chains, complete);
    }
  }

  /**
   A strict scan whose regions hold more whole 8 MiB than two for each thread never succeeds: some thread hastens until
   it asks for more than the agent returns.
   */
  lemma LongStrictScanFails(c: Config, ranges: seq<Range>, targets: seq<u64>, depth: nat, ending: Ending,
                            data: seq<byte>, written: nat, chains: seq<Chain>, complete: bool, prompt: bool,
                            threads: nat)
    requires GoodConfig(c) && c.tasks == TasksOf(ranges, c.psize, c.byteStep)
      && AlignedRanges(ranges, c.psize, c.byteStep)
    requires Rightly(c, targets, depth, ending, data, written, chains, complete) && ReadBy(c, threads, complete, prompt)
    requires c.index.None? && WholePiecesOf(ranges) > 2 * threads
    ensures !complete && (c.strict ==> ending == ReadFailed || ending == LimitReached)
  {
    hide Leads, Complete, NoChains, Stream, ReadBy, AlignedRanges, TasksOf, PerRead, Longs, Loads;
    LongTasksOf(ranges, c.psize, c.byteStep);
    LongScanIsIncomplete(c, threads, complete, prompt);
  }

  ghost function SlotsOf(ranges: seq<Range>, psize: nat, byteStep: bool, useIndex: bool, index: seq<Entry>): iset<nat>
    requires PointerSize(psize)
  {
    if useIndex && index != [] then IndexSlots(index) else RegionSlots(ranges, psize, byteStep)
  }

  lemma OverSlots(c: Config, ranges: seq<Range>, targets: seq<u64>, depth: nat, ending: Ending, data: seq<byte>,
                  written: nat, chains: seq<Chain>, complete: bool)
    requires GoodConfig(c) && c.tasks == TasksOf(ranges, c.psize, c.byteStep)
      && AlignedRanges(ranges, c.psize, c.byteStep)
    requires Rightly(c, targets, depth, ending, data, written, chains, complete)
    ensures var slots := if c.index.Some? then IndexSlots(c.index.value) else RegionSlots(ranges, c.psize, c.byteStep);
      RightlyOver(c, slots, targets, depth, ending, chains, complete)
  {
    hide Leads, Complete, NoChains, Reports, Stream, TasksOf, AlignedRanges, IndexSlots, RegionSlots;
    if ending == Written { ChainsReported(c, ranges, targets, depth, chains, complete); }
    if ending == NothingFound && complete { NothingReported(c, ranges, targets, depth); }
  }

  function ScanConfig(mem: Memory, ranges: seq<Range>, maxOffset: i64, psize: nat, byteStep: bool, strict: bool,
                      useIndex: bool, index: seq<Entry>): Config
  {
    Config(mem, psize, byteStep, strict, Abs(maxOffset), TasksOf(ranges, psize, byteStep),
           if useIndex && index != [] then Some(index) else None)
  }

  /** The index as it is used: sorted and without repetitions. */
  method SortIndex(index: seq<Entry>) returns (entries: seq<Entry>)
    ensures SortedBy(entries, EntryLe) && NoDuplicates(entries) && SameElements(entries, index)
  {
    EntryOrder();
    var sorted := Sort(index, EntryLe);
    SameMultisetSameElements(sorted, index);
    entries := Unique(sorted, EntryLe);
  }

  lemma ChainsReported(c: Config, ranges: seq<Range>, targets: seq<u64>, depth: nat, chains: seq<Chain>, complete: bool)
    requires GoodConfig(c) && c.tasks == TasksOf(ranges, c.psize, c.byteStep)
      && AlignedRanges(ranges, c.psize, c.byteStep)
    requires NoDuplicates(chains) && forall ch :: ch in chains ==>
      |ch.offsets| == depth && Leads(c, targets, ch.base, ch.offsets)
    requires complete ==> Complete(c, targets, chains, depth)
    ensures var slots := if c.index.Some? then IndexSlots(c.index.value) else RegionSlots(ranges, c.psize, c.byteStep);
      Reports(c.mem, c.psize, c.maxOffset, targets, slots, depth, chains, complete)
  {
    hide Scanned, Leads, Complete, Reports, TasksOf, AlignedRanges, IndexSlots, RegionSlots;
    var slots := if c.index.Some? then IndexSlots(c.index.value) else RegionSlots(ranges, c.psize, c.byteStep);
    forall a: nat ensures Scanned(c, a) <==> a in slots { ScannedSlots(c, ranges, a); }
    LeadsReports(c, targets, slots, depth, chains, complete);
  }

  lemma NothingReported(c: Config, ranges: seq<Range>, targets: seq<u64>, depth: nat)
    requires GoodConfig(c) && c.tasks == TasksOf(ranges, c.psize, c.byteStep)
      && AlignedRanges(ranges, c.psize, c.byteStep)
    requires NoChains(c, targets, depth)
    ensures var slots := if c.index.Some? then IndexSlots(c.index.value) else RegionSlots(ranges, c.psize, c.byteStep);
      Reports(c.mem, c.psize, c.maxOffset, targets, slots, depth, [], true)
  {
    hide Leads, Reports, TasksOf, AlignedRanges, IndexSlots, RegionSlots;
    ChainsReported(c, ranges, targets, depth, [], true);
  }

  lemma NoLevels(c: Config, targets: seq<u64>)
    requires PointerSize(c.psize)
    ensures GoodLevels(c, targets, [], true)
  {
  }

  lemma LevelWeaken(c: Config, level: seq<Node>, refs: seq<TargetRef>, complete: bool, weaker: bool)
    requires PointerSize(c.psize) && IsLevel(c, level, refs, complete) && (weaker ==> complete)
    ensures IsLevel(c, level, refs, weaker)
  {
  }

  lemma TasksAreGood(ranges: seq<Range>, psize: nat, byteStep: bool)
    requires PointerSize(psize) && forall i :: 0 <= i < |ranges| ==> ranges[i].end <= TAG_LIMIT
    ensures forall t :: t in TasksOf(ranges, psize, byteStep) ==> GoodTask(t, byteStep)
  {
    var f := (r: Range) => TasksFrom(r, r.start, Overlap(psize, byteStep));
    forall t | t in TasksOf(ranges, psize, byteStep) ensures GoodTask(t, byteStep) {
      CollectMember(ranges, f, t);
      var r :| r in ranges && t in f(r);
      TasksFromGood(r, r.start, psize, byteStep);
    }
  }

  lemma NoTasksIff(ranges: seq<Range>, psize: nat, byteStep: bool)
    ensures TasksOf(ranges, psize, byteStep) == [] <==> forall r :: r in ranges ==> r.end <= r.start
  {
    var f := (r: Range) => TasksFrom(r, r.start, Overlap(psize, byteStep));
    if forall r :: r in ranges ==> r.end <= r.start {
      CollectNone(ranges, f);
    } else {
      var r :| r in ranges && r.end > r.start;
      var t := f(r)[0];
      CollectMember(ranges, f, t);
      assert t in f(r);
    }
  }

  /** The chains read off good levels are exactly the chains there are, each once. */
  lemma ChainsMeanLevels(c: Config, targets: seq<u64>, levels: seq<seq<Node>>, complete: bool, chains: seq<Chain>)
    requires PointerSize(c.psize) && GoodConfig(c) && GoodLevels(c, targets, levels, complete) && levels != []
    requires HaveParents(levels)
    requires |chains| == |levels[|levels| - 1]|
    requires forall i :: 0 <= i < |chains| ==>
      chains[i] == Chain(levels[|levels| - 1][i].address, OffsetsOf(levels, |levels| - 1, i))
    ensures NoDuplicates(chains) && forall i, j :: 0 <= i < j < |chains| ==> chains[i].base <= chains[j].base
    ensures forall ch :: ch in chains ==> |ch.offsets| == |levels| && Leads(c, targets, ch.base, ch.offsets)
    ensures complete ==> Complete(c, targets, chains, |levels|)
  {
    hide Leads, Scanned, GoodLevels, GoodConfig;
    var k := |levels| - 1;
    LastLevelSorted(c, targets, levels, complete);
    forall i, j | 0 <= i < j < |chains| ensures chains[i] != chains[j] && chains[i].base <= chains[j].base {
      assert NodeLe(levels[k][i], levels[k][j]);
      if chains[i] == chains[j] { ChainHasOneNode(c, targets, levels, complete, k, i, j); }
    }
    forall ch | ch in chains ensures |ch.offsets| == |levels| && Leads(c, targets, ch.base, ch.offsets) {
      var i :| 0 <= i < |chains| && chains[i] == ch;
      NodeLeads(c, targets, levels, complete, k, i);
    }
    if complete {
      forall ch: Chain | |ch.offsets| == |levels| && Leads(c, targets, ch.base, ch.offsets) ensures ch in chains {
        forall b: nat | Scanned(c, b) ensures b < TAG_LIMIT { SlotIsAddress(c, b); }
        LeadsFromScanned(c, targets, ch.base, ch.offsets);
        var i := ChainHasNode(c, targets, levels, k, ch.base, ch.offsets);
        assert chains[i] == ch;
      }
    }
  }

  lemma LastLevelSorted(c: Config, targets: seq<u64>, levels: seq<seq<Node>>, complete: bool)
    requires PointerSize(c.psize) && GoodLevels(c, targets, levels, complete) && levels != []
    ensures SortedBy(levels[|levels| - 1], NodeLe)
  {
  }

  lemma LeadsFromScanned(c: Config, targets: seq<u64>, a: nat, offsets: seq<i64>)
    requires PointerSize(c.psize) && Leads(c, targets, a, offsets)
    ensures Scanned(c, a)
  {
  }
}
