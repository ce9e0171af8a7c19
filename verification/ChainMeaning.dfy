/**
 What the chains of a pointer scan are, hop by hop and byte by byte: the meaning of the scan's result without any of the
 functions it is computed with.
 */
module ChainMeaning {
  import opened Machine
  import opened Grid
  import opened Ordering
  import opened PointerLevels
  import opened PointerTasks
  import opened PointerScan
  import opened PointerFile
  import opened PointerIndexFile
  import opened PointerChains

  /** From slot `a` the chain goes on at `b`: as far from the pointer stored there as the offset says. */
  ghost predicate Hop(mem: Memory, psize: nat, maxOffset: nat, slots: iset<nat>, a: int, offset: i64, b: int)
    requires PointerSize(psize)
  {
    && a >= 0 && a in slots && PointerAt(mem, a, psize) != 0
    && 0 - maxOffset <= offset <= maxOffset && offset > -0x8000_0000_0000_0000
    && b == PointerAt(mem, a, psize) + offset
  }

  /** The places a chain visits, from its base to a target. The offset stored last is applied first. */
  ghost predicate IsPath(mem: Memory, psize: nat, maxOffset: nat, targets: seq<u64>, slots: iset<nat>, hops: seq<int>,
                         offsets: seq<i64>)
    requires PointerSize(psize)
  {
    && |offsets| > 0 && |hops| == |offsets| + 1 && hops[|offsets|] in targets
    && forall i :: 0 <= i < |offsets| ==>
         Hop(mem, psize, maxOffset, slots, hops[i], offsets[|offsets| - 1 - i], hops[i + 1])
  }

  lemma {:induction false} PathOf(mem: Memory, psize: nat, maxOffset: u64, targets: seq<u64>, slots: iset<nat>, a: nat,
                                  offsets: seq<i64>) returns (hops: seq<int>)
    requires PointerSize(psize) && ChainOver(mem, psize, maxOffset, targets, slots, a, offsets)
    ensures IsPath(mem, psize, maxOffset, targets, slots, hops, offsets) && hops[0] == a
    decreases |offsets|
  {
    hide SlotValue, PointerAt;
    SlotValueMeaning(mem, a, psize);
    var n, next := |offsets| - 1, SlotValue(mem, a, psize) + offsets[|offsets| - 1];
    if n == 0 {
      hops := [a as int, next];
    } else {
      var rest := PathOf(mem, psize, maxOffset, targets, slots, next, offsets[..n]);
      hops := [a as int] + rest;
      forall i | 0 <= i < |offsets|
        ensures Hop(mem, psize, maxOffset, slots, hops[i], offsets[|offsets| - 1 - i], hops[i + 1])
      {
        if i > 0 { assert offsets[..n][n - 1 - (i - 1)] == offsets[|offsets| - 1 - i]; }
      }
    }
  }

  lemma {:induction false} PathIsChain(mem: Memory, psize: nat, maxOffset: u64, targets: seq<u64>, slots: iset<nat>,
                                       hops: seq<int>, offsets: seq<i64>)
    requires PointerSize(psize) && IsPath(mem, psize, maxOffset, targets, slots, hops, offsets)
    ensures hops[0] >= 0 && ChainOver(mem, psize, maxOffset, targets, slots, hops[0], offsets)
    decreases |offsets|
  {
    hide SlotValue, PointerAt;
    var n := |offsets| - 1;
    assert Hop(mem, psize, maxOffset, slots, hops[0], offsets[n], hops[1]);
    SlotValueMeaning(mem, hops[0], psize);
    if n > 0 {
      forall i | 0 <= i < n
        ensures Hop(mem, psize, maxOffset, slots, hops[1..][i], offsets[..n][n - 1 - i], hops[1..][i + 1])
      {
        assert Hop(mem, psize, maxOffset, slots, hops[i + 1], offsets[|offsets| - 1 - (i + 1)], hops[i + 2]);
      }
      PathIsChain(mem, psize, maxOffset, targets, slots, hops[1..], offsets[..n]);
    }
  }

  /** A chain is a path from its base to a target. */
  lemma ChainIsPath(mem: Memory, psize: nat, maxOffset: u64, targets: seq<u64>, slots: iset<nat>, a: nat,
                    offsets: seq<i64>)
    requires PointerSize(psize)
    ensures ChainOver(mem, psize, maxOffset, targets, slots, a, offsets) <==>
      exists hops :: IsPath(mem, psize, maxOffset, targets, slots, hops, offsets) && hops[0] == a
  {
    hide ChainOver, Hop;
    if ChainOver(mem, psize, maxOffset, targets, slots, a, offsets) {
      var hops := PathOf(mem, psize, maxOffset, targets, slots, a, offsets);
    }
    if hops :| IsPath(mem, psize, maxOffset, targets, slots, hops, offsets) && hops[0] == a {
      PathIsChain(mem, psize, maxOffset, targets, slots, hops, offsets);
    }
  }

  /** The eight bytes from `x` on agree in both memories, except perhaps the last one. */
  predicate SameButLast(mem: Memory, other: Memory, x: nat) {
    && mem(x) == other(x) && mem(x + 1) == other(x + 1) && mem(x + 2) == other(x + 2) && mem(x + 3) == other(x + 3)
    && mem(x + 4) == other(x + 4) && mem(x + 5) == other(x + 5) && mem(x + 6) == other(x + 6)
  }

  /** The tag in the eighth byte of a slot makes no difference to the chains. */
  lemma TagsDoNotMatter(mem: Memory, other: Memory, maxOffset: u64, targets: seq<u64>, slots: iset<nat>, a: nat,
                        offsets: seq<i64>)
    requires forall x: nat :: x in slots ==> SameButLast(mem, other, x)
    ensures ChainOver(mem, 8, maxOffset, targets, slots, a, offsets) <==>
      ChainOver(other, 8, maxOffset, targets, slots, a, offsets)
  {
    hide IsPath, ChainOver;
    ChainIsPath(mem, 8, maxOffset, targets, slots, a, offsets);
    ChainIsPath(other, 8, maxOffset, targets, slots, a, offsets);
    forall hops ensures IsPath(mem, 8, maxOffset, targets, slots, hops, offsets) <==>
      IsPath(other, 8, maxOffset, targets, slots, hops, offsets)
    {
      SamePath(mem, other, maxOffset, targets, slots, hops, offsets);
    }
  }

  lemma SamePath(mem: Memory, other: Memory, maxOffset: nat, targets: seq<u64>, slots: iset<nat>, hops: seq<int>,
                 offsets: seq<i64>)
    requires forall x: nat :: x in slots ==> SameButLast(mem, other, x)
    ensures IsPath(mem, 8, maxOffset, targets, slots, hops, offsets) <==>
      IsPath(other, 8, maxOffset, targets, slots, hops, offsets)
  {
    forall x: nat | x in slots ensures PointerAt(mem, x, 8) == PointerAt(other, x, 8) {
      assert SameButLast(mem, other, x);
    }
  }

  /** The slots of the selected ranges. */
  lemma RegionSlotsMeaning(ranges: seq<Range>, psize: nat, byteStep: bool, a: nat)
    requires PointerSize(psize)
    ensures a in RegionSlots(ranges, psize, byteStep) <==>
      exists r :: r in ranges && r.start <= a && a + psize <= r.end && (byteStep || a % psize == 0)
  {
    WholeIsMultiple(a, psize);
  }
  // ----- what a scan says

  /** Some path over these slots has this base, these offsets, and ends in a target. */
  ghost predicate LeadsTo(c: Config, slots: iset<nat>, targets: seq<u64>, ch: Chain)
    requires PointerSize(c.psize)
  {
    exists hops :: IsPath(c.mem, c.psize, c.maxOffset, targets, slots, hops, ch.offsets) && hops[0] == ch.base
  }

  lemma LeadsToIs(c: Config, slots: iset<nat>, targets: seq<u64>, ch: Chain)
    requires PointerSize(c.psize)
    ensures LeadsTo(c, slots, targets, ch) <==>
      ChainOver(c.mem, c.psize, c.maxOffset, targets, slots, ch.base, ch.offsets)
  {
    hide IsPath, ChainOver;
    ChainIsPath(c.mem, c.psize, c.maxOffset, targets, slots, ch.base, ch.offsets);
  }

  /** The file a scan wrote lists paths of the depth asked for, each once, and with complete reading all of them. */
  lemma WrittenMeans(c: Config, slots: iset<nat>, targets: seq<u64>, depth: nat, data: seq<byte>, written: nat,
                     chains: seq<Chain>, complete: bool)
    requires GoodConfig(c) && Rightly(c, targets, depth, Written, data, written, chains, complete)
    requires RightlyOver(c, slots, targets, depth, Written, chains, complete)
    ensures written == |chains| > 0 && Stream(data, 0, depth, Some(written)) == Some(chains)
    ensures forall i, j :: 0 <= i < j < |chains| ==> chains[i] != chains[j] && chains[i].base <= chains[j].base
    ensures forall ch :: ch in chains ==> |ch.offsets| == depth && LeadsTo(c, slots, targets, ch)
    ensures complete ==> forall ch: Chain :: |ch.offsets| == depth && LeadsTo(c, slots, targets, ch) ==> ch in chains
    ensures c.strict || c.index.Some? ==> complete
  {
    hide LeadsTo, ChainOver, Stream, Leads, PointerChains.Complete;
    forall ch: Chain ensures LeadsTo(c, slots, targets, ch) <==>
      ChainOver(c.mem, c.psize, c.maxOffset, targets, slots, ch.base, ch.offsets)
    {
      LeadsToIs(c, slots, targets, ch);
    }
  }

  /** A scan that found nothing, with complete reading, is right. */
  lemma NothingFoundMeans(c: Config, slots: iset<nat>, targets: seq<u64>, depth: nat, data: seq<byte>, written: nat,
                          chains: seq<Chain>, complete: bool)
    requires GoodConfig(c) && Rightly(c, targets, depth, NothingFound, data, written, chains, complete)
    requires RightlyOver(c, slots, targets, depth, NothingFound, chains, complete)
    ensures complete ==> forall ch: Chain :: |ch.offsets| == depth ==> !LeadsTo(c, slots, targets, ch)
    ensures c.strict || c.index.Some? ==> complete
  {
    hide LeadsTo, ChainOver, Leads, NoChains;
    forall ch: Chain ensures LeadsTo(c, slots, targets, ch) <==>
      ChainOver(c.mem, c.psize, c.maxOffset, targets, slots, ch.base, ch.offsets)
    {
      LeadsToIs(c, slots, targets, ch);
    }
  }

  /** A scan whose read failed was strict. */
  lemma ReadFailedMeans(c: Config, targets: seq<u64>, depth: nat, data: seq<byte>, written: nat, chains: seq<Chain>,
                        complete: bool)
    requires GoodConfig(c) && Rightly(c, targets, depth, ReadFailed, data, written, chains, complete)
    ensures c.strict && !complete
  {
  }

  /** One that stopped had found as many nodes as allowed around the addresses it looked for, and not before. */
  lemma LimitReachedMeans(c: Config, targets: seq<u64>, limit: nat, complete: bool, levels: seq<seq<Node>>,
                          tried: seq<seq<TargetRef>>, k: nat)
    requires GoodConfig(c) && c.index.None? && k <= |levels|
    requires StoppedRightly(c, targets, limit, LimitReached, complete, levels, tried)
    ensures |tried| == |levels| + 1
    ensures k == |levels| ==> |NodesOfTasks(c, tried[k])| >= limit
    ensures k < |levels| && complete ==> |NodesOfTasks(c, tried[k])| < limit
    ensures forall r :: r in tried[k] <==>
      if k == 0 then r.addr in targets && r.index == -1
      else 0 <= r.index < |levels[k - 1]| && levels[k - 1][r.index].address == r.addr
  {
    assert levels[..|levels|] == levels;
    if k > 0 { assert levels[..k][k - 1] == levels[k - 1]; }
  }

  /** The nodes it had by then: each over a slot whose pointer leads to a target or to a node of the level before. */
  lemma NodesMean(c: Config, targets: seq<u64>, limit: nat, ending: Ending, complete: bool, levels: seq<seq<Node>>,
                  tried: seq<seq<TargetRef>>, k: nat, n: Node)
    requires GoodConfig(c) && StoppedRightly(c, targets, limit, ending, complete, levels, tried)
    requires k < |levels| && n in levels[k]
    ensures PointerAt(c.mem, n.address, c.psize) != 0 && Scanned(c, n.address)
    ensures var next := PointerAt(c.mem, n.address, c.psize) + n.offset;
      if k == 0 then next in targets
      else 0 <= n.parent < |levels[k - 1]| && levels[k - 1][n.parent].address == next
  {
    hide PointerAt, SlotValue, Scanned;
    SlotValueMeaning(c.mem, n.address, c.psize);
    assert IsNode(c, targets, levels, k, n);
  }

  /** With every reply as full as the agent gives, and no schedule that asks for more, reading is complete. */
  lemma PromptMeansComplete(c: Config, threads: nat, complete: bool, prompt: bool)
    requires GoodConfig(c) && c.index.None? && ReadBy(c, threads, complete, prompt)
    ensures complete ==> prompt
    ensures prompt && NeverCut(c, threads) ==> complete
  {
  }
}
