/**
 The index side of a level: the sorted (value, address) pairs are cut into blocks with their least and
 greatest value, and every wanted address looks only at the blocks its window can reach.
 */
module PointerLookup {
  import opened Machine
  import opened Ordering
  import opened Collecting
  import opened PointerIndexFile
  import opened PointerLevels

  const BLOCK_SIZE := 4096

  datatype Block = Block(valueMin: u64, valueMax: u64, start: nat, end: nat)

  function BlockAt(entries: seq<Entry>, i: nat): Block
    requires BLOCK_SIZE * i < |entries|
  {
    var end: nat := Min(|entries|, BLOCK_SIZE * i + BLOCK_SIZE);
    Block(entries[BLOCK_SIZE * i].value, entries[end - 1].value, BLOCK_SIZE * i, end)
  }

  ghost predicate BlocksOf(blocks: seq<Block>, entries: seq<Entry>) {
    && |entries| <= BLOCK_SIZE * |blocks| < |entries| + BLOCK_SIZE
    && forall i :: 0 <= i < |blocks| ==> blocks[i] == BlockAt(entries, i)
  }

  method BuildBlocks(entries: seq<Entry>) returns (blocks: seq<Block>)
    ensures BlocksOf(blocks, entries)
  {
    blocks := [];
    var i := 0;
    while i < |entries|
      invariant i == BLOCK_SIZE * |blocks| < |entries| + BLOCK_SIZE
      invariant forall j :: 0 <= j < |blocks| ==> blocks[j] == BlockAt(entries, j)
    {
      var end := Min(|entries|, i + BLOCK_SIZE);
      blocks := blocks + [Block(entries[i].value, entries[end - 1].value, i, end)];
      i := i + BLOCK_SIZE;
    }
  }

  /** The nodes of the entries from position `k` on. */
  function FoundFrom(entries: seq<Entry>, k: nat, ref: TargetRef, m: u64): seq<Node>
    requires k <= |entries|
  {
    Collect(entries[k..], (e: Entry) => NodeFor(e.value, e.address, ref, m))
  }

  lemma FoundStep(entries: seq<Entry>, k: nat, ref: TargetRef, m: u64)
    requires k < |entries|
    ensures FoundFrom(entries, k, ref, m)
         == NodeFor(entries[k].value, entries[k].address, ref, m) + FoundFrom(entries, k + 1, ref, m)
  {
    assert entries[k..] == [entries[k]] + entries[k + 1..];
    CollectOne(entries[k], entries[k + 1..], (e: Entry) => NodeFor(e.value, e.address, ref, m));
  }

  /** Entries outside the target's window can be passed over. */
  lemma FoundSkip(entries: seq<Entry>, k: nat, l: nat, ref: TargetRef, m: u64)
    requires k <= l <= |entries|
    requires forall i :: k <= i < l ==> !InWindow(entries[i].value, ref.addr, m)
    ensures FoundFrom(entries, k, ref, m) == FoundFrom(entries, l, ref, m)
  {
    var f := (e: Entry) => NodeFor(e.value, e.address, ref, m);
    assert entries[k..] == entries[k..l] + entries[l..];
    CollectSplit(entries[k..l], entries[l..], f);
    forall i | 0 <= i < l - k ensures f(entries[k..l][i]) == [] {
      WindowDecides(entries[k + i].value, entries[k + i].address, ref, m);
      WindowIsDistance(entries[k + i].value, ref.addr, m);
    }
    CollectNone(entries[k..l], f);
  }

  lemma SortedValues(entries: seq<Entry>, i: nat, j: nat)
    requires SortedBy(entries, EntryLe) && i <= j < |entries|
    ensures entries[i].value <= entries[j].value
  {
    assert i == j || EntryLe(entries[i], entries[j]);
  }

  lemma BelowWindow(entries: seq<Entry>, from: nat, to: nat, ref: TargetRef, m: u64)
    requires SortedBy(entries, EntryLe) && from < to <= |entries| && entries[to - 1].value < Low(ref.addr, m)
    ensures FoundFrom(entries, from, ref, m) == FoundFrom(entries, to, ref, m)
  {
    hide EntryLe, Low, High, FoundFrom;
    forall i | from <= i < to ensures !InWindow(entries[i].value, ref.addr, m) {
      SortedValues(entries, i, to - 1);
    }
    FoundSkip(entries, from, to, ref, m);
  }

  lemma AboveWindow(entries: seq<Entry>, from: nat, to: nat, ref: TargetRef, m: u64)
    requires SortedBy(entries, EntryLe) && from <= to <= |entries|
    requires from < to ==> entries[from].value > High(ref.addr, m)
    ensures FoundFrom(entries, from, ref, m) == FoundFrom(entries, to, ref, m)
  {
    hide EntryLe, Low, High, FoundFrom;
    forall i | from <= i < to ensures !InWindow(entries[i].value, ref.addr, m) {
      SortedValues(entries, from, i);
    }
    FoundSkip(entries, from, to, ref, m);
  }

  /** Inside one block: `lower_bound`, then every entry up to the end of the window. */
  method LookupBlock(entries: seq<Entry>, block: Block, ref: TargetRef, m: u64) returns (found: seq<Node>)
    requires SortedBy(entries, EntryLe) && block.start < block.end <= |entries|
    ensures FoundFrom(entries, block.start, ref, m) == found + FoundFrom(entries, block.end, ref, m)
  {
    hide FoundFrom, NodeFor, SafeDiff, EntryLe, Low, High;
    var low, high := Low(ref.addr, m), High(ref.addr, m);
    forall i, j | block.start <= i < j < block.end && entries[j].value < low ensures entries[i].value < low {
      SortedValues(entries, i, j);
    }
    var k := LowerBound(entries, block.start, block.end, (e: Entry) => e.value < low);
    if block.start < k { BelowWindow(entries, block.start, k, ref, m); }
    found := [];
    while k < block.end && entries[k].value <= high
      invariant block.start <= k <= block.end
      invariant forall i :: k <= i < block.end ==> low <= entries[i].value
      invariant FoundFrom(entries, block.start, ref, m) == found + FoundFrom(entries, k, ref, m)
    {
      FoundStep(entries, k, ref, m);
      WindowDecides(entries[k].value, entries[k].address, ref, m);
      WindowIsDistance(entries[k].value, ref.addr, m);
      var diff := SafeDiff(ref.addr, entries[k].value);
      if diff.Some? {
        found := found + [Node(entries[k].address, diff.value, ref.index)];
      }
      k := k + 1;
    }
    AboveWindow(entries, k, block.end, ref, m);
  }

  /** Looks one wanted address up: skipping blocks below the window and stopping above it. */
  method LookupTarget(entries: seq<Entry>, blocks: seq<Block>, ref: TargetRef, m: u64) returns (found: seq<Node>)
    requires SortedBy(entries, EntryLe) && BlocksOf(blocks, entries)
    ensures found == FoundFrom(entries, 0, ref, m)
  {
    hide FoundFrom, EntryLe, Low, High;
    found := [];
    var b := 0;
    NothingLeft(entries, ref, m);
    while b < |blocks|
      invariant b <= |blocks|
      invariant FoundFrom(entries, 0, ref, m) == found + FoundFrom(entries, Min(|entries|, BLOCK_SIZE * b), ref, m)
    {
      var block := blocks[b];
      assert block == BlockAt(entries, b);
      if block.valueMax < Low(ref.addr, m) {
        BelowWindow(entries, block.start, block.end, ref, m);
      } else if block.valueMin > High(ref.addr, m) {
        AboveWindow(entries, block.start, |entries|, ref, m);
        return;
      } else {
        var more := LookupBlock(entries, block, ref, m);
        found := found + more;
      }
      b := b + 1;
    }
  }

  lemma NothingLeft(entries: seq<Entry>, ref: TargetRef, m: u64)
    ensures FoundFrom(entries, |entries|, ref, m) == []
  {
  }
}
