/**
 Following a pointer chain in the live process: the agent's resolver, the two batch filters built on it,
 the client's own walk with its prefix cache, and the offset-first walk behind the pointer-verify form.
 All of them are compared on one frozen memory.
 */
module Resolver {
  import opened Machine
  import opened Ordering

  /** The pointer-sized number stored at an untagged address, if it can be read whole. */
  type Reads = u64 -> Option<u64>

  /** Reading a pointer: the address loses its tag, and so does a 64-bit value. */
  function ReadPointer(read: Reads, psize: nat, addr: u64): Option<u64> {
    match read(StripTag(addr))
    case None => None
    case Some(v) => Some(if psize == 8 then StripTag(v) else v)
  }

  /** Unsigned addition of a signed offset that fails instead of wrapping. */
  function ApplyOffset(ptr: u64, off: i64): Option<u64> {
    if off >= 0 then (if ptr > U64_LIMIT - 1 - off then None else Some(ptr + off))
    else (if ptr + off < 0 then None else Some(ptr + off))
  }

  /** Dereference, then add the next offset; a null pointer or a failed read ends the walk. */
  function Resolve(read: Reads, psize: nat, addr: u64, offsets: seq<i64>): Option<u64>
    decreases |offsets|
  {
    if offsets == [] then Some(addr)
    else match ReadPointer(read, psize, addr)
      case None => None
      case Some(ptr) =>
        if ptr == 0 then None
        else match ApplyOffset(ptr, offsets[0])
          case None => None
          case Some(next) => Resolve(read, psize, next, offsets[1..])
  }

  /** Resolving along a list is resolving along its front and then along the rest. */
  lemma {:induction false} ResolveSplit(read: Reads, psize: nat, addr: u64, a: seq<i64>, b: seq<i64>)
    ensures Resolve(read, psize, addr, a + b) ==
      match Resolve(read, psize, addr, a)
      case None => None
      case Some(mid) => Resolve(read, psize, mid, b)
    decreases |a|
  {
    if a == [] {
      assert a + b == b;
    } else {
      assert (a + b)[1..] == a[1..] + b;
      match ReadPointer(read, psize, addr)
      case None =>
      case Some(ptr) =>
        match ApplyOffset(ptr, a[0])
        case None =>
        case Some(next) => ResolveSplit(read, psize, next, a[1..], b);
    }
  }

  /** A tag on the base makes no difference to a walk that dereferences it. */
  lemma TaggedBase(read: Reads, psize: nat, base: u64, offsets: seq<i64>)
    requires offsets != []
    ensures Resolve(read, psize, StripTag(base), offsets) == Resolve(read, psize, base, offsets)
  {
  }

  /** The agent's resolver. */
  method ResolvePointerChainAfterDeref(read: Reads, psize: nat, base: u64, offsets: seq<i64>)
    returns (r: Option<u64>)
    ensures r == Resolve(read, psize, StripTag(base), offsets)
  {
    hide ReadPointer, ApplyOffset;
    var current := StripTag(base);
    for i := 0 to |offsets|
      invariant Resolve(read, psize, StripTag(base), offsets) == Resolve(read, psize, current, offsets[i..])
    {
      var next := ReadPointer(read, psize, current);
      if next.None? || next.value == 0 {
        return None;
      }
      var moved := ApplyOffset(next.value, offsets[i]);
      if moved.None? {
        return None;
      }
      assert offsets[i..][1..] == offsets[i + 1..];
      current := moved.value;
    }
    return Some(current);
  }

  // ----- batch verification

  /** What the first batch command answers for one chain. */
  function AgentAnswer(read: Reads, psize: nat, c: Chain): Option<u64> {
    if c.offsets == [] then Some(if psize == 8 then StripTag(c.base) else c.base)
    else Resolve(read, psize, StripTag(c.base), c.offsets)
  }

  /** The client keeps a chain when the answer is one of the targets. */
  predicate AcceptedV1(read: Reads, psize: nat, targets: seq<u64>, c: Chain) {
    AgentAnswer(read, psize, c).Some? && AgentAnswer(read, psize, c).value in targets
  }

  function Key(psize: nat, addr: u64): u64 { if psize == 8 then StripTag(addr) else addr }

  /** The second batch command compares on the agent, with tags dropped on both sides. */
  predicate AcceptedV2(read: Reads, psize: nat, targets: seq<u64>, c: Chain) {
    && AgentAnswer(read, psize, c).Some?
    && exists t :: t in targets && Key(psize, t) != 0 && Key(psize, t) == Key(psize, AgentAnswer(read, psize, c).value)
  }

  /** A target list as the client builds it: untagged and without null. */
  ghost predicate CleanTargets(targets: seq<u64>, psize: nat) {
    forall t :: t in targets ==> t != 0 && (psize == 8 ==> t < TAG_LIMIT)
  }

  /**
   The two commands keep the same chains except when the last offset carries a 64-bit result past the
   untagged range: then only the second one still sees a target, through the dropped byte.
   */
  lemma BatchCommandsAgree(read: Reads, psize: nat, targets: seq<u64>, c: Chain)
    requires CleanTargets(targets, psize)
    ensures AcceptedV1(read, psize, targets, c) ==> AcceptedV2(read, psize, targets, c)
    ensures AcceptedV1(read, psize, targets, c) == AcceptedV2(read, psize, targets, c) <==>
      !(psize == 8 && AgentAnswer(read, psize, c).Some? && AgentAnswer(read, psize, c).value >= TAG_LIMIT
        && StripTag(AgentAnswer(read, psize, c).value) in targets)
  {
    hide Resolve;
    var answer := AgentAnswer(read, psize, c);
    if answer.Some? {
      assert forall t :: t in targets ==> Key(psize, t) == t;
      assert answer.value in targets ==> Key(psize, answer.value) == answer.value;
    }
  }

  const MODEST := TAG_LIMIT / 2

  /** Offsets far wider than any scan can write: its limit is a 32-bit integer. */
  predicate Modest(offsets: seq<i64>) { forall i :: 0 <= i < |offsets| ==> -MODEST <= offsets[i] <= MODEST }

  /** The last step of a chain, from a pointer below the limit, cannot cross it and come out on a target. */
  predicate LastStaysBelow(psize: nat, targets: seq<u64>, offsets: seq<i64>)
    requires offsets != []
  {
    psize == 8 ==> forall t :: t in targets ==> offsets[|offsets| - 1] <= t
  }

  /** A walk ends less than one untagged range above its last offset. */
  lemma {:induction false} WalkEndsBelow(read: Reads, addr: u64, offsets: seq<i64>)
    requires offsets != []
    ensures match Resolve(read, 8, addr, offsets)
      case None => true
      case Some(r) => r < TAG_LIMIT + offsets[|offsets| - 1]
    decreases |offsets|
  {
    match ReadPointer(read, 8, addr)
    case None =>
    case Some(ptr) =>
      match ApplyOffset(ptr, offsets[0])
      case None =>
      case Some(next) =>
        if |offsets| == 1 {
          assert offsets[1..] == [];
        } else {
          WalkEndsBelow(read, next, offsets[1..]);
          assert offsets[1..][|offsets| - 2] == offsets[|offsets| - 1];
        }
  }

  /** When every slot holds the same pointer, a walk ends one offset from it. */
  lemma {:induction false} ConstantWalk(ptr: u64, addr: u64, offsets: seq<i64>)
    requires MODEST <= ptr < TAG_LIMIT && offsets != [] && Modest(offsets)
    ensures Resolve(_ => Some(ptr), 8, addr, offsets) == Some(ptr + offsets[|offsets| - 1])
    decreases |offsets|
  {
    var read: Reads := _ => Some(ptr);
    assert ReadPointer(read, 8, addr) == Some(ptr);
    assert ApplyOffset(ptr, offsets[0]) == Some(ptr + offsets[0]);
    if |offsets| == 1 {
      assert offsets[1..] == [];
    } else {
      ConstantWalk(ptr, ptr + offsets[0], offsets[1..]);
      assert offsets[1..][|offsets| - 2] == offsets[|offsets| - 1];
    }
  }

  /** What a caller can check: with the last offset at most every target the commands keep the same chains. */
  lemma LowOffsetsAgree(read: Reads, psize: nat, targets: seq<u64>, c: Chain)
    requires CleanTargets(targets, psize) && c.offsets != [] && LastStaysBelow(psize, targets, c.offsets)
    ensures AcceptedV1(read, psize, targets, c) == AcceptedV2(read, psize, targets, c)
    ensures psize == 8 && AgentAnswer(read, psize, c).Some? && AgentAnswer(read, psize, c).value >= TAG_LIMIT ==>
      StripTag(AgentAnswer(read, psize, c).value) !in targets
  {
    hide Resolve, AcceptedV1, AcceptedV2;
    BatchCommandsAgree(read, psize, targets, c);
    if psize == 8 { WalkEndsBelow(read, StripTag(c.base), c.offsets); }
  }

  /** A memory on which a last offset above some target makes the commands differ. */
  lemma HighOffsetDiffers(targets: seq<u64>, c: Chain, t: u64) returns (read: Reads)
    requires CleanTargets(targets, 8) && c.offsets != [] && Modest(c.offsets)
    requires t in targets && t < c.offsets[|c.offsets| - 1]
    ensures AcceptedV2(read, 8, targets, c) && !AcceptedV1(read, 8, targets, c)
    ensures AgentAnswer(read, 8, c) == Some(TAG_LIMIT + t)
  {
    hide Resolve;
    var ptr: u64 := TAG_LIMIT + t - c.offsets[|c.offsets| - 1];
    read := _ => Some(ptr);
    ConstantWalk(ptr, StripTag(c.base), c.offsets);
    assert AgentAnswer(read, 8, c) == Some(TAG_LIMIT + t);
    assert StripTag(TAG_LIMIT + t) == t && Key(8, t) == t;
  }

  /** The two commands keep the same chain on every memory if and only if its last offset is at most every target. */
  lemma BatchCommandsAgreeIff(psize: nat, targets: seq<u64>, c: Chain)
    requires CleanTargets(targets, psize) && c.offsets != [] && Modest(c.offsets)
    ensures (forall read: Reads :: AcceptedV1(read, psize, targets, c) == AcceptedV2(read, psize, targets, c))
      <==> LastStaysBelow(psize, targets, c.offsets)
  {
    hide AcceptedV1, AcceptedV2, CleanTargets;
    if LastStaysBelow(psize, targets, c.offsets) {
      forall read: Reads ensures AcceptedV1(read, psize, targets, c) == AcceptedV2(read, psize, targets, c) {
        LowOffsetsAgree(read, psize, targets, c);
      }
    } else {
      var t :| t in targets && t < c.offsets[|c.offsets| - 1];
      var read := HighOffsetDiffers(targets, c, t);
    }
  }

  /** What the second command keeps: every chain that resolves, unless targets came with a request to filter by them. */
  predicate KeptByAgent(read: Reads, psize: nat, targets: seq<u64>, filter: bool, c: Chain) {
    if filter && targets != [] then AcceptedV2(read, psize, targets, c) else AgentAnswer(read, psize, c).Some?
  }

  /** The agent's loop over one batch, with its sorted target list and binary search. */
  method VerifyBatchFilter(read: Reads, psize: nat, chains: seq<Chain>, targets: seq<u64>, filter: bool)
    returns (matched: seq<nat>)
    ensures forall k :: 0 <= k < |matched| ==> matched[k] < |chains|
    ensures forall k, l :: 0 <= k < l < |matched| ==> matched[k] < matched[l]
    ensures forall i :: 0 <= i < |chains| ==> (i in matched <==> KeptByAgent(read, psize, targets, filter, chains[i]))
  {
    hide Resolve, StripTag;
    var useFilter := filter && |targets| > 0;
    var list: seq<u64> := [];
    for i := 0 to |targets|
      invariant forall k :: k in list <==> k != 0 && exists t :: t in targets[..i] && Key(psize, t) == k
    {
      assert targets[..i + 1] == targets[..i] + [targets[i]];
      var key := Key(psize, targets[i]);
      ghost var before := list;
      if key != 0 {
        list := list + [key];
      }
      forall k ensures k in list <==> k != 0 && exists t :: t in targets[..i + 1] && Key(psize, t) == k {
        assert targets[i] in targets[..i + 1];
        assert k in list <==> k in before || (k == key && k != 0);
      }
    }
    assert targets[..|targets|] == targets;
    var le := (a: u64, b: u64) => a <= b;
    var sorted := Sort(list, le);
    sorted := UniqueTargets(sorted, list);
    matched := [];
    for i := 0 to |chains|
      invariant forall k :: 0 <= k < |matched| ==> matched[k] < i
      invariant forall k, l :: 0 <= k < l < |matched| ==> matched[k] < matched[l]
      invariant forall j :: 0 <= j < i ==> (j in matched <==> KeptByAgent(read, psize, targets, filter, chains[j]))
    {
      var answer := AgentAnswer(read, psize, chains[i]);
      var hit := answer.Some?;
      if answer.Some? && useFilter {
        hit := BinarySearch(sorted, Key(psize, answer.value));
      }
      ghost var before := matched;
      if hit {
        matched := matched + [i];
      }
      assert forall j :: j in matched <==> j in before || (hit && j == i);
    }
  }

  method UniqueTargets(sorted: seq<u64>, ghost list: seq<u64>) returns (r: seq<u64>)
    requires SortedBy(sorted, (a: u64, b: u64) => a <= b) && multiset(sorted) == multiset(list)
    ensures SortedBy(r, (a: u64, b: u64) => a <= b) && SameElements(r, list)
  {
    SameMultisetSameElements(sorted, list);
    r := Unique(sorted, (a: u64, b: u64) => a <= b);
  }

  method BinarySearch(sorted: seq<u64>, key: u64) returns (found: bool)
    requires SortedBy(sorted, (a: u64, b: u64) => a <= b)
    ensures found <==> key in sorted
  {
    var k := LowerBound(sorted, 0, |sorted|, (x: u64) => x < key);
    found := k < |sorted| && sorted[k] == key;
    if key in sorted {
      var i :| 0 <= i < |sorted| && sorted[i] == key;
      assert k <= i && (k == i || sorted[k] <= sorted[i]);
    }
  }

  // ----- the client's walk and its prefix cache

  const PREFIX := 3
  const CACHE_LIMIT := 200000

  datatype CacheEntry = CacheEntry(ok: bool, addr: u64, next: nat)

  class PrefixCache {
    var entries: map<(u64, seq<i64>), CacheEntry>

    constructor ()
      ensures entries == map[]
    {
      entries := map[];
    }

    /** Every entry says what walking its prefix on this memory gives. */
    ghost predicate Valid(read: Reads, psize: nat)
      reads this
    {
      forall key :: key in entries ==>
        var walked := Resolve(read, psize, key.0, key.1);
        && entries[key].ok == walked.Some?
        && (walked.Some? ==> entries[key].addr == walked.value && entries[key].next == |key.1|)
    }

    /** The chain's first three steps come from the cache when another chain has walked them before. */
    method VerifyChain(read: Reads, psize: nat, c: Chain) returns (r: Option<u64>)
      requires Valid(read, psize)
      modifies this
      ensures Valid(read, psize)
      ensures r == Resolve(read, psize, c.base, c.offsets)
    {
      hide ReadPointer, ApplyOffset;
      if |entries| > CACHE_LIMIT {
        entries := map[];
      }
      var depth := if |c.offsets| < PREFIX then |c.offsets| else PREFIX;
      var addr, start := c.base, 0;
      if depth > 0 {
        var key := (c.base, c.offsets[..depth]);
        assert c.offsets == c.offsets[..depth] + c.offsets[depth..];
        ResolveSplit(read, psize, c.base, c.offsets[..depth], c.offsets[depth..]);
        if key in entries {
          if !entries[key].ok {
            return None;
          }
          addr, start := entries[key].addr, entries[key].next;
        } else {
          var walked := WalkFrom(read, psize, c.base, key.1);
          entries := entries[key := CacheEntry(walked.Some?, if walked.Some? then walked.value else 0, depth)];
          if walked.None? {
            return None;
          }
          addr, start := walked.value, depth;
        }
      } else {
        assert c.offsets[0..] == c.offsets;
      }
      r := WalkFrom(read, psize, addr, c.offsets[start..]);
    }
  }

  method WalkFrom(read: Reads, psize: nat, start: u64, offsets: seq<i64>) returns (r: Option<u64>)
    ensures r == Resolve(read, psize, start, offsets)
  {
    hide ReadPointer, ApplyOffset;
    var addr := start;
    for i := 0 to |offsets|
      invariant Resolve(read, psize, start, offsets) == Resolve(read, psize, addr, offsets[i..])
    {
      var ptr := ReadPointer(read, psize, addr);
      if ptr.None? || ptr.value == 0 {
        return None;
      }
      var moved := ApplyOffset(ptr.value, offsets[i]);
      if moved.None? {
        return None;
      }
      assert offsets[i..][1..] == offsets[i + 1..];
      addr := moved.value;
    }
    return Some(addr);
  }

  // ----- offset first, then dereference

  /** The pointer-verify form reads `[addr + off]` at every step. */
  function WalkBeforeDeref(read: Reads, psize: nat, addr: u64, offsets: seq<i64>): Option<u64>
    decreases |offsets|
  {
    if offsets == [] then Some(addr)
    else match ApplyOffset(addr, offsets[0])
      case None => None
      case Some(slot) =>
        match ReadPointer(read, psize, slot)
        case None => None
        case Some(ptr) => if ptr == 0 then None else WalkBeforeDeref(read, psize, ptr, offsets[1..])
  }

  /** Shifting the base by the first offset and appending a zero turns one walk into the other. */
  lemma {:induction false} ShiftedWalk(read: Reads, psize: nat, base: u64, offsets: seq<i64>)
    requires offsets != []
    ensures WalkBeforeDeref(read, psize, base, offsets) ==
      match ApplyOffset(base, offsets[0])
      case None => None
      case Some(shifted) => Resolve(read, psize, StripTag(shifted), offsets[1..] + [0])
    decreases |offsets|
  {
    match ApplyOffset(base, offsets[0])
    case None =>
    case Some(shifted) =>
      var rest := offsets[1..] + [0];
      TaggedBase(read, psize, shifted, rest);
      var slot := ReadPointer(read, psize, shifted);
      if slot.Some? && slot.value != 0 {
        if |offsets| == 1 {
          assert rest == [0] && rest[1..] == [];
        } else {
          assert rest[0] == offsets[1] && rest[1..] == offsets[1..][1..] + [0];
          ShiftedWalk(read, psize, slot.value, offsets[1..]);
          var moved := ApplyOffset(slot.value, offsets[1]);
          if moved.Some? { TaggedBase(read, psize, moved.value, offsets[1..][1..] + [0]); }
        }
      }
  }

  /** The form asks the agent first and walks by itself only when that gives nothing. */
  method RunPointerVerify(read: Reads, psize: nat, base: u64, offsets: seq<i64>) returns (r: Option<u64>)
    requires offsets != []
    ensures r == WalkBeforeDeref(read, psize, base, offsets)
  {
    hide ReadPointer;
    ShiftedWalk(read, psize, base, offsets);
    var shifted := ApplyOffset(base, offsets[0]);
    var sent: bool := *;
    if shifted.Some? && sent {
      var answer := ResolvePointerChainAfterDeref(read, psize, shifted.value, offsets[1..] + [0]);
      if answer.Some? && answer.value != 0 {
        return answer;
      }
    }
    var addr := base;
    for i := 0 to |offsets|
      invariant WalkBeforeDeref(read, psize, base, offsets) == WalkBeforeDeref(read, psize, addr, offsets[i..])
    {
      var slot := ApplyOffset(addr, offsets[i]);
      if slot.None? {
        return None;
      }
      var ptr := ReadPointer(read, psize, slot.value);
      if ptr.None? || ptr.value == 0 {
        return None;
      }
      assert offsets[i..][1..] == offsets[i + 1..];
      addr := ptr.value;
    }
    return Some(addr);
  }
}
