/**
 The pointer index the agent builds: every nonzero pointer of the readable regions as a (value, address)
 pair, collected in overlapped chunks, sorted, and downloaded by the client page by page.
 */
module AgentIndex {
  import opened Machine
  import opened Ordering
  import opened Collecting
  import opened Grid
  import opened PointerIndexFile
  import opened PointerLevels
  import PointerTasks
  import PointerScan
  import PointerChains

  const CHUNK := 256 * 1024
  const MAX_ENTRIES := 20_000_000
  const MAX_RETURN := 4096

  datatype Region = Region(start: nat, end: nat, readable: bool)

  /** What a read of a chunk comes to: an error, or a number of bytes. */
  datatype Reply = Refused | Got(count: nat)

  datatype Build = Build(mem: Memory, regions: seq<Region>, psize: nat, byteStep: bool, strict: bool, maxEntries: nat,
                         reply: (nat, nat) -> Reply)

  ghost predicate Proper(b: Build) {
    && PointerSize(b.psize) && 0 < b.maxEntries
    && (forall i :: 0 <= i < |b.regions| ==> b.regions[i].start <= b.regions[i].end <= TAG_LIMIT)
    && (forall at, n :: b.reply(at, n).Got? ==> b.reply(at, n).count <= n)
  }

  function Step(b: Build): nat { if b.byteStep then 1 else b.psize }

  /** How far one full chunk takes the cursor: with byte steps the next chunk overlaps it. */
  function Advance(b: Build): nat
    requires PointerSize(b.psize)
  {
    if b.byteStep then CHUNK - (b.psize - 1) else CHUNK
  }

  function First(b: Build, r: Region): (a: nat)
    requires PointerSize(b.psize)
    ensures r.start <= a
  {
    if b.byteStep then r.start else RoundUp(r.start, b.psize)
  }

  function Slots(b: Build, r: Region): seq<nat>
    requires PointerSize(b.psize)
  {
    Walk(First(b, r), r.end - b.psize + 1, Step(b))
  }

  function ChunkAt(b: Build, remaining: nat): (n: nat)
    requires PointerSize(b.psize)
    ensures n <= remaining && n <= CHUNK
  {
    if b.byteStep then Min(remaining, CHUNK) else RoundDown(Min(remaining, CHUNK), b.psize)
  }

  /** The chunk that reads slot `a` of region `r`. */
  function ChunkOf(b: Build, r: Region, a: nat): (at: nat)
    requires PointerSize(b.psize) && First(b, r) <= a
    ensures First(b, r) <= at <= a
  {
    First(b, r) + RoundDown(a - First(b, r), Advance(b))
  }

  function ReplyFor(b: Build, r: Region, at: nat): Reply
    requires PointerSize(b.psize) && at <= r.end
  {
    b.reply(at, ChunkAt(b, r.end - at))
  }

  /** The slot's chunk was read in full. */
  predicate Visible(b: Build, r: Region, a: nat)
    requires PointerSize(b.psize)
  {
    First(b, r) <= a <= r.end && ReplyFor(b, r, ChunkOf(b, r, a)) == Got(ChunkAt(b, r.end - ChunkOf(b, r, a)))
  }

  function EntryAt(b: Build, a: nat): seq<Entry>
    requires PointerSize(b.psize)
  {
    if a < U64_LIMIT && SlotValue(b.mem, a, b.psize) != 0 then [Entry(SlotValue(b.mem, a, b.psize), a)] else []
  }

  function Shown(b: Build, r: Region): nat -> seq<Entry>
    requires PointerSize(b.psize)
  {
    (a: nat) => if Visible(b, r, a) then EntryAt(b, a) else []
  }

  function Plain(b: Build): nat -> seq<Entry>
    requires PointerSize(b.psize)
  {
    (a: nat) => EntryAt(b, a)
  }

  /** What the slots of `r` from `cursor` on contribute. */
  function Rest(b: Build, r: Region, cursor: nat): seq<Entry>
    requires PointerSize(b.psize)
  {
    Collect(Walk(cursor, r.end - b.psize + 1, Step(b)), Shown(b, r))
  }

  function OfRegion(b: Build): Region -> seq<Entry>
    requires PointerSize(b.psize)
  {
    (r: Region) => if r.readable then Rest(b, r, First(b, r)) else []
  }

  /** All entries the replies let the agent see, region by region. */
  function Seen(b: Build): seq<Entry>
    requires PointerSize(b.psize)
  {
    Collect(b.regions, OfRegion(b))
  }

  /** At most so many of them. */
  function Take(s: seq<Entry>, n: nat): seq<Entry> { if |s| <= n then s else s[..n] }

  lemma TakeMore(list: seq<Entry>, e: Entry, rest: seq<Entry>, n: nat)
    requires |list| < n
    ensures Take(list + [e] + rest, n) == Take(list + ([e] + rest), n)
    ensures |list| + 1 == n ==> Take(list + ([e] + rest), n) == list + [e]
  {
    assert list + [e] + rest == list + ([e] + rest);
  }

  /** The slots of one buffer. The list stops growing once it is full. */
  method IndexChunk(b: Build, buffer: seq<byte>, cursor: nat, bytes: nat, before: seq<Entry>)
    returns (list: seq<Entry>, full: bool)
    requires Proper(b) && bytes <= |buffer| && cursor + |buffer| <= TAG_LIMIT && |before| < b.maxEntries
    ensures full == (|list| == b.maxEntries) && |list| <= b.maxEntries
    ensures buffer == Bytes(b.mem, cursor, |buffer|) && bytes == |buffer| ==>
      list == Take(before + Collect(Walk(cursor, cursor + bytes - b.psize + 1, Step(b)), Plain(b)), b.maxEntries)
  {
    hide Walk, PointerOf, Collect, Take, Whole;
    list, full := before, false;
    var limit := if bytes >= b.psize then bytes - b.psize + 1 else 0;
    var offset: nat := 0;
    ghost var bound := cursor + bytes - b.psize + 1;
    ghost var exact := buffer == Bytes(b.mem, cursor, |buffer|) && bytes == |buffer|;
    ghost var whole := before + Collect(Walk(cursor, bound, Step(b)), Plain(b));
    while offset < limit
      invariant !full && |list| < b.maxEntries
      invariant exact ==> list + Collect(Walk(cursor + offset, bound, Step(b)), Plain(b)) == whole
      decreases limit + b.psize - offset
    {
      ghost var rest := Collect(Walk(cursor + offset + Step(b), bound, Step(b)), Plain(b));
      SlotStep(b, cursor + offset, bound);
      var value := PointerOf(buffer[offset..offset + b.psize]);
      assert exact ==> buffer[offset..offset + b.psize] == Bytes(b.mem, cursor + offset, b.psize);
      if value != 0 {
        var e := Entry(value, cursor + offset);
        TakeMore(list, e, rest, b.maxEntries);
        ghost var was := list;
        list := list + [e];
        assert list + rest == was + ([e] + rest);
        if |list| >= b.maxEntries {
          return list, true;
        }
      }
      offset := offset + Step(b);
    }
    NoSlots(b, cursor + offset, bound);
    TakeAll(list, b.maxEntries);
  }

  lemma TakeAll(list: seq<Entry>, n: nat)
    ensures |list| <= n ==> Take(list, n) == list && list + [] == list
  {
  }

  lemma SlotStep(b: Build, at: nat, bound: int)
    requires PointerSize(b.psize) && at < bound
    ensures Collect(Walk(at, bound, Step(b)), Plain(b))
      == EntryAt(b, at) + Collect(Walk(at + Step(b), bound, Step(b)), Plain(b))
  {
    CollectOne(at, Walk(at + Step(b), bound, Step(b)), Plain(b));
  }

  lemma NoSlots(b: Build, at: nat, bound: int)
    requires PointerSize(b.psize)
    ensures at >= bound ==> Collect(Walk(at, bound, Step(b)), Plain(b)) == []
  {
  }

  /** The cursor stands at a chunk border, or too near the end for another slot. */
  predicate AtBorder(b: Build, r: Region, cursor: nat)
    requires PointerSize(b.psize)
  {
    First(b, r) <= cursor && (Whole(cursor - First(b, r), Advance(b)) || cursor + b.psize > r.end)
  }

  function Next(b: Build, cursor: nat, chunk: nat): nat
    requires PointerSize(b.psize)
  {
    if b.byteStep && chunk > b.psize - 1 then cursor + (chunk - (b.psize - 1)) else cursor + chunk
  }

  lemma NoRoom(b: Build, r: Region, cursor: nat)
    requires PointerSize(b.psize) && cursor + b.psize > r.end
    ensures Rest(b, r, cursor) == []
  {
  }

  /** A chunk too small for a slot means that the region has no room for one. */
  lemma SmallChunk(b: Build, r: Region, cursor: nat)
    requires PointerSize(b.psize) && cursor <= r.end
    ensures ChunkAt(b, r.end - cursor) < b.psize <==> cursor + b.psize > r.end
    ensures !b.byteStep && ChunkAt(b, r.end - cursor) < b.psize ==> ChunkAt(b, r.end - cursor) == 0
  {
    if !b.byteStep { WholeAtLeast(ChunkAt(b, r.end - cursor), b.psize); }
  }

  lemma ChunkIsWhole(psize: nat)
    requires PointerSize(psize)
    ensures Whole(CHUNK, psize)
  {
    WholeMultiple(CHUNK / psize, psize);
    assert (CHUNK / psize) * psize == CHUNK;
  }

  /** A chunk takes the cursor no farther than a full one, and a full one takes it that far. */
  lemma NextReach(b: Build, r: Region, cursor: nat)
    requires PointerSize(b.psize) && cursor + b.psize <= r.end
    ensures var next := Next(b, cursor, ChunkAt(b, r.end - cursor));
      && cursor < next <= r.end && next <= cursor + Advance(b)
      && (r.end - cursor >= CHUNK ==> next == cursor + Advance(b))
      && (r.end - cursor < CHUNK ==> next + b.psize > r.end)
  {
    hide Whole;
    SmallChunk(b, r, cursor);
    if r.end - cursor >= CHUNK && !b.byteStep {
      ChunkIsWhole(b.psize);
      RoundDownIs(CHUNK, CHUNK, b.psize);
    }
  }

  lemma NextBorder(b: Build, r: Region, cursor: nat)
    requires PointerSize(b.psize) && AtBorder(b, r, cursor) && cursor + b.psize <= r.end
    ensures cursor < Next(b, cursor, ChunkAt(b, r.end - cursor)) <= r.end
    ensures AtBorder(b, r, Next(b, cursor, ChunkAt(b, r.end - cursor)))
  {
    hide Whole, Next, ChunkAt, First;
    NextReach(b, r, cursor);
    var advance := Advance(b);
    OneStep(cursor - First(b, r), advance);
    assert cursor - First(b, r) + advance == cursor + advance - First(b, r);
  }

  lemma OneStep(d: nat, s: nat)
    requires s > 0
    ensures Whole(d, s) ==> Whole(d + s, s)
  {
  }

  /** The slots a chunk holds are read by it. */
  lemma ChunkHolds(b: Build, r: Region, cursor: nat, a: nat)
    requires PointerSize(b.psize) && AtBorder(b, r, cursor) && cursor + b.psize <= r.end
    requires cursor <= a < Next(b, cursor, ChunkAt(b, r.end - cursor)) && a <= r.end
    ensures ChunkOf(b, r, a) == cursor
    ensures Visible(b, r, a) <==> ReplyFor(b, r, cursor) == Got(ChunkAt(b, r.end - cursor))
  {
    hide Whole, Next, ChunkAt, First, ReplyFor;
    NextReach(b, r, cursor);
    var first, advance := First(b, r), Advance(b);
    RoundDownIs(a - first, cursor - first, advance);
  }

  lemma NextIsOnGrid(b: Build, r: Region, cursor: nat)
    requires PointerSize(b.psize) && cursor + b.psize <= r.end
    ensures var next := Next(b, cursor, ChunkAt(b, r.end - cursor));
      cursor <= next && Whole(next - cursor, Step(b))
  {
    var next := Next(b, cursor, ChunkAt(b, r.end - cursor));
    if b.byteStep { WholeBytes(next - cursor); }
  }

  /** The walk over a region falls apart into a chunk's slots and the rest. */
  lemma ChunkWalk(b: Build, r: Region, cursor: nat)
    requires PointerSize(b.psize) && cursor + b.psize <= r.end
    ensures var chunk := ChunkAt(b, r.end - cursor);
      Walk(cursor, r.end - b.psize + 1, Step(b)) ==
        Walk(cursor, cursor + chunk - b.psize + 1, Step(b)) + Walk(Next(b, cursor, chunk), r.end - b.psize + 1, Step(b))
  {
    hide Walk, Whole;
    var chunk := ChunkAt(b, r.end - cursor);
    var next, bound := Next(b, cursor, chunk), r.end - b.psize + 1;
    SmallChunk(b, r, cursor);
    NextIsOnGrid(b, r, cursor);
    WalkSplit(cursor, next, bound, Step(b));
    if !b.byteStep {
      WalkBound(cursor, next, cursor + chunk - b.psize + 1, b.psize);
      WalkBound(cursor, next, Min(next, bound), b.psize);
    }
  }

  lemma ChunkStep(b: Build, r: Region, cursor: nat)
    requires PointerSize(b.psize) && AtBorder(b, r, cursor) && cursor + b.psize <= r.end
    ensures var chunk := ChunkAt(b, r.end - cursor);
      Rest(b, r, cursor) ==
        (if ReplyFor(b, r, cursor) == Got(chunk)
         then Collect(Walk(cursor, cursor + chunk - b.psize + 1, Step(b)), Plain(b)) else [])
        + Rest(b, r, Next(b, cursor, chunk))
  {
    hide Collect, Visible, Whole, AtBorder, EntryAt;
    var chunk := ChunkAt(b, r.end - cursor);
    var here := Walk(cursor, cursor + chunk - b.psize + 1, Step(b));
    ChunkWalk(b, r, cursor);
    CollectSplit(here, Walk(Next(b, cursor, chunk), r.end - b.psize + 1, Step(b)), Shown(b, r));
    SmallChunk(b, r, cursor);
    forall i | 0 <= i < |here| ensures Visible(b, r, here[i]) <==> ReplyFor(b, r, cursor) == Got(chunk) {
      ChunkHolds(b, r, cursor, here[i]);
    }
    if ReplyFor(b, r, cursor) == Got(chunk) {
      CollectSame(here, Shown(b, r), Plain(b));
    } else {
      CollectNone(here, Shown(b, r));
    }
  }

  /** A chunk that came back in part: its bytes are counted, but not where they lie. */
  predicate InPart(b: Build, at: nat, chunk: nat) {
    b.reply(at, chunk).Got? && 0 < b.reply(at, chunk).count < chunk
  }

  ghost predicate AllOrNothing(b: Build) { forall at, chunk :: !InPart(b, at, chunk) }

  // ----- when a strict build fails

  predicate IsSlot(b: Build, r: Region, a: nat)
    requires PointerSize(b.psize)
  {
    First(b, r) <= a && a + b.psize <= r.end && Whole(a - First(b, r), Step(b))
  }

  /** The chunk that holds slot `a` was refused, or came back in part. */
  predicate Troubled(b: Build, r: Region, a: nat)
    requires PointerSize(b.psize) && First(b, r) <= a <= r.end
  {
    var at := ChunkOf(b, r, a);
    ReplyFor(b, r, at) == Refused || InPart(b, at, ChunkAt(b, r.end - at))
  }

  /** How many entries region `r` shows before `at`. */
  function Earlier(b: Build, r: Region, at: nat): int
    requires PointerSize(b.psize)
  {
    |Rest(b, r, First(b, r))| - |Rest(b, r, at)|
  }

  /** Trouble in region `r` is met before the list, which has room for so many more, is full. */
  ghost predicate Blocked(b: Build, r: Region, room: int)
    requires PointerSize(b.psize)
  {
    exists a :: IsSlot(b, r, a) && Troubled(b, r, a) && Earlier(b, r, ChunkOf(b, r, a)) < room
  }

  lemma {:induction false} WholeChunks(b: Build, d: nat)
    requires PointerSize(b.psize) && Whole(d, Advance(b))
    ensures Whole(d, Step(b))
  {
    hide Whole;
    if b.byteStep {
      WholeBytes(d);
    } else {
      ChunksOfPointers(d, b.psize);
    }
  }

  lemma {:induction false} ChunksOfPointers(d: nat, psize: nat)
    requires PointerSize(psize) && Whole(d, CHUNK)
    ensures Whole(d, psize)
  {
    if d > 0 {
      ChunksOfPointers(d - CHUNK, psize);
      ChunkIsWhole(psize);
      WholeAdds(CHUNK, d - CHUNK, psize);
    }
  }

  /** From border to border the entries shown can only become more. */
  lemma EarlierGrows(b: Build, r: Region, at: nat, a: nat)
    requires PointerSize(b.psize) && AtBorder(b, r, at) && IsSlot(b, r, a) && at <= a
    ensures Earlier(b, r, at) <= Earlier(b, r, ChunkOf(b, r, a))
  {
    hide Whole, Walk, First, RoundDown, Shown;
    var first, advance, to := First(b, r), Advance(b), ChunkOf(b, r, a);
    if to < at {
      LaterChunk(to - first, at - first, advance);
    }
    WholeAdds(at - first, to - at, advance);
    WholeChunks(b, to - at);
    var bound := r.end - b.psize + 1;
    WalkSplit(at, to, bound, Step(b));
    CollectSplit(Walk(at, Min(to, bound), Step(b)), Walk(to, bound, Step(b)), Shown(b, r));
  }

  /** A later multiple is at least a whole step away. */
  lemma LaterChunk(x: nat, y: nat, s: nat)
    requires s > 0 && Whole(x, s) && Whole(y, s) && x < y
    ensures x + s <= y
  {
    WholeAdds(x, y - x, s);
    WholeAtLeast(y - x, s);
  }

  /** No chunk of a slot before `upto` made trouble. */
  ghost predicate Quiet(b: Build, r: Region, upto: nat)
    requires PointerSize(b.psize)
  {
    forall a: nat :: IsSlot(b, r, a) && a < upto ==> !Troubled(b, r, a)
  }

  lemma QuietAtFirst(b: Build, r: Region)
    requires PointerSize(b.psize)
    ensures Quiet(b, r, First(b, r))
  {
  }

  lemma QuietChunk(b: Build, r: Region, cursor: nat)
    requires PointerSize(b.psize) && AtBorder(b, r, cursor) && cursor + b.psize <= r.end && Quiet(b, r, cursor)
    requires ReplyFor(b, r, cursor) != Refused && !InPart(b, cursor, ChunkAt(b, r.end - cursor))
    ensures Quiet(b, r, Next(b, cursor, ChunkAt(b, r.end - cursor)))
  {
    hide Whole, Next, ChunkAt, First, ReplyFor, ChunkOf, AtBorder, Visible;
    var next := Next(b, cursor, ChunkAt(b, r.end - cursor));
    forall a: nat | IsSlot(b, r, a) && cursor <= a < next ensures !Troubled(b, r, a) {
      ChunkHolds(b, r, cursor, a);
    }
  }

  /** A bad reply at the cursor is one for the slot there. */
  lemma BlockedHere(b: Build, r: Region, cursor: nat, room: int)
    requires PointerSize(b.psize) && AtBorder(b, r, cursor) && cursor + b.psize <= r.end
    requires ReplyFor(b, r, cursor) == Refused || InPart(b, cursor, ChunkAt(b, r.end - cursor))
    requires Earlier(b, r, cursor) < room
    ensures Blocked(b, r, room)
  {
    hide Whole, Next, ChunkAt, First, ReplyFor, Earlier, ChunkOf, AtBorder, Visible;
    NextBorder(b, r, cursor);
    ChunkHolds(b, r, cursor, cursor);
    BorderIsSlot(b, r, cursor);
    assert IsSlot(b, r, cursor) && Troubled(b, r, cursor);
  }

  lemma BorderIsSlot(b: Build, r: Region, cursor: nat)
    requires PointerSize(b.psize) && AtBorder(b, r, cursor) && cursor + b.psize <= r.end
    ensures IsSlot(b, r, cursor)
  {
    WholeChunks(b, cursor - First(b, r));
  }

  /** No trouble before the cursor, and from there on the list has no room. */
  lemma NotBlocked(b: Build, r: Region, cursor: nat, room: int)
    requires PointerSize(b.psize) && AtBorder(b, r, cursor) && Quiet(b, r, cursor)
    requires cursor + b.psize > r.end || Earlier(b, r, cursor) >= room
    ensures !Blocked(b, r, room)
  {
    hide Whole, First, Troubled, Earlier, ChunkOf, AtBorder;
    forall a | IsSlot(b, r, a) && Troubled(b, r, a) ensures Earlier(b, r, ChunkOf(b, r, a)) >= room {
      EarlierGrows(b, r, cursor, a);
    }
  }

  /**
   One region. A strict build fails exactly on a refused or partial read that it comes to, but takes a read of nothing
   for an empty chunk. While no chunk came back in part (`clean`), the list grows by the entries the replies show.
   */
  method IndexRegion(b: Build, r: Region, before: seq<Entry>)
    returns (list: seq<Entry>, full: bool, failed: bool, ghost clean: bool)
    requires Proper(b) && r.start <= r.end <= TAG_LIMIT && |before| < b.maxEntries
    ensures failed <==> b.strict && Blocked(b, r, b.maxEntries - |before|)
    ensures !failed ==> full == (|list| == b.maxEntries) && |list| <= b.maxEntries
    ensures !failed && clean ==> list == Take(before + Rest(b, r, First(b, r)), b.maxEntries)
    ensures !failed && (b.strict || AllOrNothing(b)) ==> clean
  {
    hide Rest, AtBorder, Next, ChunkAt, First, Collect, Quiet, Blocked;
    list, full, failed, clean := before, false, false, true;
    var cursor := First(b, r);
    ghost var room := b.maxEntries - |before|;
    StartsAtBorder(b, r);
    QuietAtFirst(b, r);
    ghost var whole := before + Rest(b, r, cursor);
    while cursor < r.end
      invariant AtBorder(b, r, cursor) && !full && !failed && |list| < b.maxEntries
      invariant clean ==> list + Rest(b, r, cursor) == whole
      invariant b.strict || AllOrNothing(b) ==> clean
      invariant b.strict ==> Quiet(b, r, cursor)
      decreases r.end - cursor
    {
      var chunk := ChunkAt(b, r.end - cursor);
      SmallChunk(b, r, cursor);
      if chunk == 0 || (b.byteStep && chunk < b.psize) {
        NoRoom(b, r, cursor);
        break;
      }
      NextBorder(b, r, cursor);
      ChunkStep(b, r, cursor);
      ghost var was, more := list, Rest(b, r, Next(b, cursor, chunk));
      if b.strict { Room(list, Rest(b, r, cursor), before, Rest(b, r, First(b, r))); }
      var reply := b.reply(cursor, chunk);
      if b.strict && (reply == Refused || InPart(b, cursor, chunk)) { BlockedHere(b, r, cursor, room); }
      if reply == Refused && b.strict {
        failed := true;
        return;
      }
      if reply.Got? && reply.count > 0 {
        if b.strict && reply.count != chunk {
          failed := true;
          return;
        }
        clean := clean && !InPart(b, cursor, chunk);
        if b.strict { QuietChunk(b, r, cursor); }
        var buffer := ReadBuffer(b, cursor, chunk, reply.count);
        list, full := IndexChunk(b, buffer, cursor, reply.count, list);
        ghost var here := Collect(Walk(cursor, cursor + chunk - b.psize + 1, Step(b)), Plain(b));
        if clean { TakeSplit(was, here, more, b.maxEntries); }
        if full {
          if b.strict {
            TakeFull(was, here, more, whole, b.maxEntries);
            NotBlocked(b, r, Next(b, cursor, chunk), room);
          }
          return;
        }
      } else {
        if b.strict { QuietChunk(b, r, cursor); }
        assert [] + more == more;
      }
      cursor := Next(b, cursor, chunk);
    }
    if b.strict { NotBlocked(b, r, cursor, room); }
    LastOfRegion(b, r, cursor);
    assert list + [] == list;
  }

  lemma Room(list: seq<Entry>, rest: seq<Entry>, before: seq<Entry>, all: seq<Entry>)
    requires list + rest == before + all
    ensures |list| + |rest| == |before| + |all|
  {
    assert |list + rest| == |before + all|;
  }

  /** A list cut off at `n` had at least so many candidates. */
  lemma TakeFull(was: seq<Entry>, here: seq<Entry>, more: seq<Entry>, whole: seq<Entry>, n: nat)
    requires was + (here + more) == whole
    ensures |Take(was + here, n)| == n ==> |whole| - |more| >= n
  {
    assert |was + (here + more)| == |was| + |here| + |more|;
  }

  /** A full read has copied the memory; after a partial one the buffer may hold anything. */
  method ReadBuffer(b: Build, cursor: nat, chunk: nat, count: nat) returns (buffer: seq<byte>)
    ensures |buffer| == chunk && (count == chunk ==> buffer == Bytes(b.mem, cursor, chunk))
  {
    buffer := Bytes(b.mem, cursor, chunk);
    if count != chunk {
      buffer :| |buffer| == chunk;
    }
  }

  lemma StartsAtBorder(b: Build, r: Region)
    requires PointerSize(b.psize)
    ensures AtBorder(b, r, First(b, r))
  {
  }

  lemma LastOfRegion(b: Build, r: Region, cursor: nat)
    requires PointerSize(b.psize) && cursor + b.psize > r.end
    ensures Rest(b, r, cursor) == []
  {
    NoRoom(b, r, cursor);
  }

  /** Taking is done step by step: once the list is full, nothing that follows matters. */
  lemma TakeSplit(list: seq<Entry>, here: seq<Entry>, more: seq<Entry>, n: nat)
    requires |list| < n
    ensures |Take(list + here, n)| < n ==> Take(list + here, n) + more == list + (here + more)
    ensures |Take(list + here, n)| == n ==> Take(list + here, n) == Take(list + (here + more), n)
  {
    assert list + (here + more) == list + here + more;
    if |list + here| >= n {
      assert (list + here)[..n] == (list + here + more)[..n];
    }
  }

  /** What the first `k` regions show. */
  function SeenBefore(b: Build, k: nat): seq<Entry>
    requires PointerSize(b.psize) && k <= |b.regions|
  {
    Collect(b.regions[..k], OfRegion(b))
  }

  /** A strict build comes to a chunk that is refused or read in part before its list is full. */
  ghost predicate StrictFails(b: Build)
    requires PointerSize(b.psize)
  {
    b.strict && exists k :: 0 <= k < |b.regions| && BlockedAt(b, k)
  }

  ghost predicate BlockedAt(b: Build, k: nat)
    requires PointerSize(b.psize) && k < |b.regions|
  {
    b.regions[k].readable && Blocked(b, b.regions[k], b.maxEntries - |SeenBefore(b, k)|)
  }

  lemma SeenOneMore(b: Build, k: nat)
    requires PointerSize(b.psize) && k < |b.regions|
    ensures SeenBefore(b, k + 1) == SeenBefore(b, k) + OfRegion(b)(b.regions[k])
    ensures SeenBefore(b, k) + Collect(b.regions[k..], OfRegion(b)) == Seen(b)
  {
    hide Rest, Collect;
    var one := [b.regions[k]];
    NoRegions(b);
    assert b.regions[..k + 1] == b.regions[..k] + one && one == one + [];
    CollectSplit(b.regions[..k], one, OfRegion(b));
    CollectOne(b.regions[k], [], OfRegion(b));
    assert b.regions[|b.regions|..] == [];
    assert b.regions == b.regions[..k] + b.regions[k..];
    CollectSplit(b.regions[..k], b.regions[k..], OfRegion(b));
  }

  lemma {:induction false} SeenGrows(b: Build, i: nat, k: nat)
    requires PointerSize(b.psize) && i <= k <= |b.regions|
    ensures |SeenBefore(b, i)| <= |SeenBefore(b, k)|
  {
    hide Rest;
    if i < k {
      SeenGrows(b, i, k - 1);
      SeenOneMore(b, k - 1);
    }
  }

  /** Once the list is full, no later region can stop the build. */
  lemma FullBefore(b: Build, i: nat, k: nat)
    requires PointerSize(b.psize) && i <= k < |b.regions| && |SeenBefore(b, i)| >= b.maxEntries
    ensures !BlockedAt(b, k)
  {
    hide Whole, First, Rest, Troubled, AtBorder, ChunkOf;
    SeenGrows(b, i, k);
    var r := b.regions[k];
    forall a | IsSlot(b, r, a) ensures Earlier(b, r, ChunkOf(b, r, a)) >= 0 {
      StartsAtBorder(b, r);
      EarlierGrows(b, r, First(b, r), a);
    }
  }

  /** What region `i` does to a build that stands before it. */
  lemma RegionBlocks(b: Build, i: nat, list: seq<Entry>)
    requires PointerSize(b.psize) && i < |b.regions| && list + Collect(b.regions[i..], OfRegion(b)) == Seen(b)
    ensures |list| == |SeenBefore(b, i)| && |SeenBefore(b, i + 1)| == |list| + |OfRegion(b)(b.regions[i])|
  {
    hide SeenBefore;
    SeenOneMore(b, i);
    Room(list, Collect(b.regions[i..], OfRegion(b)), SeenBefore(b, i), Collect(b.regions[i..], OfRegion(b)));
  }

  /**
   The whole build: regions in order until the list is full or a strict read fails, then sorted and made unique. It
   succeeds unless a strict build comes to a chunk that is refused or read in part.
   */
  method BuildIndex(b: Build) returns (ok: bool, index: seq<Entry>, truncated: bool, ghost clean: bool)
    requires Proper(b)
    ensures ok <==> !StrictFails(b)
    ensures !ok ==> index == [] && !truncated
    ensures b.strict || AllOrNothing(b) ==> !ok || clean
    ensures ok ==> SortedBy(index, EntryLe) && NoDuplicates(index) && |index| <= b.maxEntries
    ensures ok && clean ==> (truncated <==> |Seen(b)| >= b.maxEntries)
    ensures ok && clean ==> SameElements(index, Take(Seen(b), b.maxEntries))
  {
    hide Rest, First, Collect, EntryLe, Blocked, SeenBefore;
    var list: seq<Entry>, failed := [], false;
    truncated, clean := false, true;
    ghost var whole := Seen(b);
    assert b.regions[0..] == b.regions && [] + whole == whole;
    for i := 0 to |b.regions|
      invariant !truncated && |list| < b.maxEntries
      invariant clean ==> list + Collect(b.regions[i..], OfRegion(b)) == whole
      invariant b.strict || AllOrNothing(b) ==> clean
      invariant b.strict ==> forall k :: 0 <= k < i ==> !BlockedAt(b, k)
    {
      var r := b.regions[i];
      ghost var more := Collect(b.regions[i + 1..], OfRegion(b));
      assert b.regions[i..] == [r] + b.regions[i + 1..];
      CollectOne(r, b.regions[i + 1..], OfRegion(b));
      if b.strict { RegionBlocks(b, i, list); }
      if r.readable {
        ghost var was, cleanHere := list, false;
        list, truncated, failed, cleanHere := IndexRegion(b, r, list);
        clean := clean && cleanHere;
        if failed {
          assert BlockedAt(b, i);
          return false, [], false, clean;
        }
        if clean { TakeSplit(was, Rest(b, r, First(b, r)), more, b.maxEntries); }
        if truncated {
          if b.strict {
            forall k | i < k < |b.regions| ensures !BlockedAt(b, k) { FullBefore(b, i + 1, k); }
          }
          break;
        }
      } else {
        assert [] + more == more;
      }
    }
    NoRegions(b);
    assert !truncated ==> list + [] == list;
    EntryOrder();
    var sorted := Sort(list, EntryLe);
    SameMultisetSameElements(sorted, list);
    index := Unique(sorted, EntryLe);
    ok := true;
  }

  lemma NoRegions(b: Build)
    requires PointerSize(b.psize)
    ensures Collect(b.regions[|b.regions|..], OfRegion(b)) == []
  {
  }

  // ----- what the index means

  /** Slot `a` belongs to readable region `k`. */
  predicate SlotAt(b: Build, k: nat, a: nat)
    requires PointerSize(b.psize) && k < |b.regions|
  {
    b.regions[k].readable && IsSlot(b, b.regions[k], a)
  }

  /** The slots of a readable region, and the 256 KiB chunk each of them is read with. */
  lemma SlotAtIff(b: Build, k: nat, a: nat)
    requires Proper(b) && k < |b.regions|
    ensures SlotAt(b, k, a) <==>
      var r := b.regions[k];
      r.readable && r.start <= a && a + b.psize <= r.end && (b.byteStep || a % b.psize == 0)
  {
    hide Whole, RoundDown;
    var r := b.regions[k];
    WholeIsMultiple(a, b.psize);
    if b.byteStep {
      if r.start <= a { WholeBytes(a - r.start); }
    } else {
      var first := RoundUp(r.start, b.psize);
      if first <= a { WholeAdds(first, a - first, b.psize); }
      if r.start <= a < first && Whole(a, b.psize) { LaterChunk(a, first, b.psize); }
    }
  }

  lemma ChunkOfSlot(b: Build, k: nat, a: nat)
    requires Proper(b) && k < |b.regions| && SlotAt(b, k, a)
    ensures var r := b.regions[k];
      var first := if b.byteStep then r.start else (r.start + b.psize - 1) / b.psize * b.psize;
      var step := if b.byteStep then 0x4_0000 - (b.psize - 1) else 0x4_0000;
      ChunkOf(b, r, a) == first + (a - first) / step * step
    ensures forall n: nat ::
      ChunkAt(b, n) == if n >= 0x4_0000 then 0x4_0000 else if b.byteStep then n else n / b.psize * b.psize
  {
    hide RoundDown, Whole;
    var r := b.regions[k];
    RoundDownIsQuotient(r.start + b.psize - 1, b.psize);
    RoundDownIsQuotient(a - First(b, r), Advance(b));
    forall n: nat
      ensures ChunkAt(b, n) == if n >= 0x4_0000 then 0x4_0000 else if b.byteStep then n else n / b.psize * b.psize
    {
      RoundDownIsQuotient(if n < 0x4_0000 then n else 0x4_0000, b.psize);
    }
  }

  /** The pair a slot stands for, unless it holds null. */
  ghost predicate IsEntry(b: Build, e: Entry)
    requires PointerSize(b.psize)
  {
    e.value == SlotValue(b.mem, e.address, b.psize) && e.value != 0
  }

  /** Seen are exactly the nonzero slots whose chunk was read. */
  lemma SeenMember(b: Build, e: Entry)
    requires Proper(b)
    ensures e in Seen(b) <==>
      IsEntry(b, e)
      && exists k :: 0 <= k < |b.regions| && SlotAt(b, k, e.address) && Visible(b, b.regions[k], e.address)
  {
    hide Visible, SlotValue, Whole, Walk, First;
    CollectMember(b.regions, OfRegion(b), e);
    forall k | 0 <= k < |b.regions|
      ensures e in OfRegion(b)(b.regions[k]) <==>
        IsEntry(b, e) && SlotAt(b, k, e.address) && Visible(b, b.regions[k], e.address)
    {
      RegionMember(b, k, e);
    }
    if r :| r in b.regions && e in OfRegion(b)(r) {
      var k :| 0 <= k < |b.regions| && b.regions[k] == r;
      assert SlotAt(b, k, e.address);
    }
  }

  lemma RegionMember(b: Build, k: nat, e: Entry)
    requires Proper(b) && k < |b.regions|
    ensures e in OfRegion(b)(b.regions[k]) <==>
      IsEntry(b, e) && SlotAt(b, k, e.address) && Visible(b, b.regions[k], e.address)
  {
    hide Visible, SlotValue, Whole, Walk, First;
    var r := b.regions[k];
    var slots := Slots(b, r);
    CollectMember(slots, Shown(b, r), e);
    WalkMember(First(b, r), r.end - b.psize + 1, Step(b), e.address);
    assert forall a :: e in Shown(b, r)(a) ==> a == e.address;
    if e in Collect(slots, Shown(b, r)) {
      var a :| a in slots && e in Shown(b, r)(a);
      assert a == e.address;
    }
  }

  ghost predicate Ascending(regions: seq<Region>) {
    forall i, j :: 0 <= i < j < |regions| ==> regions[i].end <= regions[j].start
  }

  /** The promise of the index: it has each nonzero slot of the readable regions, and nothing else. */
  ghost predicate Exact(b: Build, index: seq<Entry>)
    requires PointerSize(b.psize)
  {
    forall e: Entry :: e in index <==> IsEntry(b, e) && exists k :: 0 <= k < |b.regions| && SlotAt(b, k, e.address)
  }

  /** A chunk whose read returned nothing, or was refused, hides no pointer. */
  ghost predicate DarkIsEmpty(b: Build)
    requires PointerSize(b.psize)
  {
    forall k, a: nat :: 0 <= k < |b.regions| && SlotAt(b, k, a) && !Visible(b, b.regions[k], a) ==>
      SlotValue(b.mem, a, b.psize) == 0
  }

  /** An untruncated clean index is exact if and only if every slot in an unread chunk is null. */
  lemma ExactIff(b: Build, index: seq<Entry>)
    requires Proper(b) && Ascending(b.regions) && SameElements(index, Seen(b))
    ensures Exact(b, index) <==> DarkIsEmpty(b)
  {
    hide Visible, SlotValue, Seen, First, Whole;
    forall e: Entry
      ensures e in index <==>
        IsEntry(b, e)
        && exists k :: 0 <= k < |b.regions| && SlotAt(b, k, e.address) && Visible(b, b.regions[k], e.address)
    {
      SeenMember(b, e);
    }
    if Exact(b, index) {
      forall k, a: nat | 0 <= k < |b.regions| && SlotAt(b, k, a) && SlotValue(b.mem, a, b.psize) != 0
        ensures Visible(b, b.regions[k], a)
      {
        SlotBelow(b, k, a);
        var e := Entry(SlotValue(b.mem, a, b.psize), a);
        assert e in index;
        var j :| 0 <= j < |b.regions| && SlotAt(b, j, a) && Visible(b, b.regions[j], a);
        OneRegion(b, j, k, a);
      }
    }
    if DarkIsEmpty(b) {
      forall e: Entry, k | IsEntry(b, e) && 0 <= k < |b.regions| && SlotAt(b, k, e.address)
        ensures Visible(b, b.regions[k], e.address)
      {
      }
    }
  }

  lemma SlotBelow(b: Build, k: nat, a: nat)
    requires Proper(b) && k < |b.regions| && SlotAt(b, k, a)
    ensures a < TAG_LIMIT
  {
  }

  lemma OneRegion(b: Build, j: nat, k: nat, a: nat)
    requires Proper(b) && Ascending(b.regions) && j < |b.regions| && k < |b.regions| && SlotAt(b, j, a)
      && SlotAt(b, k, a)
    ensures j == k
  {
    assert b.regions[j].start <= a < b.regions[j].end && b.regions[k].start <= a < b.regions[k].end;
  }

  /** Whatever the memory holds, the index is exact: that is so exactly if every slot's chunk was read in full. */
  lemma ExactOnEveryMemoryIff(b: Build)
    requires Proper(b) && Ascending(b.regions)
    ensures (forall mem :: Exact(b.(mem := mem), Seen(b.(mem := mem)))) <==>
      forall k, a: nat :: 0 <= k < |b.regions| && SlotAt(b, k, a) ==> Visible(b, b.regions[k], a)
  {
    hide Exact, Seen, Visible, SlotValue, First, Whole;
    var allVisible := forall k, a: nat :: 0 <= k < |b.regions| && SlotAt(b, k, a) ==> Visible(b, b.regions[k], a);
    if allVisible {
      forall mem ensures Exact(b.(mem := mem), Seen(b.(mem := mem))) {
        SameView(b, mem);
        ExactIff(b.(mem := mem), Seen(b.(mem := mem)));
      }
    }
    if forall mem :: Exact(b.(mem := mem), Seen(b.(mem := mem))) {
      var ones := b.(mem := (a: nat) => 1);
      SameView(b, ones.mem);
      ExactIff(ones, Seen(ones));
      forall k, a: nat | 0 <= k < |b.regions| && SlotAt(b, k, a) ensures Visible(b, b.regions[k], a) {
        NonzeroSlot(ones.mem, a, b.psize);
      }
    }
  }

  /** Slots, chunks and replies are the same on every memory. */
  lemma SameView(b: Build, mem: Memory)
    requires Proper(b)
    ensures var d := b.(mem := mem); Proper(d) && forall k, a: nat :: 0 <= k < |b.regions| ==>
      (SlotAt(d, k, a) <==> SlotAt(b, k, a)) && (Visible(d, b.regions[k], a) <==> Visible(b, b.regions[k], a))
  {
    hide Whole, RoundDown, RoundUp;
  }

  /** When every read comes back in full, a strict build succeeds and every slot is seen. */
  lemma FullReadsSucceed(b: Build)
    requires Proper(b) && forall at, n :: b.reply(at, n) == Got(n)
    ensures !StrictFails(b)
    ensures forall k, a: nat :: 0 <= k < |b.regions| && SlotAt(b, k, a) ==> Visible(b, b.regions[k], a)
  {
    hide Whole, First, ChunkOf, ChunkAt;
  }

  /** A page that is read as empty. */
  function EmptyPage(): Build {
    Build(_ => 1, [Region(0x1000, 0x2000, true)], 8, false, true, 10, (at, n) => Got(0))
  }

  /** A strict build that succeeds and misses a pointer: a chunk of which nothing is resident counts as read. */
  lemma StrictMissesEmptyReads()
    ensures Proper(EmptyPage()) && Ascending(EmptyPage().regions)
    ensures !StrictFails(EmptyPage()) && !Exact(EmptyPage(), Seen(EmptyPage()))
  {
    hide SlotValue, Exact, Seen, EmptyPage;
    EmptyPageIs();
    var b := EmptyPage();
    assert !DarkIsEmpty(b) by { EmptyPageHidesPointer(); }
    ExactIff(b, Seen(b));
  }

  lemma EmptyPageIs()
    ensures Proper(EmptyPage()) && Ascending(EmptyPage().regions) && !StrictFails(EmptyPage())
  {
    hide ChunkOf, ChunkAt, Whole, First;
  }

  lemma EmptyPageHidesPointer()
    ensures Proper(EmptyPage()) && !DarkIsEmpty(EmptyPage())
  {
    hide SlotValue, ChunkOf, ChunkAt;
    var b := EmptyPage();
    var r := b.regions[0];
    WholeMultiple(0x200, 8);
    AlignedFirst(b, r);
    FirstChunk(b, r);
    assert SlotAt(b, 0, 0x1000) && !Visible(b, r, 0x1000);
    NonzeroSlot(b.mem, 0x1000, 8);
  }

  lemma FirstChunk(b: Build, r: Region)
    requires PointerSize(b.psize) && First(b, r) + b.psize <= r.end
    ensures ChunkOf(b, r, First(b, r)) == First(b, r) && ChunkAt(b, r.end - First(b, r)) > 0
  {
    hide Whole, RoundUp;
    SmallChunk(b, r, First(b, r));
  }

  /** The readable regions, as ranges to scan. */
  function ReadableRanges(regions: seq<Region>): (r: seq<Range>)
    ensures forall x :: x in r <==>
      exists i :: 0 <= i < |regions| && regions[i].readable && x == Range(regions[i].start, regions[i].end)
  {
    if regions == [] then []
    else
      var rest := ReadableRanges(regions[1..]);
      assert forall i :: 0 < i < |regions| ==> regions[i] == regions[1..][i - 1];
      assert forall x :: x in rest ==>
        exists i :: 0 < i < |regions| && regions[i].readable && x == Range(regions[i].start, regions[i].end);
      (if regions[0].readable then [Range(regions[0].start, regions[0].end)] else []) + rest
  }

  /** The agent's slots of page-aligned regions are the scan's. */
  lemma SameRegionSlots(b: Build, a: nat)
    requires Proper(b) && PointerTasks.AlignedRanges(ReadableRanges(b.regions), b.psize, b.byteStep)
    ensures (exists k :: 0 <= k < |b.regions| && SlotAt(b, k, a)) <==>
      PointerTasks.SlotIn(ReadableRanges(b.regions), a, b.psize, b.byteStep)
  {
    hide Whole, RoundDown;
    var ranges := ReadableRanges(b.regions);
    forall k | 0 <= k < |b.regions| && b.regions[k].readable
      ensures SlotAt(b, k, a) <==>
        PointerTasks.SlotOf(Range(b.regions[k].start, b.regions[k].end), a, b.psize, b.byteStep)
    {
      var r := b.regions[k];
      assert Range(r.start, r.end) in ranges;
      if b.byteStep {
        if r.start <= a { WholeBytes(a - r.start); }
      } else {
        AlignedFirst(b, r);
        if r.start <= a { WholeAdds(r.start, a - r.start, b.psize); }
      }
    }
    if PointerTasks.SlotIn(ranges, a, b.psize, b.byteStep) {
      var x :| x in ranges && PointerTasks.SlotOf(x, a, b.psize, b.byteStep);
      var k :| 0 <= k < |b.regions| && b.regions[k].readable && x == Range(b.regions[k].start, b.regions[k].end);
      assert SlotAt(b, k, a);
    }
    if k :| 0 <= k < |b.regions| && SlotAt(b, k, a) {
      assert Range(b.regions[k].start, b.regions[k].end) in ranges;
    }
  }

  lemma AlignedFirst(b: Build, r: Region)
    requires PointerSize(b.psize) && !b.byteStep && Whole(r.start, b.psize)
    ensures First(b, r) == r.start
  {
    RoundDownIs(r.start + b.psize - 1, r.start, b.psize);
  }

  /** An exact index is what the scan may use, and has the slots that reading the readable regions would visit. */
  lemma IndexServesScan(b: Build, index: seq<Entry>, m: PointerScan.Config)
    requires Proper(b) && Exact(b, index) && PointerTasks.AlignedRanges(ReadableRanges(b.regions), b.psize, b.byteStep)
    requires m.mem == b.mem && m.psize == b.psize && m.byteStep == b.byteStep && m.index.None?
    requires m.tasks == PointerTasks.TasksOf(ReadableRanges(b.regions), b.psize, b.byteStep)
    ensures PointerScan.GoodConfig(m) && PointerScan.GoodConfig(m.(index := Some(index)))
    ensures PointerScan.SameSlots(m, m.(index := Some(index)))
  {
    hide SlotValue, SlotAt, PointerTasks.TasksOf, PointerTasks.SlotIn, PointerTasks.AlignedRanges;
    IndexIsTrue(b, index);
    RangesBelow(b);
    PointerChains.TasksAreGood(ReadableRanges(b.regions), b.psize, b.byteStep);
    var x := m.(index := Some(index));
    forall a: nat | SlotValue(b.mem, a, b.psize) != 0 ensures PointerScan.Scanned(m, a) <==> PointerScan.Scanned(x, a) {
      PointerTasks.TasksVisitSlots(ReadableRanges(b.regions), b.psize, b.byteStep, a);
      SameRegionSlots(b, a);
      IndexedIff(b, index, a);
    }
  }

  lemma RangesBelow(b: Build)
    requires Proper(b)
    ensures forall i :: 0 <= i < |ReadableRanges(b.regions)| ==> ReadableRanges(b.regions)[i].end <= TAG_LIMIT
  {
    forall i | 0 <= i < |ReadableRanges(b.regions)| ensures ReadableRanges(b.regions)[i].end <= TAG_LIMIT {
      assert ReadableRanges(b.regions)[i] in ReadableRanges(b.regions);
    }
  }

  lemma IndexIsTrue(b: Build, index: seq<Entry>)
    requires Proper(b) && Exact(b, index)
    ensures PointerScan.TrueEntries(b.mem, b.psize, index)
  {
    hide SlotValue, SlotAt;
    forall e | e in index ensures e.address < TAG_LIMIT {
      var k :| 0 <= k < |b.regions| && SlotAt(b, k, e.address);
      SlotBelow(b, k, e.address);
    }
  }

  lemma IndexedIff(b: Build, index: seq<Entry>, a: nat)
    requires Proper(b) && Exact(b, index) && SlotValue(b.mem, a, b.psize) != 0
    ensures (exists e :: e in index && e.address == a) <==> exists k :: 0 <= k < |b.regions| && SlotAt(b, k, a)
  {
    hide SlotValue, SlotAt;
    if k :| 0 <= k < |b.regions| && SlotAt(b, k, a) {
      SlotBelow(b, k, a);
      var e := Entry(SlotValue(b.mem, a, b.psize), a);
      assert IsEntry(b, e) && e in index;
    }
  }

  /** From the agent's build to the scan: over an exact index there are the same chains as over the readable regions. */
  lemma IndexGivesSameChains(b: Build, index: seq<Entry>, maxOffset: u64, targets: seq<u64>, a: nat, offsets: seq<i64>)
    requires Proper(b) && Exact(b, index) && PointerTasks.AlignedRanges(ReadableRanges(b.regions), b.psize, b.byteStep)
    ensures PointerScan.TrueEntries(b.mem, b.psize, index)
    ensures
      PointerChains.ChainOver(b.mem, b.psize, maxOffset, targets, PointerChains.IndexSlots(index), a, offsets) <==>
      PointerChains.ChainOver(b.mem, b.psize, maxOffset, targets,
        PointerChains.RegionSlots(ReadableRanges(b.regions), b.psize, b.byteStep), a, offsets)
  {
    hide SlotValue, SlotAt, PointerTasks.SlotIn, PointerTasks.AlignedRanges;
    IndexIsTrue(b, index);
    var byIndex := PointerChains.IndexSlots(index);
    var byRegion := PointerChains.RegionSlots(ReadableRanges(b.regions), b.psize, b.byteStep);
    forall x: nat | SlotValue(b.mem, x, b.psize) != 0 ensures x in byIndex <==> x in byRegion {
      SameRegionSlots(b, x);
      IndexedIff(b, index, x);
    }
    PointerChains.SameSlotsSameChains(b.mem, b.psize, maxOffset, targets, byIndex, byRegion, a, offsets);
  }

  // ----- what the agent serves

  /** One page: clamped to what is there and to the most a response holds; 0 asks for that most. */
  method Query(index: seq<Entry>, startIndex: u64, maxCount: nat) returns (total: nat, page: seq<Entry>)
    ensures total == |index|
    ensures startIndex >= |index| ==> page == []
    ensures startIndex < |index| ==>
      var n := Min(if maxCount == 0 then MAX_RETURN else Min(maxCount, MAX_RETURN), |index| - startIndex);
      page == index[startIndex..startIndex + n]
  {
    total := |index|;
    var start: nat := if startIndex > total then total else startIndex;
    var count := if maxCount == 0 then MAX_RETURN else maxCount;
    if count > MAX_RETURN {
      count := MAX_RETURN;
    }
    var returned := Min(count, total - start);
    page := index[start..start + returned];
  }
}
