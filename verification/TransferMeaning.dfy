/**
 What a read or a write of the debugged process touches, said by the fields of the request: permissions, residence,
 pages and chunks, and what the system calls answer.
 */
module TransferMeaning {
  import opened Machine
  import opened Grid
  import opened SafeReader

  /** The region may be written, or read; a reader may waive that. */
  predicate Permitted(c: Call, r: Region) {
    if c.writing then r.writable else r.readable || c.ignorePerms
  }

  /** The requested address `x` lies in region `r`. */
  predicate Requested(c: Call, r: Region, x: nat) { c.base <= x < c.base + c.size && r.start <= x < r.end }

  /** What the call for [at, end) answered has brought or taken `x`. */
  predicate Covers(c: Call, at: nat, end: int, x: nat) {
    at <= end && match c.answer(at, end - at)
    case Got(n) => x < at + n
    case Failed(_) => false
  }

  /** The call ended the request: it failed, and not because the page is not there. */
  predicate EndsAll(c: Call, at: nat, end: int) {
    at <= end && match c.answer(at, end - at)
    case Got(_) => false
    case Failed(errno) => errno != 5 && errno != 14
  }

  function PageOf(x: nat, page: PageSize): (at: nat)
    ensures at <= x < at + page
  {
    x - x % page
  }

  /** Page by page: the part of x's page that lies in the region and in the request. */
  function PageStart(c: Call, r: Region, x: nat): nat { Max(Max(c.base, r.start), PageOf(x, c.page)) }
  function PageEnd(c: Call, r: Region, x: nat): int { Min(Min(c.base + c.size, r.end), PageOf(x, c.page) + c.page) }

  /** The whole steps that fit. */
  function Steps(n: nat, s: nat): (r: nat)
    requires s > 0
  {
    n - n % s
  }

  /** An eighth of the request, at least 64 KiB and at most 4 MiB, in whole pages. */
  function Chunk(size: nat, page: PageSize): nat {
    var eighth: nat := if size / 8 < 0x1_0000 then 0x1_0000 else if size / 8 > 0x40_0000 then 0x40_0000 else size / 8;
    Steps(if eighth < page then page else eighth, page)
  }

  /** Chunk by chunk, counted from where the request enters the region. */
  function ChunkStart(c: Call, r: Region, x: nat): nat {
    var first, chunk := Max(c.base, r.start), Chunk(c.size, c.page);
    if x < first || chunk == 0 then first else first + Steps(x - first, chunk)
  }

  function ChunkEnd(c: Call, r: Region, x: nat): int {
    Min(Min(c.base + c.size, r.end), ChunkStart(c, r, x) + Chunk(c.size, c.page))
  }

  lemma ChunkIs(size: nat, page: PageSize)
    ensures Chunk(size, page) == ChunkSize(size, page) > 0
  {
    hide RoundDown;
    var eighth := Min(Max(size / 8, 0x1_0000), 0x40_0000);
    RoundDownIsQuotient(Max(eighth, page), page);
  }

  /** Fast reads go chunk by chunk. Others, and writes, go page by page. */
  predicate ByChunks(c: Call) { !c.writing && c.fastMode && c.allowNonresident && !c.ignorePerms }

  /** A page that is not resident is passed over, unless a reader waives that. */
  predicate Present(c: Call, x: nat) { (!c.writing && c.allowNonresident) || c.resident(PageOf(x, c.page)) }

  function CallStart(c: Call, r: Region, x: nat): nat {
    if ByChunks(c) then ChunkStart(c, r, x) else PageStart(c, r, x)
  }

  function CallEnd(c: Call, r: Region, x: nat): int {
    if ByChunks(c) then ChunkEnd(c, r, x) else PageEnd(c, r, x)
  }

  /** `x` moves as part of region `r`. */
  predicate Moves(c: Call, r: Region, x: nat) {
    Permitted(c, r) && Requested(c, r, x) && Present(c, x) && Covers(c, CallStart(c, r, x), CallEnd(c, r, x), x)
  }

  /** The call for `x` ends the request. */
  predicate Breaks(c: Call, r: Region, x: nat) {
    Permitted(c, r) && Requested(c, r, x) && Present(c, x) && EndsAll(c, CallStart(c, r, x), CallEnd(c, r, x))
  }

  lemma PagePiece(c: Call, r: Region, x: nat)
    requires !ByChunks(c) && Requested(c, r, x)
    ensures PieceStart(c, r, x) == PageStart(c, r, x) <= x < PageEnd(c, r, x) == PieceEnd(c, r, x)
    ensures Asked(c, x) <==> Present(c, x)
  {
    hide RoundDown, PageOf;
    PageOfIs(x, c.page);
  }

  lemma PageOfIs(x: nat, page: PageSize)
    ensures PageOf(x, page) == RoundDown(x, page)
  {
    RoundDownIsQuotient(x, page);
  }

  lemma ChunkPiece(c: Call, r: Region, x: nat)
    requires ByChunks(c) && Requested(c, r, x)
    ensures PieceStart(c, r, x) == ChunkStart(c, r, x) <= x < ChunkEnd(c, r, x) == PieceEnd(c, r, x)
    ensures Asked(c, x) && Present(c, x)
  {
    hide RoundDown, ChunkSize, Chunk, PageOf;
    ChunkIs(c.size, c.page);
    RoundDownIsQuotient(x - Max(c.base, r.start), Chunk(c.size, c.page));
  }

  lemma TouchedIs(c: Call, r: Region, x: nat)
    ensures Within(c, r, x) <==> Permitted(c, r) && Requested(c, r, x)
    ensures Requested(c, r, x) <==> From(c, r) <= x < To(c, r)
  {
  }

  lemma CallIs(c: Call, r: Region, x: nat)
    requires Requested(c, r, x) && From(c, r) <= x < To(c, r)
    ensures PieceStart(c, r, x) == CallStart(c, r, x) && PieceEnd(c, r, x) == CallEnd(c, r, x)
    ensures CallStart(c, r, x) <= x < CallEnd(c, r, x) && (Asked(c, x) <==> Present(c, x))
  {
    hide PieceStart, PieceEnd, PageStart, PageEnd, ChunkStart, ChunkEnd, Present;
    if ByChunks(c) { ChunkPiece(c, r, x); } else { PagePiece(c, r, x); }
  }

  lemma RegionMoves(c: Call, r: Region, x: nat)
    ensures Within(c, r, x) && Moved(c, r, x) <==> Moves(c, r, x)
    ensures Within(c, r, x) && Fatal(c, r, x) <==> Breaks(c, r, x)
  {
    hide PieceStart, PieceEnd, CallStart, CallEnd, Asked, Present, From, To, Requested, Permitted;
    TouchedIs(c, r, x);
    if From(c, r) <= x < To(c, r) { CallIs(c, r, x); }
  }

  /** Which bytes move, and when a request succeeds. */
  lemma DeliveredIff(c: Call, x: nat)
    ensures Delivered(c, x) <==> exists k :: 0 <= k < |c.regions| && Moves(c, c.regions[k], x)
  {
    hide Moved, Moves;
    forall k | 0 <= k < |c.regions|
      ensures Within(c, c.regions[k], x) && Moved(c, c.regions[k], x) <==> Moves(c, c.regions[k], x)
    {
      RegionMoves(c, c.regions[k], x);
    }
  }

  lemma SurvivesIff(c: Call)
    ensures Survives(c) <==> forall k, x: nat :: 0 <= k < |c.regions| ==> !Breaks(c, c.regions[k], x)
  {
    hide Fatal, Breaks;
    forall k, x: nat | 0 <= k < |c.regions|
      ensures Within(c, c.regions[k], x) && Fatal(c, c.regions[k], x) <==> Breaks(c, c.regions[k], x)
    {
      RegionMoves(c, c.regions[k], x);
    }
  }

  /** A write changes writable regions only, and only what was asked for, to what was given. */
  lemma WritesWritable(c: Call, data: seq<byte>, before: Memory, now: Memory, upto: nat, x: nat)
    requires c.writing && Written(c, data, before, now, upto) && now(x) != before(x)
    ensures c.base <= x < c.base + c.size && now(x) == data[x - c.base]
    ensures exists k :: 0 <= k < |c.regions| && c.regions[k].writable && c.regions[k].start <= x < c.regions[k].end
  {
    hide CallStart, CallEnd, Present;
    DeliveredIff(c, x);
  }

  /** With every page there and every call in full it changes all of what was asked for in writable regions. */
  lemma WholeWrite(c: Call, data: seq<byte>, before: Memory, now: Memory, x: nat)
    requires c.writing && Written(c, data, before, now, c.base + c.size)
    requires (forall page :: c.resident(page)) && forall at, n :: c.answer(at, n) == Got(n)
    ensures now(x) ==
      if c.base <= x < c.base + c.size
         && exists k :: 0 <= k < |c.regions| && c.regions[k].writable && c.regions[k].start <= x < c.regions[k].end
      then data[x - c.base] else before(x)
  {
    AllMoves(c, x);
  }

  /** Whatever can be asked for moves when every page is there and every call returns in full. */
  lemma AllMoves(c: Call, x: nat)
    requires (forall page :: c.resident(page)) && forall at, n :: c.answer(at, n) == Got(n)
    ensures Delivered(c, x) <==> exists k ::
      0 <= k < |c.regions| && Permitted(c, c.regions[k]) && Requested(c, c.regions[k], x)
  {
    hide CallStart, CallEnd, Permitted, Requested;
    DeliveredIff(c, x);
    forall k | 0 <= k < |c.regions| && Permitted(c, c.regions[k]) && Requested(c, c.regions[k], x)
      ensures Moves(c, c.regions[k], x)
    {
      TouchedIs(c, c.regions[k], x);
      CallIs(c, c.regions[k], x);
    }
  }

  /** A read stores bytes of readable regions only, unless it ignores permissions, and each where it belongs. */
  lemma ReadsReadable(c: Call, mem: Memory, before: seq<byte>, now: seq<byte>, upto: nat, i: nat)
    requires !c.writing && Filled(c, mem, before, now, upto) && i < c.size && now[i] != before[i]
    ensures now[i] == mem(c.base + i)
    ensures exists k ::
      0 <= k < |c.regions| && (c.regions[k].readable || c.ignorePerms)
      && c.regions[k].start <= c.base + i < c.regions[k].end
  {
    hide CallStart, CallEnd, Present;
    DeliveredIff(c, c.base + i);
  }

  lemma WholeRead(c: Call, mem: Memory, before: seq<byte>, now: seq<byte>, i: nat)
    requires !c.writing && Filled(c, mem, before, now, c.base + c.size) && i < c.size
    requires (forall page :: c.resident(page)) && forall at, n :: c.answer(at, n) == Got(n)
    ensures now[i] ==
      if exists k :: 0 <= k < |c.regions| && (c.regions[k].readable || c.ignorePerms)
           && c.regions[k].start <= c.base + i < c.regions[k].end
      then mem(c.base + i) else before[i]
  {
    AllMoves(c, c.base + i);
  }
}
