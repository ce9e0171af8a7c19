/**
 What value scans find, said by the bytes in memory: which numbers stand in which relation to the target, and what a
 next scan keeps of the results.
 */
module ScanMeaning {
  import opened Machine
  import opened Grid
  import opened Collecting
  import opened ScanQuery
  import opened FirstScanTasks
  import opened MemoryScanner

  /** `x` stands in the relation `c` to `y`. That something changed is no relation to a target. */
  predicate Stands(x: int, c: Comparison, y: int) {
    || (x == y && (c == EQ || c == GE || c == LE))
    || (x < y && (c == NE || c == LT || c == LE))
    || (y < x && (c == NE || c == GT || c == GE))
  }

  /** The number of bytes of an unsigned, a signed and a floating-point number; 0 if the type is none. */
  function UnsignedBytes(ty: ValueType): nat {
    if ty == U8 then 1 else if ty == U16 then 2 else if ty == U32 then 4 else if ty == U64 then 8 else 0
  }

  function SignedBytes(ty: ValueType): nat { if ty == S32 then 4 else if ty == S64 then 8 else 0 }
  function FloatBytes(ty: ValueType): nat { if ty == FLOAT then 4 else if ty == DOUBLE then 8 else 0 }
  function NumberBytes(ty: ValueType): nat { UnsignedBytes(ty) + SignedBytes(ty) + FloatBytes(ty) }

  /** The two's-complement number with these `n` bytes of bits: the highest bit counts negatively. */
  function TwosComplement(n: nat, bits: nat): int {
    var half := if n == 4 then 0x8000_0000 else 0x8000_0000_0000_0000;
    if bits >= half then bits - half - half else bits
  }

  /** A single number with these bits is what is looked for. */
  predicate NumberIsWanted(q: Query, bits: nat) {
    if SignedBytes(q.ty) > 0 then
      Stands(TwosComplement(SignedBytes(q.ty), bits), q.condition, TwosComplement(SignedBytes(q.ty), q.target))
    else if FloatBytes(q.ty) > 0 then q.floatMatch(FloatBytes(q.ty), bits)
    else Stands(bits, q.condition, q.target)
  }

  lemma CompareIsStands(x: int, y: int, c: Comparison)
    ensures Compare(x, y, c) <==> Stands(x, c, y)
  {
  }

  lemma TypedMatchIs(q: Query, bits: nat)
    requires NumberBytes(q.ty) > 0
    ensures ValueSize(q.ty) == NumberBytes(q.ty) && !IsPattern(q.ty) && q.ty != ALL
    ensures TypedMatch(q, bits) <==> NumberIsWanted(q, bits)
  {
  }

  /** An ALL scan: some reading of the bytes `w` for which there are enough of them. */
  predicate SomeReading(q: Query, w: seq<byte>) {
    || UnsignedReading(q, w, 1) || UnsignedReading(q, w, 2) || UnsignedReading(q, w, 4) || UnsignedReading(q, w, 8)
    || SignedReading(q, w, 4) || SignedReading(q, w, 8)
    || (q.all.float && (FloatReading(q, w, 4) || FloatReading(q, w, 8)))
  }

  function Limit(n: nat): nat {
    if n == 1 then 0x100 else if n == 2 then 0x1_0000 else if n == 4 then 0x1_0000_0000 else 0x1_0000_0000_0000_0000
  }

  /** The target is cut to as many bytes as are read. */
  predicate UnsignedReading(q: Query, w: seq<byte>, n: nat) {
    q.all.unsigned.Some? && n <= |w| && Stands(LoadLE(w[..n]), q.condition, q.all.unsigned.value % Limit(n))
  }

  predicate SignedReading(q: Query, w: seq<byte>, n: nat) {
    q.all.signed.Some? && n <= |w| &&
    Stands(TwosComplement(n, LoadLE(w[..n])), q.condition, TwosComplement(n, q.all.signed.value % Limit(n)))
  }

  predicate FloatReading(q: Query, w: seq<byte>, n: nat) { n <= |w| && q.floatMatch(n, LoadLE(w[..n])) }

  lemma AllMatchIs(q: Query, w: seq<byte>)
    ensures AllMatch(q, w) <==> SomeReading(q, w)
  {
    hide LoadLE, Compare, Stands;
    Pow256Values();
    forall x, y ensures Compare(x, y, q.condition) <==> Stands(x, q.condition, y) {
      CompareIsStands(x, y, q.condition);
    }
    if q.all.signed.Some? { WrappedTwice(q.all.signed.value); }
  }

  lemma WrappedTwice(t: i64)
    ensures TwosComplement(8, t % 0x1_0000_0000_0000_0000) == t
  {
  }

  // ----- the first scan

  /** A number is found where one lies wholly in the region, on its grid, and stands in the relation asked for. */
  lemma NumberIsFoundIff(mem: Memory, q: Query, byteStep: bool, start: nat, end: nat, h: Hit)
    requires NumberBytes(q.ty) > 0
    ensures var n := NumberBytes(q.ty);
      h in RegionHits(mem, q, byteStep, start, end) <==>
        && start <= h.addr && h.addr + n <= end && (byteStep || (h.addr - start) % n == 0)
        && h.value == LoadLE(Bytes(mem, h.addr, n)) && NumberIsWanted(q, h.value)
  {
    hide LoadLE, TypedMatch, NumberIsWanted, RegionHits, Whole;
    var n := NumberBytes(q.ty);
    RegionHitsMeaning(mem, q, byteStep, start, end, h);
    TypedMatchIs(q, h.value);
    if start <= h.addr {
      WholeIsMultiple(h.addr - start, Step(q, byteStep));
      var w := Bytes(mem, h.addr, n);
      assert w[..n] == w;
      TypedMatchIs(q, LoadLE(w));
    }
  }

  /** A pattern is found exactly where its bytes lie in the region; recorded are the first eight of them. */
  lemma PatternIsFoundIff(mem: Memory, q: Query, byteStep: bool, start: nat, end: nat, h: Hit)
    requires q.ty in {STRING, AOB, BINARY} && q.pattern != []
    ensures h in RegionHits(mem, q, byteStep, start, end) <==>
      && start <= h.addr && h.addr + |q.pattern| <= end && Bytes(mem, h.addr, |q.pattern|) == q.pattern
      && h.value == LoadLE(if |q.pattern| <= 8 then q.pattern else q.pattern[..8])
  {
    hide LoadLE, RegionHits, Whole;
    RegionHitsMeaning(mem, q, byteStep, start, end, h);
    if start <= h.addr {
      WholeBytes(h.addr - start);
      var w := Bytes(mem, h.addr, |q.pattern|);
      assert w[..|q.pattern|] == w;
      assert |w| <= 8 ==> w[..|w|] == w;
    }
  }

  /** An ALL scan finds every address at which some reading of the up to eight bytes there is what is asked for. */
  lemma AnyReadingIsFoundIff(mem: Memory, q: Query, byteStep: bool, start: nat, end: nat, h: Hit)
    requires q.ty == ALL
    ensures h in RegionHits(mem, q, byteStep, start, end) <==>
      && start <= h.addr < end
      && var w := Bytes(mem, h.addr, if end - h.addr < 8 then end - h.addr else 8);
        SomeReading(q, w) && h.value == LoadLE(w)
  {
    hide LoadLE, RegionHits, Whole, AllMatch, SomeReading;
    RegionHitsMeaning(mem, q, byteStep, start, end, h);
    if start <= h.addr < end {
      WholeBytes(h.addr - start);
      var w := Bytes(mem, h.addr, if end - h.addr < 8 then end - h.addr else 8);
      assert w[..|w|] == w;
      AllMatchIs(q, w);
    }
  }

  /** Searched is what the selected regions have in common with the scan's range. */
  lemma SelectedIsSearched(mem: Memory, q: Query, byteStep: bool, regions: seq<Region>, low: nat, high: nat, h: Hit)
    requires MinMatch(q) > 0
    ensures h in AllHits(mem, q, byteStep, regions, low, high) <==>
      exists r :: r in regions && r.selected && h in
        RegionHits(mem, q, byteStep, if r.start < low then low else r.start, if r.end < high then r.end else high)
  {
    hide RegionHits;
    CollectMember(regions, (r: Region) => ClipHits(mem, q, byteStep, Clip(r, low, high)), h);
    forall r: Region | r in regions
      ensures h in ClipHits(mem, q, byteStep, Clip(r, low, high)) <==>
        r.selected && h in
        RegionHits(mem, q, byteStep, if r.start < low then low else r.start, if r.end < high then r.end else high)
    {
      NothingBetween(mem, q, byteStep, Max(r.start, low), Min(r.end, high));
    }
  }

  lemma NothingBetween(mem: Memory, q: Query, byteStep: bool, start: nat, end: nat)
    requires MinMatch(q) > 0
    ensures end <= start ==> RegionHits(mem, q, byteStep, start, end) == []
  {
  }

  // ----- a next scan

  /** The bytes a next scan asks for at every address. */
  function Wanted(q: Query): nat { if q.ty == ALL then 8 else if IsText(q.ty) then |q.pattern| else NumberBytes(q.ty) }

  predicate IsText(ty: ValueType) { ty == STRING || ty == AOB || ty == BINARY }

  /** An entry that cannot be read: nothing comes back, or not enough for a number. */
  predicate Unreadable(q: Query, read: Rereads, h: Hit) {
    match read(h.addr, Wanted(q))
    case None => true
    case Some(w) => NumberBytes(q.ty) > 0 && |w| < NumberBytes(q.ty)
  }

  /** The bytes `w` read at an entry last seen as `previous` satisfy the next scan. */
  predicate Satisfies(q: Query, previous: nat, w: seq<byte>) {
    if q.ty == ALL then SomeReading(q, w)
    else if IsText(q.ty) then
      (q.condition == EQ && |w| >= |q.pattern| && w[..|q.pattern|] == q.pattern)
      || (q.condition == NE && !(|w| >= |q.pattern| && w[..|q.pattern|] == q.pattern))
    else
      |w| >= NumberBytes(q.ty) &&
      var bits := LoadLE(w[..NumberBytes(q.ty)]);
      if q.condition == CHANGED then bits != previous
      else if q.condition == UNCHANGED then bits == previous
      else NumberIsWanted(q, bits)
  }

  /** What is then noted: the number, or the first eight bytes. */
  function NewValue(q: Query, w: seq<byte>): nat {
    if NumberBytes(q.ty) > 0 && |w| >= NumberBytes(q.ty) then LoadLE(w[..NumberBytes(q.ty)])
    else LoadLE(if |w| <= 8 then w else w[..8])
  }

  lemma TypeIsOne(ty: ValueType)
    ensures NumberBytes(ty) > 0 <==> !IsPattern(ty) && ty != ALL
    ensures IsText(ty) <==> IsPattern(ty)
    ensures ValueSize(ty) == if NumberBytes(ty) > 0 then NumberBytes(ty) else 1
  {
  }

  /** What becomes of one entry. */
  lemma OutcomeIs(q: Query, read: Rereads, h: Hit)
    ensures OutcomeOf(NextStep(q, read), h) ==
      if Unreadable(q, read, h) then Bad
      else if Satisfies(q, h.value, read(h.addr, Wanted(q)).value) then Keep(NewValue(q, read(h.addr, Wanted(q)).value))
      else Drop
  {
    hide LoadLE, AllMatch, SomeReading, TypedMatch, NumberIsWanted, NumberBytes;
    TypeIsOne(q.ty);
    var r := read(h.addr, Wanted(q));
    if r.Some? {
      var w := r.value;
      assert |w| <= 8 ==> w[..|w|] == w;
      AllMatchIs(q, w);
      if NumberBytes(q.ty) > 0 && |w| >= NumberBytes(q.ty) { TypedMatchIs(q, LoadLE(w[..NumberBytes(q.ty)])); }
    }
  }

  lemma UnreadableFails(q: Query, read: Rereads, hits: seq<Hit>)
    ensures SomeBad(NextStep(q, read), hits) <==> exists h :: h in hits && Unreadable(q, read, h)
  {
    hide OutcomeOf, Unreadable, Satisfies, NewValue;
    forall h | h in hits ensures OutcomeOf(NextStep(q, read), h) == Bad <==> Unreadable(q, read, h) {
      OutcomeIs(q, read, h);
    }
  }

  /** What one entry leaves. */
  function Left(q: Query, read: Rereads, h: Hit): seq<Hit> {
    if Unreadable(q, read, h) then []
    else
      var w := read(h.addr, Wanted(q)).value;
      if Satisfies(q, h.value, w) then [Hit(h.addr, NewValue(q, w))] else []
  }

  /** The results of a next scan are what the old ones leave, in their old order. */
  lemma NarrowIs(q: Query, read: Rereads, hits: seq<Hit>)
    ensures Narrow(NextStep(q, read), hits) == Collect(hits, (h: Hit) => Left(q, read, h))
  {
    hide OutcomeOf, Unreadable, Satisfies, NewValue;
    var step := NextStep(q, read);
    forall i | 0 <= i < |hits| ensures Keeps(step, hits[i]) == Left(q, read, hits[i]) { OutcomeIs(q, read, hits[i]); }
    CollectSame(hits, (h: Hit) => Keeps(step, h), (h: Hit) => Left(q, read, h));
  }

  /** So an entry is left exactly if an old one at its address can be read and satisfies the query. */
  lemma IsLeftIff(q: Query, read: Rereads, hits: seq<Hit>, n: Hit)
    ensures n in Narrow(NextStep(q, read), hits) <==> exists h ::
      h in hits && n.addr == h.addr && !Unreadable(q, read, h)
      && Satisfies(q, h.value, read(h.addr, Wanted(q)).value)
      && n.value == NewValue(q, read(h.addr, Wanted(q)).value)
  {
    hide Unreadable, Satisfies, NewValue;
    NarrowIs(q, read, hits);
    CollectMember(hits, (h: Hit) => Left(q, read, h), n);
  }

  /** The entry can be read, and holds the number it held before. */
  predicate StillHolds(q: Query, read: Rereads, h: Hit) {
    match read(h.addr, NumberBytes(q.ty))
    case None => false
    case Some(w) => |w| >= NumberBytes(q.ty) && LoadLE(w[..NumberBytes(q.ty)]) == h.value
  }

  /** Of unchanged entries the old ones themselves are left. */
  lemma UnchangedAreOld(q: Query, read: Rereads, hits: seq<Hit>)
    requires NumberBytes(q.ty) > 0 && q.condition == UNCHANGED
    ensures Narrow(NextStep(q, read), hits) == Collect(hits, (h: Hit) => if StillHolds(q, read, h) then [h] else [])
  {
    hide Left, StillHolds, Narrow;
    NarrowIs(q, read, hits);
    forall i | 0 <= i < |hits|
      ensures Left(q, read, hits[i]) == if StillHolds(q, read, hits[i]) then [hits[i]] else []
    {
      OldIsLeft(q, read, hits[i]);
    }
    CollectSame(hits, (h: Hit) => Left(q, read, h), (h: Hit) => if StillHolds(q, read, h) then [h] else []);
  }

  lemma OldIsLeft(q: Query, read: Rereads, h: Hit)
    requires NumberBytes(q.ty) > 0 && q.condition == UNCHANGED
    ensures Left(q, read, h) == if StillHolds(q, read, h) then [h] else []
  {
    hide LoadLE, NumberIsWanted, NumberBytes, Satisfies, SomeReading, IsText;
    NumberReads(q, h.value);
  }

  /** Of a number read back unchanged. */
  lemma NumberReads(q: Query, previous: nat)
    requires NumberBytes(q.ty) > 0 && q.condition == UNCHANGED
    ensures Wanted(q) == NumberBytes(q.ty)
    ensures forall w :: |w| >= NumberBytes(q.ty) ==>
      (Satisfies(q, previous, w) <==> LoadLE(w[..NumberBytes(q.ty)]) == previous)
  {
    hide LoadLE, NumberIsWanted, SomeReading;
  }

  function Addresses(hits: seq<Hit>): (r: seq<nat>)
    ensures |r| == |hits| && forall i :: 0 <= i < |r| ==> r[i] == hits[i].addr
  {
    seq(|hits|, i requires 0 <= i < |hits| => hits[i].addr)
  }

  lemma AddressesOfBoth(a: seq<Hit>, b: seq<Hit>)
    ensures Addresses(a + b) == Addresses(a) + Addresses(b)
  {
  }

  lemma ChangedIsNotUnchanged(q: Query, previous: nat, w: seq<byte>)
    requires NumberBytes(q.ty) > 0 && |w| >= NumberBytes(q.ty)
    ensures Satisfies(q.(condition := CHANGED), previous, w) <==> !Satisfies(q.(condition := UNCHANGED), previous, w)
  {
    hide LoadLE, NumberIsWanted;
  }

  lemma SameReading(q: Query, c: Comparison, read: Rereads, h: Hit)
    ensures Wanted(q.(condition := c)) == Wanted(q)
    ensures Unreadable(q.(condition := c), read, h) <==> Unreadable(q, read, h)
    ensures NumberBytes(q.ty) > 0 && !Unreadable(q, read, h) ==>
      read(h.addr, Wanted(q)).Some? && |read(h.addr, Wanted(q)).value| >= NumberBytes(q.ty)
  {
    hide NumberBytes;
  }

  lemma OneOrTheOther(q: Query, read: Rereads, h: Hit)
    requires NumberBytes(q.ty) > 0 && !Unreadable(q, read, h)
    ensures Addresses(Left(q.(condition := CHANGED), read, h)) + Addresses(Left(q.(condition := UNCHANGED), read, h))
      == [h.addr]
  {
    hide Unreadable, Satisfies, NewValue, Wanted, NumberBytes;
    SameReading(q, CHANGED, read, h);
    SameReading(q, UNCHANGED, read, h);
    ChangedIsNotUnchanged(q, h.value, read(h.addr, Wanted(q)).value);
  }

  /** Of every entry that can be read either the CHANGED scan or the UNCHANGED one keeps the address, never both. */
  lemma {:induction false} ChangedOrUnchanged(q: Query, read: Rereads, hits: seq<Hit>)
    requires NumberBytes(q.ty) > 0 && forall h :: h in hits ==> !Unreadable(q, read, h)
    ensures multiset(Addresses(Narrow(NextStep(q.(condition := CHANGED), read), hits)))
      + multiset(Addresses(Narrow(NextStep(q.(condition := UNCHANGED), read), hits))) == multiset(Addresses(hits))
  {
    hide Unreadable, Left, Narrow, NumberBytes, Addresses;
    var c, u := q.(condition := CHANGED), q.(condition := UNCHANGED);
    if hits == [] {
      NothingLeft(c, read);
      NothingLeft(u, read);
    } else {
      var h, rest := hits[0], hits[1..];
      assert hits == [h] + rest && h in hits && forall x :: x in rest ==> x in hits;
      ChangedOrUnchanged(q, read, rest);
      NarrowStep(c, read, hits);
      NarrowStep(u, read, hits);
      AddressesOfBoth(Left(c, read, h), Narrow(NextStep(c, read), rest));
      AddressesOfBoth(Left(u, read, h), Narrow(NextStep(u, read), rest));
      AddressesOfBoth([h], rest);
      OneOrTheOther(q, read, h);
      OneMore(Addresses(Left(c, read, h)), Addresses(Left(u, read, h)), h.addr);
      assert Addresses([h]) == [h.addr];
    }
  }

  lemma NothingLeft(q: Query, read: Rereads)
    ensures Narrow(NextStep(q, read), []) == [] && Addresses([]) == []
  {
  }

  lemma NarrowStep(q: Query, read: Rereads, hits: seq<Hit>)
    requires hits != []
    ensures Narrow(NextStep(q, read), hits) == Left(q, read, hits[0]) + Narrow(NextStep(q, read), hits[1..])
  {
    hide Left, Narrow;
    NarrowIs(q, read, hits);
    NarrowIs(q, read, hits[1..]);
    assert hits == [hits[0]] + hits[1..];
  }

  lemma OneMore(a: seq<nat>, b: seq<nat>, x: nat)
    requires a + b == [x]
    ensures multiset(a) + multiset(b) == multiset{x}
  {
    assert multiset(a + b) == multiset(a) + multiset(b);
  }
}
