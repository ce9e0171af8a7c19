/**
 The pointer index the client holds between scans: taken over from a file, downloaded from the agent page by page, and
 reused as long as it suits the next scan.
 */
module ClientIndex {
  import opened Machine
  import opened Ordering
  import opened PointerIndexFile
  import opened PointerLevels
  import opened AgentIndex

  /** What a scan needs of an index. */
  datatype Wish = Wish(pid: nat, psize: nat, byteStep: bool, strict: bool)

  /** The entries held, and the notes of where they come from. */
  datatype Held = Held(entries: seq<Entry>, pid: nat, psize: nat, byteStep: bool, strict: bool)

  const NOTHING := Held([], 0, 0, false, false)

  /** What the index file comes to: it is not there, does not suit process or pointer size, or is read. */
  datatype File = Absent | Unsuited | Loaded(entries: seq<Entry>, byteStep: bool, strict: bool)

  /** How a download ends: not begun, broken off before a page, or done. */
  datatype Ending = NotBegun | Broken(page: nat) | Complete

  predicate Usable(h: Held, w: Wish) { h.entries != [] && h.pid == w.pid && h.psize == w.psize }

  predicate Flagged(h: Held, w: Wish) { (w.byteStep ==> h.byteStep) && (w.strict ==> h.strict) }

  predicate Suits(h: Held, w: Wish) { Usable(h, w) && Flagged(h, w) }

  /** A file whose flags do not do leaves nothing, not even what was held. */
  function AfterFile(h: Held, w: Wish, file: File): Held {
    if Suits(h, w) || !file.Loaded? then h
    else
      var f := Held(file.entries, w.pid, w.psize, file.byteStep, file.strict);
      if Flagged(f, w) then f else NOTHING
  }

  /** The pages that came before the download broke off. */
  function Pages(served: seq<Entry>, n: nat): seq<Entry> {
    if n * MAX_RETURN <= |served| then served[..n * MAX_RETURN] else served
  }

  /** Only a complete download takes over the notes; a broken one has already replaced the entries. */
  function AfterAgent(h: Held, w: Wish, served: seq<Entry>, ending: Ending): Held {
    match ending
    case NotBegun => h
    case Broken(n) => h.(entries := Pages(served, n))
    case Complete => Held(served, w.pid, w.psize, w.byteStep, w.strict)
  }

  /** What is held when a scan has looked for its index. */
  function Prepared(h: Held, w: Wish, file: File, served: seq<Entry>, ending: Ending): Held {
    var f := AfterFile(h, w, file);
    if Suits(f, w) then f else AfterAgent(f, w, served, ending)
  }

  /** The download asked for pages as long as they came. */
  ghost predicate Ends(ending: Ending, served: seq<Entry>, sent: nat -> bool) {
    match ending
    case NotBegun => true
    case Broken(n) => n * MAX_RETURN < |served| && !sent(n) && forall i: nat :: i < n ==> sent(i)
    case Complete => forall i: nat :: i * MAX_RETURN < |served| ==> sent(i)
  }

  class Client {
    var entries: seq<Entry>
    var pid: nat
    var psize: nat
    var byteStep: bool
    var strict: bool

    function Now(): Held
      reads this
    {
      Held(entries, pid, psize, byteStep, strict)
    }

    constructor ()
      ensures Now() == NOTHING
    {
      entries, pid, psize, byteStep, strict := [], 0, 0, false, false;
    }

    method Hold(h: Held)
      modifies this
      ensures Now() == h
    {
      entries, pid, psize, byteStep, strict := h.entries, h.pid, h.psize, h.byteStep, h.strict;
    }

    /** Page by page, until everything announced is here or a request is lost. */
    method Download(served: seq<Entry>, sent: nat -> bool) returns (ending: Ending)
      requires |served| < U64_LIMIT
      modifies this`entries
      ensures ending != NotBegun && Ends(ending, served, sent)
      ensures entries == if ending.Broken? then Pages(served, ending.page) else served
    {
      var total, start, page := |served|, 0, 0;
      entries := [];
      while start < total
        invariant start == Min(total, page * MAX_RETURN) && entries == served[..start]
        invariant forall i: nat :: i < page ==> sent(i)
        decreases total - start
      {
        if !sent(page) {
          return Broken(page);
        }
        var _, got := Query(served, start, 4096);
        entries := entries + got;
        if |got| == 0 {
          break;
        }
        start, page := start + |got|, page + 1;
      }
      ending := Complete;
    }

    /** A failed, cut short or empty build is refused, and then what is held stays. */
    method BuildPointerIndexFromAgent(w: Wish, b: Build, answered: bool, sent: nat -> bool)
      returns (ending: Ending, ghost served: seq<Entry>)
      requires Proper(b) && b.maxEntries <= MAX_ENTRIES
      requires w.psize == b.psize && w.byteStep == b.byteStep && w.strict == b.strict
      modifies this
      ensures Now() == AfterAgent(old(Now()), w, served, ending) && Ends(ending, served, sent)
      ensures ending == NotBegun ==> Now() == old(Now())
      ensures ending.Broken? ==> Now() == old(Now()).(entries := served[..Min(ending.page * 4096, |served|)])
      ensures ending.Broken? ==> ending.page * 4096 < |served| && !sent(ending.page)
      ensures ending == Complete ==> Now() == Held(served, w.pid, w.psize, w.byteStep, w.strict)
      ensures !answered || StrictFails(b) ==> ending == NotBegun
      ensures b.strict || AllOrNothing(b) ==>
        (ending == NotBegun <==> !answered || StrictFails(b) || Seen(b) == [] || |Seen(b)| >= b.maxEntries)
      ensures (b.strict || AllOrNothing(b)) && ending != NotBegun ==>
        SortedBy(served, EntryLe) && NoDuplicates(served) && forall e :: e in served <==> e in Seen(b)
    {
      hide Seen, EntryLe, StrictFails;
      served := [];
      if !answered {
        return NotBegun, served;
      }
      var built, index, truncated, clean := BuildIndex(b);
      if clean && built { EmptyIff(index, Take(Seen(b), b.maxEntries)); }
      if !built || truncated || |index| == 0 {
        return NotBegun, served;
      }
      served := index;
      ending := Download(index, sent);
      if ending == Complete {
        pid, psize, byteStep, strict := w.pid, w.psize, w.byteStep, w.strict;
      }
    }

    /**
     What a scan does for its index: it keeps one that suits, else tries the file, else asks the agent, and builds one
     itself (`own`) only if what it then has is empty or another process's.
     */
    method Prepare(w: Wish, file: File, b: Build, answered: bool, sent: nat -> bool)
      returns (own: bool, ending: Ending, ghost asked: bool, ghost served: seq<Entry>)
      requires Proper(b) && b.maxEntries <= MAX_ENTRIES
      requires w.psize == b.psize && w.byteStep == b.byteStep && w.strict == b.strict
      modifies this
      ensures Now() == Prepared(old(Now()), w, file, served, ending)
      ensures own <==> entries == [] || pid != w.pid || psize != w.psize
      ensures !asked <==>
        (old(entries) != [] && old(pid) == w.pid && old(psize) == w.psize
         && (w.byteStep ==> old(byteStep)) && (w.strict ==> old(strict)))
        || (file.Loaded? && file.entries != [] && (w.byteStep ==> file.byteStep) && (w.strict ==> file.strict))
      ensures !asked ==> !own && (w.byteStep ==> byteStep) && (w.strict ==> strict)
      ensures !asked ==> Now() == old(Now()) || (file.Loaded? && entries == file.entries)
      ensures asked && ending == NotBegun && !file.Loaded? ==> Now() == old(Now())
      ensures asked && ending == NotBegun && file.Loaded? ==> entries == [] && own
      ensures asked && ending == Complete ==> Now() == Held(served, w.pid, w.psize, w.byteStep, w.strict)
      ensures Ends(ending, served, sent)
      ensures asked && (b.strict || AllOrNothing(b)) ==>
        (ending == NotBegun <==> !answered || StrictFails(b) || Seen(b) == [] || |Seen(b)| >= b.maxEntries)
      ensures (b.strict || AllOrNothing(b)) && ending != NotBegun ==>
        SortedBy(served, EntryLe) && NoDuplicates(served) && forall e :: e in served <==> e in Seen(b)
    {
      hide Seen, StrictFails, Proper, Ends, EntryLe;
      assert Ends(NotBegun, [], sent) by { NotBegunEnds(sent); }
      ending, served, asked := NotBegun, [], false;
      if !Suits(Now(), w) && file.Loaded? {
        var f := Held(file.entries, w.pid, w.psize, file.byteStep, file.strict);
        Hold(if Flagged(f, w) then f else NOTHING);
      }
      if !Suits(Now(), w) {
        asked := true;
        ending, served := BuildPointerIndexFromAgent(w, b, answered, sent);
      }
      own := entries == [] || pid != w.pid || psize != w.psize;
    }
  }

  lemma NotBegunEnds(sent: nat -> bool)
    ensures Ends(NotBegun, [], sent)
  {
  }

  lemma EmptyIff(index: seq<Entry>, all: seq<Entry>)
    requires SameElements(index, all)
    ensures index == [] <==> all == []
  {
    if index != [] { assert index[0] in all; }
    if all != [] { assert all[0] in index; }
  }

  // ----- whether the index a scan uses is the one it asked for

  /** What is held, and whether it is a whole index of the process, size and flags noted. */
  datatype Tracked = Tracked(held: Held, whole: bool)

  /** A scan with an index: its wish, what file and agent came to, and what it built itself, if that worked. */
  datatype Round = Round(w: Wish, file: File, served: seq<Entry>, ending: Ending, own: Option<seq<Entry>>)

  /** A file holds an index that was whole when it was saved. */
  function TrackFile(s: Tracked, w: Wish, file: File): Tracked {
    Tracked(AfterFile(s.held, w, file), s.whole || (!Suits(s.held, w) && file.Loaded?))
  }

  function TrackAgent(s: Tracked, r: Round): Tracked {
    Tracked(AfterAgent(s.held, r.w, r.served, r.ending), if r.ending.NotBegun? then s.whole else r.ending.Complete?)
  }

  function TrackPrepared(s: Tracked, r: Round): (p: Tracked)
    ensures p.held == Prepared(s.held, r.w, r.file, r.served, r.ending)
  {
    var f := TrackFile(s, r.w, r.file);
    if Suits(f.held, r.w) then f else TrackAgent(f, r)
  }

  /** If the client's own build fails, so does the scan, and what was held stays. */
  function AfterRound(s: Tracked, r: Round): Tracked {
    var p := TrackPrepared(s, r);
    if Usable(p.held, r.w) || r.own.None? then p
    else Tracked(Held(r.own.value, r.w.pid, r.w.psize, r.w.byteStep, r.w.strict), true)
  }

  /** An index the scan uses without building it is whole, and of the kind asked for. */
  predicate Right(s: Tracked, r: Round) {
    var p := TrackPrepared(s, r);
    Usable(p.held, r.w) ==> p.whole && Flagged(p.held, r.w)
  }

  /** A later scan that finds its index here finds a whole one. */
  ghost predicate Trusted(s: Tracked) {
    forall w :: Suits(s.held, w) ==> s.whole
  }

  /** The agent's build fails over an index of the same process and size, or breaks off and nothing else is built. */
  predicate Spoils(h: Held, r: Round) {
    var f := AfterFile(h, r.w, r.file);
    !Suits(f, r.w) &&
    match r.ending
      case NotBegun => Usable(f, r.w)
      case Broken(n) => Pages(r.served, n) != [] && ((f.pid == r.w.pid && f.psize == r.w.psize) || r.own.None?)
      case Complete => false
  }

  lemma TrustedIff(s: Tracked)
    ensures Trusted(s) <==> s.held.entries == [] || s.whole
  {
    var h := s.held;
    if h.entries != [] { assert Suits(h, Wish(h.pid, h.psize, h.byteStep, h.strict)); }
  }

  /** One scan leaves nothing to be mistaken for a whole index, and uses none such, exactly if it spoils nothing. */
  lemma RoundIff(s: Tracked, r: Round)
    requires Trusted(s)
    ensures Right(s, r) && Trusted(AfterRound(s, r)) <==> !Spoils(s.held, r)
  {
    TrustedIff(s);
    TrustedIff(AfterRound(s, r));
  }

  ghost predicate AlwaysRight(s: Tracked, run: seq<Round>)
    decreases |run|
  {
    run == [] || (Right(s, run[0]) && Trusted(AfterRound(s, run[0])) && AlwaysRight(AfterRound(s, run[0]), run[1..]))
  }

  predicate NeverSpoils(s: Tracked, run: seq<Round>)
    decreases |run|
  {
    run == [] || (!Spoils(s.held, run[0]) && NeverSpoils(AfterRound(s, run[0]), run[1..]))
  }

  /** Over any run of scans, every index used or kept for reuse is whole and of the kind asked for iff none spoils. */
  lemma {:induction false} RunIsRightIff(s: Tracked, run: seq<Round>)
    requires Trusted(s)
    ensures AlwaysRight(s, run) <==> NeverSpoils(s, run)
    decreases |run|
  {
    hide Right, Spoils, AfterRound, Trusted;
    if run != [] {
      RoundIff(s, run[0]);
      if Trusted(AfterRound(s, run[0])) { RunIsRightIff(AfterRound(s, run[0]), run[1..]); }
    }
  }

  const NEW := Tracked(NOTHING, false)

  function Slots(n: nat): seq<Entry>
    requires n < U64_LIMIT
  {
    seq(n, i requires 0 <= i < n => Entry(1, i))
  }

  /** A scan whose index is downloaded whole. */
  function Fetched(pid: nat, n: nat): Round
    requires n < U64_LIMIT
  {
    Round(Wish(pid, 8, false, false), Absent, Slots(n), Complete, None)
  }

  /** A strict scan whose build fails on the agent gets the index of the scan before, which was not strict. */
  lemma OldIndexIsUsed()
    ensures var s := AfterRound(NEW, Fetched(1, 10));
      !Right(s, Round(Wish(1, 8, false, true), Absent, [], NotBegun, None))
  {
    assert Slots(10)[0] == Entry(1, 0);
  }

  /** So does a byte-step scan get the one that has aligned slots only. */
  lemma AlignedIndexIsUsed()
    ensures var s := AfterRound(NEW, Fetched(1, 10));
      !Right(s, Round(Wish(1, 8, true, false), Absent, [], NotBegun, None))
  {
    assert Slots(10)[0] == Entry(1, 0);
  }

  /** If the download breaks off, it gets the pages that came, and a later scan takes them for the whole index. */
  lemma FirstPagesAreUsed()
    ensures var s := AfterRound(NEW, Fetched(1, 10));
      var r := Round(Wish(1, 8, false, true), Absent, Slots(5000), Broken(1), None);
      !Right(s, r) && !Right(AfterRound(s, r), Fetched(1, 10))
  {
    assert Slots(10)[0] == Entry(1, 0);
    assert Slots(5000)[0] == Entry(1, 0);
    assert Pages(Slots(5000), 1)[0] == Entry(1, 0);
  }

  /** They stay the first pages, even if further scans are refused a build. */
  lemma FirstPagesStay()
    ensures var s := AfterRound(NEW, Fetched(1, 10));
      var t := AfterRound(s, Round(Wish(1, 8, false, true), Absent, Slots(5000), Broken(1), None));
      var u := AfterRound(t, Round(Wish(1, 8, false, true), Absent, [], NotBegun, None));
      u == t && !Right(u, Fetched(1, 10))
  {
    assert Slots(10)[0] == Entry(1, 0);
    assert Slots(5000)[0] == Entry(1, 0);
    assert Pages(Slots(5000), 1)[0] == Entry(1, 0);
  }

  /** One process's pages, left by a broken download, pass for the index of the process noted before. */
  lemma OtherProcessIsUsed()
    ensures var s := AfterRound(NEW, Fetched(1, 10));
      var r := Round(Wish(2, 8, false, false), Absent, Slots(5000), Broken(1), None);
      Right(s, r) && !Right(AfterRound(s, r), Fetched(1, 10))
  {
    assert Slots(10)[0] == Entry(1, 0);
    assert Slots(5000)[0] == Entry(1, 0);
    assert Pages(Slots(5000), 1)[0] == Entry(1, 0);
  }
}
