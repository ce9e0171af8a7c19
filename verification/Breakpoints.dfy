/**
 The ptrace breakpoint manager. What each operation does is a function on its state; the class performs
 them, and the lemmas say what they keep. Thread attachment is reduced to whether it succeeds; the words of
 each traced process are part of the state.
 */
module Breakpoints {
  import opened Machine
  import opened BreakpointText

  type Texts = map<nat, Text>

  datatype Event = Event(address: nat, size: nat, count: u64)

  datatype State = State(pid: nat, bps: seq<Breakpoint>, reported: map<nat, u64>, texts: Texts)

  /** The length kept for an execution breakpoint. */
  function ClampSize(size: nat): nat { if size == 1 || size == 2 || size == 4 || size == 8 then size else 4 }

  function Addresses(bps: seq<Breakpoint>): set<nat> { set i | 0 <= i < |bps| :: bps[i].address }

  // ----- what the operations do

  /** The first breakpoint at `a`, or one past the last. */
  function Find(bps: seq<Breakpoint>, a: nat): (i: nat)
    ensures i <= |bps| && (i < |bps| ==> bps[i].address == a)
    ensures forall k :: 0 <= k < i ==> bps[k].address != a
  {
    if bps == [] || bps[0].address == a then 0 else Find(bps[1..], a) + 1
  }

  /** The first breakpoint at `a` of that size. */
  function FindEntry(bps: seq<Breakpoint>, a: nat, size: nat): (i: nat)
    ensures i <= |bps| && (i < |bps| ==> bps[i].address == a && bps[i].size == size)
    ensures forall k :: 0 <= k < i ==> !(bps[k].address == a && bps[k].size == size)
  {
    if bps == [] || (bps[0].address == a && bps[0].size == size) then 0 else FindEntry(bps[1..], a, size) + 1
  }

  function Erase(bps: seq<Breakpoint>, i: nat): seq<Breakpoint>
    requires i < |bps|
  {
    bps[..i] + bps[i + 1..]
  }

  function WriteIn(texts: Texts, p: nat, a: nat, insn: u32): Texts {
    if p in texts then texts[p := Write(texts[p], a, insn)] else texts
  }

  /** Every saved instruction written back, in order. */
  function Restored(texts: Texts, p: nat, bps: seq<Breakpoint>): Texts {
    if bps == [] then texts else Restored(WriteIn(texts, p, bps[0].address, bps[0].saved), p, bps[1..])
  }

  function AfterClearAll(s: State): State { State(0, [], map[], Restored(s.texts, s.pid, s.bps)) }

  /** Work for another process first clears the present one's breakpoints. */
  function AfterTakeOver(s: State, p: nat): State {
    if s.pid != 0 && s.pid != p then AfterClearAll(s).(pid := p) else s.(pid := p)
  }

  function AfterSet(s: State, p: nat, addr: u64, exec: bool, size: nat, attachOk: bool, pokeOk: bool): (State, bool) {
    var a, len := StripTag(addr), ClampSize(size);
    if !exec || !Aligned(a) then (s, false)
    else
      var t := AfterTakeOver(s, p);
      if FindEntry(t.bps, a, len) < |t.bps| then (t, true)
      else if p == 0 || !attachOk then (t, false)
      else if p !in t.texts || !Mapped(t.texts[p], a) || !pokeOk then (if t.bps == [] then t.(pid := 0) else t, false)
      else
        (t.(bps := t.bps + [Breakpoint(a, len, Insn(t.texts[p], a), 0)], texts := WriteIn(t.texts, p, a, BRK)), true)
  }

  function AfterClear(s: State, p: nat, addr: u64, size: nat): (State, bool) {
    var i := FindEntry(s.bps, StripTag(addr), ClampSize(size));
    if (s.pid != 0 && s.pid != p) || i == |s.bps| then (s, false)
    else
      var rest, texts := Erase(s.bps, i), WriteIn(s.texts, s.pid, s.bps[i].address, s.bps[i].saved);
      (if rest == [] then State(0, [], map[], texts) else s.(bps := rest, texts := texts), true)
  }

  /** A trap belongs to the breakpoint at `pc`, or else to the one an instruction before. */
  function HitIndex(bps: seq<Breakpoint>, pc: nat): (i: nat)
    ensures i <= |bps|
  {
    if Find(bps, pc) < |bps| || pc < 4 then Find(bps, pc) else Find(bps, pc - 4)
  }

  /** The texts while the instruction of breakpoint `i` is stepped. */
  function During(s: State, i: nat): Texts
    requires i < |s.bps|
  {
    WriteIn(s.texts, s.pid, s.bps[i].address, s.bps[i].saved)
  }

  /** Restore, count, step, insert again. */
  function AfterStop(s: State, trap: u64): State {
    var i := HitIndex(s.bps, StripTag(trap));
    if i == |s.bps| then s
    else
      s.(bps := s.bps[i := s.bps[i].(hits := Add64(s.bps[i].hits, 1))],
        texts := WriteIn(During(s, i), s.pid, s.bps[i].address, BRK))
  }

  function ReportedIn(reported: map<nat, u64>, a: nat): u64 { if a in reported then reported[a] else 0 }

  /** Polling from the first of `bps` on, with room for `room` reports (none for no limit). */
  function Polled(bps: seq<Breakpoint>, reported: map<nat, u64>, room: Option<nat>): (seq<Event>, map<nat, u64>)
    requires room != Some(0)
  {
    if bps == [] then ([], reported)
    else
      var bp := bps[0];
      var last := ReportedIn(reported, bp.address);
      if bp.hits == last then Polled(bps[1..], reported, room)
      else
        var event, noted := Event(bp.address, bp.size, Sub64(bp.hits, last)), reported[bp.address := bp.hits];
        if room == Some(1) then ([event], noted)
        else
          var more := Polled(bps[1..], noted, if room.None? then None else Some(room.value - 1));
          ([event] + more.0, more.1)
  }

  function Room(limit: nat): Option<nat> { if limit == 0 then None else Some(limit) }

  function AfterPoll(s: State, limit: nat): (State, seq<Event>) {
    var (events, reported) := Polled(s.bps, s.reported, Room(limit));
    (s.(reported := reported), events)
  }

  /** The last thread of the process is gone: its breakpoints are forgotten, what was reported is not. */
  function AfterExit(s: State): State { s.(pid := 0, bps := [], texts := s.texts - {s.pid}) }

  // ----- what they keep

  ghost predicate Distinct(bps: seq<Breakpoint>) {
    forall i, j :: 0 <= i < j < |bps| ==> bps[i].address != bps[j].address
  }

  /** Every breakpoint sits on an aligned, mapped instruction and saved the original one. */
  ghost predicate SavedOriginals(bps: seq<Breakpoint>, original: Text) {
    forall i :: 0 <= i < |bps| ==>
      && Aligned(bps[i].address) && Mapped(original, bps[i].address)
      && bps[i].saved == Insn(original, bps[i].address)
  }

  /** What is active in process `p`. */
  function ActiveIn(p: nat, s: State): set<nat> { if p == s.pid then Addresses(s.bps) else {} }

  /** The text of every process is its original with BRK at exactly the addresses active in it. */
  ghost predicate Good(s: State, originals: Texts) {
    && s.texts.Keys <= originals.Keys
    && (forall p :: p in originals ==> GoodText(originals[p]))
    && (forall p :: p in s.texts && p in originals ==> PatchedAt(s.texts[p], originals[p], ActiveIn(p, s)))
    && (s.bps != [] ==> s.pid != 0 && s.pid in s.texts && s.pid in originals && SavedOriginals(s.bps, originals[s.pid]))
    && Distinct(s.bps)
  }

  /** A new manager has changed nothing. */
  lemma NewIsGood(texts: Texts)
    requires forall p, w :: p in texts && w in texts[p] ==> w % 8 == 0
    ensures Good(State(0, [], map[], texts), texts)
  {
    hide Insn;
    forall p | p in texts ensures PatchedAt(texts[p], texts[p], ActiveIn(p, State(0, [], map[], texts))) {
      assert ActiveIn(p, State(0, [], map[], texts)) == {};
    }
  }

  /** Instruction by instruction: `brk #0` at the addresses of the present process's breakpoints, else the original. */
  lemma GoodMeans(s: State, originals: Texts, p: nat, a: nat)
    requires Good(s, originals) && p in s.texts && a % 4 == 0 && a - a % 8 in originals[p]
    ensures p in originals && s.texts[p].Keys == originals[p].Keys && Mapped(s.texts[p], a) && Mapped(originals[p], a)
    ensures Insn(s.texts[p], a) ==
      if p == s.pid && exists i :: 0 <= i < |s.bps| && s.bps[i].address == a then 0xD420_0000
      else Insn(originals[p], a)
    ensures p == s.pid ==> forall i :: 0 <= i < |s.bps| && s.bps[i].address == a ==>
      s.bps[i].saved == Insn(originals[p], a)
  {
    hide Insn;
    PatchedKeys(s.texts[p], originals[p], ActiveIn(p, s));
  }

  lemma PatchedKeys(text: Text, original: Text, active: set<nat>)
    requires PatchedAt(text, original, active)
    ensures text.Keys == original.Keys
    ensures forall a :: Mapped(text, a) <==> Mapped(original, a)
  {
    hide Insn;
    assert text.Keys == original.Keys;
    forall a ensures Mapped(text, a) <==> Mapped(original, a) {
      assert WordOf(a) in text.Keys <==> WordOf(a) in original.Keys;
    }
  }

  /** Writing one instruction moves one address in or out of the active set. */
  lemma WriteOne(text: Text, original: Text, active: set<nat>, a: nat)
    requires PatchedAt(text, original, active) && Aligned(a) && Mapped(original, a)
    ensures Mapped(text, a)
    ensures PatchedAt(SetInsn(text, a, BRK), original, active + {a})
    ensures PatchedAt(SetInsn(text, a, Insn(original, a)), original, active - {a})
    ensures Insn(text, a) == if a in active then BRK else Insn(original, a)
    ensures Insn(SetInsn(text, a, Insn(original, a)), a) == Insn(original, a)
  {
    hide Insn, SetInsn, Aligned, Mapped;
    PatchedKeys(text, original, active);
    SetInsnMeaning(text, a, BRK, a);
    SetInsnMeaning(text, a, Insn(original, a), a);
    WritesKeepMapping(text, a, BRK);
    WritesKeepMapping(text, a, Insn(original, a));
    forall b: nat | Aligned(b) && Mapped(original, b)
      ensures Insn(SetInsn(text, a, BRK), b) == if b in active + {a} then BRK else Insn(original, b)
      ensures Insn(SetInsn(text, a, Insn(original, a)), b) == if b in active - {a} then BRK else Insn(original, b)
    {
      SetInsnMeaning(text, a, BRK, b);
      SetInsnMeaning(text, a, Insn(original, a), b);
    }
  }

  lemma WritesKeepMapping(text: Text, a: nat, insn: u32)
    requires Mapped(text, a)
    ensures SetInsn(text, a, insn).Keys == text.Keys
    ensures forall b :: Mapped(SetInsn(text, a, insn), b) <==> Mapped(text, b)
  {
  }

  lemma AddressesAppend(bps: seq<Breakpoint>, bp: Breakpoint)
    ensures Addresses(bps + [bp]) == Addresses(bps) + {bp.address}
  {
    forall a: nat ensures a in Addresses(bps + [bp]) <==> a in Addresses(bps) || a == bp.address {
      if a in Addresses(bps) {
        var i :| 0 <= i < |bps| && bps[i].address == a;
        assert (bps + [bp])[i].address == a;
      }
      if a == bp.address { assert (bps + [bp])[|bps|].address == a; }
    }
  }

  lemma AddressesErase(bps: seq<Breakpoint>, i: nat)
    requires i < |bps| && Distinct(bps)
    ensures Addresses(Erase(bps, i)) == Addresses(bps) - {bps[i].address} && Distinct(Erase(bps, i))
  {
    var rest := Erase(bps, i);
    forall k | 0 <= k < |rest| ensures rest[k] == bps[if k < i then k else k + 1] {
    }
    forall a: nat ensures a in Addresses(rest) <==> a in Addresses(bps) && a != bps[i].address {
      if a in Addresses(bps) && a != bps[i].address {
        var k :| 0 <= k < |bps| && bps[k].address == a;
        assert rest[if k < i then k else k - 1].address == a;
      }
    }
  }

  lemma GoodHere(s: State, originals: Texts)
    requires Good(s, originals) && s.bps != []
    ensures s.pid in s.texts && s.pid in originals && GoodText(originals[s.pid])
    ensures PatchedAt(s.texts[s.pid], originals[s.pid], Addresses(s.bps)) && SavedOriginals(s.bps, originals[s.pid])
  {
    hide PatchedAt;
    assert PatchedAt(s.texts[s.pid], originals[s.pid], ActiveIn(s.pid, s));
  }

  /** With nothing active every text is the original, and the process worked for does not matter. */
  lemma NothingActive(s: State, originals: Texts, pid: nat, reported: map<nat, u64>)
    requires Good(s, originals) && s.bps == []
    ensures Good(State(pid, [], reported, s.texts), originals)
    ensures forall p :: p in s.texts ==> p in originals && s.texts[p] == originals[p]
  {
    hide PatchedAt, GoodText;
    var t := State(pid, [], reported, s.texts);
    forall p | p in s.texts
      ensures p in originals && s.texts[p] == originals[p] && PatchedAt(s.texts[p], originals[p], ActiveIn(p, t))
    {
      assert p in s.texts.Keys && p in originals.Keys;
      assert PatchedAt(s.texts[p], originals[p], ActiveIn(p, s));
      assert ActiveIn(p, s) == {} == ActiveIn(p, t);
      NothingPatched(s.texts[p], originals[p], {});
    }
  }

  /** One process's text and breakpoints change; the others' stay. */
  lemma GoodStep(s: State, originals: Texts, bps: seq<Breakpoint>, text: Text)
    requires Good(s, originals) && s.pid != 0 && s.pid in s.texts && s.pid in originals
    requires PatchedAt(text, originals[s.pid], Addresses(bps)) && SavedOriginals(bps, originals[s.pid]) && Distinct(bps)
    ensures Good(s.(bps := bps, texts := s.texts[s.pid := text]), originals)
  {
    hide PatchedAt, GoodText, Insn, Aligned, Mapped;
    var t := s.(bps := bps, texts := s.texts[s.pid := text]);
    forall p | p in t.texts && p in originals ensures PatchedAt(t.texts[p], originals[p], ActiveIn(p, t)) {
      if p != s.pid {
        assert p in s.texts && PatchedAt(s.texts[p], originals[p], ActiveIn(p, s));
      }
    }
  }

  /** Restoring and forgetting one breakpoint keeps the books. */
  lemma ClearOne(s: State, originals: Texts, i: nat)
    requires Good(s, originals) && i < |s.bps|
    ensures Good(s.(bps := Erase(s.bps, i),
      texts := WriteIn(s.texts, s.pid, s.bps[i].address, s.bps[i].saved)), originals)
  {
    hide PatchedAt, GoodText, Insn, SetInsn, Aligned, Mapped;
    var bp := s.bps[i];
    GoodHere(s, originals);
    WriteOne(s.texts[s.pid], originals[s.pid], Addresses(s.bps), bp.address);
    AddressesErase(s.bps, i);
    forall k | 0 <= k < |Erase(s.bps, i)| ensures Erase(s.bps, i)[k] == s.bps[if k < i then k else k + 1] {}
    GoodStep(s, originals, Erase(s.bps, i), SetInsn(s.texts[s.pid], bp.address, bp.saved));
  }

  lemma {:induction false} GoodRestored(s: State, originals: Texts)
    requires Good(s, originals)
    ensures Good(State(s.pid, [], s.reported, Restored(s.texts, s.pid, s.bps)), originals)
    decreases |s.bps|
  {
    hide Good;
    if s.bps == [] {
      assert State(s.pid, [], s.reported, s.texts) == s;
    } else {
      ClearOne(s, originals, 0);
      assert Erase(s.bps, 0) == s.bps[1..];
      GoodRestored(s.(bps := s.bps[1..],
        texts := WriteIn(s.texts, s.pid, s.bps[0].address, s.bps[0].saved)), originals);
    }
  }

  /** Clearing everything gives back every text exactly. */
  lemma GoodClearAll(s: State, originals: Texts)
    requires Good(s, originals)
    ensures Good(AfterClearAll(s), originals)
    ensures forall p :: p in AfterClearAll(s).texts ==> p in originals && AfterClearAll(s).texts[p] == originals[p]
  {
    hide Good;
    GoodRestored(s, originals);
    NothingActive(State(s.pid, [], s.reported, Restored(s.texts, s.pid, s.bps)), originals, 0, map[]);
  }

  lemma GoodTakeOver(s: State, originals: Texts, p: nat)
    requires Good(s, originals)
    ensures Good(AfterTakeOver(s, p), originals)
  {
    hide PatchedAt, GoodText;
    if s.pid != 0 && s.pid != p {
      GoodClearAll(s, originals);
      NothingActive(AfterClearAll(s), originals, p, map[]);
    } else if s.bps == [] {
      NothingActive(s, originals, p, s.reported);
    }
  }

  /** A breakpoint is added if every step succeeds and it is not there yet. */
  predicate Adds(s: State, p: nat, addr: u64, exec: bool, size: nat, attachOk: bool, pokeOk: bool) {
    var a, t := StripTag(addr), AfterTakeOver(s, p);
    && exec && Aligned(a) && p != 0 && attachOk && pokeOk && p in t.texts && Mapped(t.texts[p], a)
    && FindEntry(t.bps, a, ClampSize(size)) == |t.bps|
  }

  /** Setting one more breakpoint keeps the books if and only if its address is not active under another size. */
  lemma GoodSet(s: State, originals: Texts, p: nat, addr: u64, exec: bool, size: nat, attachOk: bool, pokeOk: bool)
    requires Good(s, originals)
    ensures Good(AfterSet(s, p, addr, exec, size, attachOk, pokeOk).0, originals) <==>
      !(Adds(s, p, addr, exec, size, attachOk, pokeOk) && StripTag(addr) in Addresses(AfterTakeOver(s, p).bps))
  {
    hide PatchedAt, GoodText, Insn, SetInsn, Aligned, Mapped, StripTag, Restored, Good;
    var a, t := StripTag(addr), AfterTakeOver(s, p);
    GoodTakeOver(s, originals, p);
    if t.bps == [] { NothingActive(t, originals, 0, t.reported); }
    if Adds(s, p, addr, exec, size, attachOk, pokeOk) {
      SetOne(t, originals, a, ClampSize(size));
    }
  }

  lemma SetOne(t: State, originals: Texts, a: nat, size: nat)
    requires Good(t, originals) && t.pid != 0 && t.pid in t.texts && Aligned(a) && Mapped(t.texts[t.pid], a)
    ensures var bp := Breakpoint(a, size, Insn(t.texts[t.pid], a), 0);
      Good(t.(bps := t.bps + [bp], texts := WriteIn(t.texts, t.pid, a, BRK)), originals) <==> a !in Addresses(t.bps)
  {
    hide PatchedAt, GoodText, Insn, SetInsn, Aligned, Mapped;
    assert t.pid in t.texts.Keys && t.pid in originals.Keys;
    var text, original := t.texts[t.pid], originals[t.pid];
    var bp := Breakpoint(a, size, Insn(text, a), 0);
    var bps := t.bps + [bp];
    assert PatchedAt(text, original, ActiveIn(t.pid, t));
    PatchedKeys(text, original, Addresses(t.bps));
    WriteOne(text, original, Addresses(t.bps), a);
    AddressesAppend(t.bps, bp);
    if a in Addresses(t.bps) {
      var i :| 0 <= i < |t.bps| && t.bps[i].address == a;
      assert bps[i].address == bps[|t.bps|].address;
    } else {
      GoodStep(t, originals, bps, SetInsn(text, a, BRK));
    }
  }

  lemma GoodClear(s: State, originals: Texts, p: nat, addr: u64, size: nat)
    requires Good(s, originals)
    ensures Good(AfterClear(s, p, addr, size).0, originals)
  {
    hide PatchedAt, GoodText, StripTag, Good;
    var i := FindEntry(s.bps, StripTag(addr), ClampSize(size));
    if i < |s.bps| {
      ClearOne(s, originals, i);
      var t := s.(bps := Erase(s.bps, i), texts := WriteIn(s.texts, s.pid, s.bps[i].address, s.bps[i].saved));
      if t.bps == [] { NothingActive(t, originals, 0, map[]); }
    }
  }

  /** A stop runs the original instruction, leaves every text as it was, and counts for one breakpoint. */
  lemma GoodStop(s: State, originals: Texts, trap: u64)
    requires Good(s, originals)
    ensures Good(AfterStop(s, trap), originals) && AfterStop(s, trap).texts == s.texts
    ensures var i := HitIndex(s.bps, StripTag(trap)); i < |s.bps| ==>
      && s.pid in During(s, i) && s.pid in originals
      && Mapped(During(s, i)[s.pid], s.bps[i].address) && Mapped(originals[s.pid], s.bps[i].address)
      && Insn(During(s, i)[s.pid], s.bps[i].address) == Insn(originals[s.pid], s.bps[i].address)
  {
    hide PatchedAt, GoodText, Insn, SetInsn, Aligned, Mapped, StripTag;
    var i := HitIndex(s.bps, StripTag(trap));
    if i < |s.bps| {
      GoodHere(s, originals);
      var bp, text, original := s.bps[i], s.texts[s.pid], originals[s.pid];
      WriteOne(text, original, Addresses(s.bps), bp.address);
      var during := SetInsn(text, bp.address, bp.saved);
      WriteOne(during, original, Addresses(s.bps) - {bp.address}, bp.address);
      assert Addresses(s.bps) - {bp.address} + {bp.address} == Addresses(s.bps);
      var back := SetInsn(during, bp.address, BRK);
      SamePatches(back, text, original, Addresses(s.bps));
      assert s.texts[s.pid := during][s.pid := text] == s.texts;
      HitKeepsBooks(s, originals, i, Add64(bp.hits, 1));
    }
  }

  lemma SamePatches(s: Text, t: Text, original: Text, active: set<nat>)
    requires GoodText(original) && PatchedAt(s, original, active) && PatchedAt(t, original, active)
    ensures s == t
  {
    hide Insn, Aligned;
    PatchedKeys(s, original, active);
    PatchedKeys(t, original, active);
    InsnsDetermine(s, t);
  }

  /** Hit counters are no part of the text. */
  lemma HitKeepsBooks(s: State, originals: Texts, i: nat, hits: u64)
    requires Good(s, originals) && i < |s.bps|
    ensures Good(s.(bps := s.bps[i := s.bps[i].(hits := hits)]), originals)
  {
    hide PatchedAt, Insn, Mapped, Aligned;
    var after := s.bps[i := s.bps[i].(hits := hits)];
    assert forall k :: 0 <= k < |s.bps| ==> after[k].address == s.bps[k].address && after[k].saved == s.bps[k].saved;
    forall a ensures a in Addresses(after) <==> a in Addresses(s.bps) {
      if a in Addresses(s.bps) {
        var k :| 0 <= k < |s.bps| && s.bps[k].address == a;
        assert after[k].address == a;
      }
    }
    assert Addresses(after) == Addresses(s.bps);
    forall p ensures ActiveIn(p, s.(bps := after)) == ActiveIn(p, s) {}
  }

  lemma GoodExit(s: State, originals: Texts)
    requires Good(s, originals)
    ensures Good(AfterExit(s), originals)
  {
    hide PatchedAt, GoodText;
    var t := AfterExit(s);
    forall p | p in t.texts && p in originals ensures PatchedAt(t.texts[p], originals[p], ActiveIn(p, t)) {
      assert PatchedAt(s.texts[p], originals[p], ActiveIn(p, s));
      assert ActiveIn(p, s) == {} == ActiveIn(p, t);
    }
  }

  // ----- what the callers learn

  ghost predicate HasEntry(bps: seq<Breakpoint>, a: nat, size: nat) {
    exists i :: 0 <= i < |bps| && bps[i].address == a && bps[i].size == size
  }

  /** Setting succeeds exactly if the breakpoint is there afterwards: it was before, or it is added with no hits. */
  lemma SetOutcome(s: State, p: nat, addr: u64, exec: bool, size: nat, attachOk: bool, pokeOk: bool)
    ensures var (before, (t, ok)) := (AfterTakeOver(s, p), AfterSet(s, p, addr, exec, size, attachOk, pokeOk));
      && (ok <==> exec && Aligned(StripTag(addr)) && HasEntry(t.bps, StripTag(addr), ClampSize(size)))
      && (Adds(s, p, addr, exec, size, attachOk, pokeOk) ==>
        && ok && t.pid == p && |t.bps| == |before.bps| + 1 && t.bps[..|before.bps|] == before.bps
        && t.bps[|before.bps|].hits == 0
        && !HasEntry(before.bps, StripTag(addr), ClampSize(size)))
      && (exec && Aligned(StripTag(addr)) && !Adds(s, p, addr, exec, size, attachOk, pokeOk) ==> t.bps == before.bps)
  {
    hide StripTag, Restored, Mapped, Insn, Aligned, WriteIn;
    var before, t := AfterTakeOver(s, p), AfterSet(s, p, addr, exec, size, attachOk, pokeOk).0;
    if Adds(s, p, addr, exec, size, attachOk, pokeOk) {
      assert t.bps[|before.bps|].address == StripTag(addr) && t.bps[|before.bps|].size == ClampSize(size);
    }
  }

  /** A breakpoint is asked for under one of four lengths; any other length means four. */
  lemma OtherSizesAreFour(s: State, p: nat, addr: u64, exec: bool, size: nat, attachOk: bool, pokeOk: bool)
    ensures size !in {1, 2, 4, 8} ==>
      AfterSet(s, p, addr, exec, size, attachOk, pokeOk) == AfterSet(s, p, addr, exec, 4, attachOk, pokeOk)
      && AfterClear(s, p, addr, size) == AfterClear(s, p, addr, 4)
    ensures size in {1, 2, 4, 8} && Adds(s, p, addr, exec, size, attachOk, pokeOk) ==>
      var t := AfterSet(s, p, addr, exec, size, attachOk, pokeOk).0; t.bps != [] && t.bps[|t.bps| - 1].size == size
  {
    hide StripTag, Restored, Mapped, Insn, Aligned, WriteIn, FindEntry;
  }

  /**
   Clearing succeeds exactly if the entry was there; then its address alone is gone, and after the last one all is
   forgotten.
   */
  lemma ClearOutcome(s: State, p: nat, addr: u64, size: nat)
    requires Distinct(s.bps)
    ensures var (t, ok) := AfterClear(s, p, addr, size);
      && (ok <==> (s.pid == 0 || s.pid == p) && HasEntry(s.bps, StripTag(addr), ClampSize(size)))
      && (!ok ==> t == s)
      && (ok ==> Addresses(t.bps) == Addresses(s.bps) - {StripTag(addr) as nat} && |t.bps| == |s.bps| - 1)
      && (ok ==> forall b :: b in t.bps ==> b in s.bps)
      && (ok && t.bps == [] ==> t.pid == 0 && t.reported == map[])
  {
    hide StripTag, WriteIn;
    var i := FindEntry(s.bps, StripTag(addr), ClampSize(size));
    if i < |s.bps| { AddressesErase(s.bps, i); }
  }

  /**
   A trap is a hit exactly if a breakpoint is at `pc` or right before it; one counter goes up by one, the others stay.
   */
  lemma StopOutcome(s: State, trap: u64)
    ensures var pc: int := StripTag(trap);
      var i := HitIndex(s.bps, StripTag(trap));
      && (i < |s.bps| <==> pc in Addresses(s.bps) || pc - 4 in Addresses(s.bps))
      && (i < |s.bps| ==> s.bps[i].address == if pc in Addresses(s.bps) then pc else pc - 4)
      && |AfterStop(s, trap).bps| == |s.bps|
      && forall k :: 0 <= k < |s.bps| ==>
           AfterStop(s, trap).bps[k] == s.bps[k].(hits := if k == i then Add64(s.bps[k].hits, 1) else s.bps[k].hits)
  {
    hide StripTag, WriteIn;
    var pc := StripTag(trap);
    FindsAddress(s.bps, pc);
    if pc >= 4 { FindsAddress(s.bps, pc - 4); }
  }

  lemma FindsAddress(bps: seq<Breakpoint>, a: nat)
    ensures Find(bps, a) < |bps| <==> a in Addresses(bps)
  {
  }

  // ----- the manager

  class Manager {
    var pid: nat
    var bps: seq<Breakpoint>
    var reported: map<nat, u64>
    var texts: Texts

    constructor (texts: Texts)
      ensures Now() == State(0, [], map[], texts)
    {
      pid, bps, reported := 0, [], map[];
      this.texts := texts;
    }

    function Now(): State
      reads this
    {
      State(pid, bps, reported, texts)
    }

    method Detach()
      modifies this`pid, this`reported
      ensures pid == 0 && reported == map[]
    {
      pid, reported := 0, map[];
    }

    method ClearAll()
      modifies this
      ensures Now() == AfterClearAll(old(Now()))
    {
      for i := 0 to |bps|
        invariant bps == old(bps) && pid == old(pid)
        invariant Restored(texts, pid, bps[i..]) == Restored(old(texts), pid, bps)
      {
        texts := WriteIn(texts, pid, bps[i].address, bps[i].saved);
        assert bps[i..][1..] == bps[i + 1..];
      }
      bps := [];
      Detach();
    }

    method TakeOver(p: nat)
      modifies this
      ensures Now() == AfterTakeOver(old(Now()), p)
    {
      if pid != 0 && pid != p {
        ClearAll();
      }
      pid := p;
    }

    method Set(p: nat, addr: u64, exec: bool, size: nat, attachOk: bool, pokeOk: bool) returns (ok: bool)
      modifies this
      ensures (Now(), ok) == AfterSet(old(Now()), p, addr, exec, size, attachOk, pokeOk)
    {
      hide Mapped, Insn, Aligned, StripTag, Restored;
      var clean := StripTag(addr);
      if !exec || !Aligned(clean) {
        return false;
      }
      var len := ClampSize(size);
      TakeOver(p);
      for i := 0 to |bps|
        invariant Now() == AfterTakeOver(old(Now()), p)
        invariant forall k :: 0 <= k < i ==> !(bps[k].address == clean && bps[k].size == len)
      {
        if bps[i].address == clean && bps[i].size == len {
          return true;
        }
      }
      if pid == 0 || !attachOk {
        return false;
      }
      if p !in texts || !Mapped(texts[p], clean) || !pokeOk {
        if bps == [] {
          pid := 0;
        }
        return false;
      }
      var original := Insn(texts[p], clean);
      texts := WriteIn(texts, p, clean, BRK);
      bps := bps + [Breakpoint(clean, len, original, 0)];
      ok := true;
    }

    method Clear(p: nat, addr: u64, size: nat) returns (ok: bool)
      modifies this
      ensures (Now(), ok) == AfterClear(old(Now()), p, addr, size)
    {
      hide StripTag;
      if pid != 0 && pid != p {
        return false;
      }
      var len := ClampSize(size);
      for i := 0 to |bps|
        invariant unchanged(this)
        invariant forall k :: 0 <= k < i ==> !(bps[k].address == StripTag(addr) && bps[k].size == len)
      {
        if bps[i].address == StripTag(addr) && bps[i].size == len {
          texts := WriteIn(texts, pid, bps[i].address, bps[i].saved);
          bps := Erase(bps, i);
          if bps == [] {
            Detach();
          }
          return true;
        }
      }
      ok := false;
    }

    method IndexOf(a: nat) returns (i: nat)
      ensures i == Find(bps, a)
    {
      i := 0;
      while i < |bps| && bps[i].address != a
        invariant i <= |bps| && forall k :: 0 <= k < i ==> bps[k].address != a
      {
        i := i + 1;
      }
    }

    /** `stepped` is the instruction that runs while the breakpoint is out. */
    method HandleStop(trap: u64) returns (hit: bool, at: nat, stepped: Option<u32>)
      modifies this
      ensures Now() == AfterStop(old(Now()), trap)
      ensures var i := HitIndex(old(bps), StripTag(trap));
        && (hit <==> i < |old(bps)|) && (hit ==> at == old(bps)[i].address)
        && (hit && old(pid) in old(texts) && Mapped(old(During(Now(), i))[old(pid)], at) ==>
          stepped == Some(Insn(old(During(Now(), i))[old(pid)], at)))
    {
      hide StripTag, SetInsn, Insn;
      var pc := StripTag(trap);
      hit, at, stepped := false, pc, None;
      var i := IndexOf(pc);
      if i == |bps| && pc >= 4 {
        i := IndexOf(pc - 4);
      }
      if i == |bps| {
        return;
      }
      hit, at := true, bps[i].address;
      texts := WriteIn(texts, pid, at, bps[i].saved);
      if pid in texts && Mapped(texts[pid], at) {
        stepped := Some(Insn(texts[pid], at));
      }
      bps := bps[i := bps[i].(hits := Add64(bps[i].hits, 1))];
      texts := WriteIn(texts, pid, at, BRK);
    }

    method Poll(limit: nat) returns (events: seq<Event>)
      modifies this`reported
      ensures (Now(), events) == AfterPoll(old(Now()), limit)
    {
      events := [];
      ghost var whole := Polled(bps, reported, Room(limit));
      assert bps[0..] == bps && [] + whole.0 == whole.0;
      for i := 0 to |bps|
        invariant limit > 0 ==> |events| < limit
        invariant var rest := Polled(bps[i..], reported, if limit == 0 then None else Some(limit - |events|));
          whole == (events + rest.0, rest.1)
      {
        var bp := bps[i];
        assert bps[i..][0] == bp && bps[i..][1..] == bps[i + 1..];
        if bp.hits == ReportedIn(reported, bp.address) {
          continue;
        }
        ghost var was := events;
        events := events + [Event(bp.address, bp.size, Sub64(bp.hits, ReportedIn(reported, bp.address)))];
        reported := reported[bp.address := bp.hits];
        assert forall more: seq<Event> :: was + ([events[|was|]] + more) == events + more;
        if limit > 0 && |events| >= limit {
          return;
        }
      }
      assert events + [] == events;
    }

    /** The last thread of the traced process has exited. */
    method HandleExit()
      modifies this
      ensures Now() == AfterExit(old(Now()))
    {
      texts := texts - {pid};
      pid, bps := 0, [];
    }
  }
}
