/**
 Program text as ptrace shows it: 64-bit words, each holding two AArch64 instructions. A software
 breakpoint replaces one of the two and keeps what was there.
 */
module BreakpointText {
  import opened Machine

  const HALF := U32_LIMIT
  const BRK: u32 := 0xD420_0000

  /** The readable words of a process, by their 8-aligned address. */
  type Text = map<nat, u64>

  datatype Breakpoint = Breakpoint(address: nat, size: nat, saved: u32, hits: u64)

  function WordOf(a: nat): nat { a - a % 8 }
  predicate Upper(a: nat) { a % 8 >= 4 }
  predicate Aligned(a: nat) { a % 4 == 0 }

  function Half(word: u64, upper: bool): u32
  {
    if upper then word / HALF else word % HALF
  }

  /** The word with one half replaced. */
  function Patch(word: u64, upper: bool, insn: u32): u64
  {
    if upper then word % HALF + insn * HALF else (word / HALF) * HALF + insn
  }

  lemma PatchMeaning(word: u64, upper: bool, insn: u32)
    ensures Half(Patch(word, upper, insn), upper) == insn
    ensures Half(Patch(word, upper, insn), !upper) == Half(word, !upper)
  {
  }

  lemma HalvesDetermine(v: u64, w: u64)
    requires Half(v, true) == Half(w, true) && Half(v, false) == Half(w, false)
    ensures v == w
  {
  }

  predicate Mapped(text: Text, a: nat) { WordOf(a) in text }

  function Insn(text: Text, a: nat): u32
    requires Mapped(text, a)
  {
    Half(text[WordOf(a)], Upper(a))
  }

  /** Peek, replace one half, poke. */
  function SetInsn(text: Text, a: nat, insn: u32): Text
    requires Mapped(text, a)
  {
    text[WordOf(a) := Patch(text[WordOf(a)], Upper(a), insn)]
  }

  /** Poking fails silently where nothing is mapped. */
  function Write(text: Text, a: nat, insn: u32): Text {
    if Mapped(text, a) then SetInsn(text, a, insn) else text
  }

  lemma SameSlot(a: nat, b: nat)
    requires Aligned(a) && Aligned(b)
    ensures WordOf(a) == WordOf(b) && Upper(a) == Upper(b) <==> a == b
  {
    FourOrNothing(a);
    FourOrNothing(b);
  }

  lemma FourOrNothing(a: nat)
    requires Aligned(a)
    ensures a == WordOf(a) + if Upper(a) then 4 else 0
  {
    var q, r := a / 8, a % 8;
    assert a == 8 * q + r;
    assert r % 4 == 0;
  }

  /** Writing one instruction changes that instruction and nothing else, its word-mate included. */
  lemma SetInsnMeaning(text: Text, a: nat, insn: u32, b: nat)
    requires Mapped(text, a) && Aligned(a) && Aligned(b)
    ensures SetInsn(text, a, insn).Keys == text.Keys
    ensures Mapped(text, b) ==> Insn(SetInsn(text, a, insn), b) == if a == b then insn else Insn(text, b)
  {
    hide Half, Patch, WordOf, Upper, Aligned;
    PatchMeaning(text[WordOf(a)], Upper(a), insn);
    SameSlot(a, b);
  }

  lemma WordHalves(w: nat)
    requires w % 8 == 0
    ensures WordOf(w) == w && !Upper(w) && Aligned(w)
    ensures WordOf(w + 4) == w && Upper(w + 4) && Aligned(w + 4)
  {
  }

  /** Texts over the same words with the same instructions are the same. */
  lemma InsnsDetermine(s: Text, t: Text)
    requires s.Keys == t.Keys && forall w :: w in s ==> w % 8 == 0
    requires forall a: nat :: Aligned(a) && Mapped(s, a) ==> Insn(s, a) == Insn(t, a)
    ensures s == t
  {
    hide WordOf, Upper, Aligned, Half;
    forall w | w in s ensures s[w] == t[w] {
      WordHalves(w);
      assert Mapped(s, w) && Mapped(s, w + 4);
      assert Insn(s, w) == Insn(t, w) && Insn(s, w + 4) == Insn(t, w + 4);
      HalvesDetermine(s[w], t[w]);
    }
  }

  /** A word's bytes, low byte first, are those of its two instructions one after the other. */
  lemma HalvesAreBytes(word: u64)
    ensures var b := StoreLE(word, 8); Half(word, false) == LoadLE(b[..4]) && Half(word, true) == LoadLE(b[4..])
  {
    hide LoadLE, StoreLE;
    var b := StoreLE(word, 8);
    Pow256Values();
    LoadStore(word, 8);
    LoadLEUnrolled(b);
    LoadLEUnrolled(b[..4]);
    FourFits(b[0], b[1], b[2], b[3]);
    RemainderIs(word, 0x1_0000_0000, LoadLE(b[4..]), LoadLE(b[..4]));
  }

  lemma FourFits(a: byte, b: byte, c: byte, d: byte)
    ensures Four(a, b, c, d) < 0x1_0000_0000
  {
  }

  /** The instruction at an address is the number that its four bytes hold in the word stored there. */
  lemma InsnIsItsBytes(text: Text, a: nat)
    requires a % 4 == 0 && a - a % 8 in text
    ensures a % 8 == 0 || a % 8 == 4
    ensures Mapped(text, a) && Insn(text, a) == LoadLE(StoreLE(text[a - a % 8], 8)[a % 8..a % 8 + 4])
  {
    hide LoadLE, StoreLE;
    FourOrNothing(a);
    HalvesAreBytes(text[WordOf(a)]);
    var b := StoreLE(text[WordOf(a)], 8);
    assert b[4..8] == b[4..] && b[0..4] == b[..4];
  }

  /** The breakpoint instruction is `brk #0`. */
  lemma BrkIsItsBytes()
    ensures LoadLE([0x00, 0x00, 0x20, 0xD4]) == BRK
  {
    LoadLEUnrolled([0x00, 0x00, 0x20, 0xD4]);
  }

  ghost predicate GoodText(text: Text) { forall w :: w in text ==> w % 8 == 0 }

  /** The original text with a breakpoint instruction at exactly the given addresses. */
  ghost predicate PatchedAt(text: Text, original: Text, active: set<nat>) {
    && text.Keys == original.Keys
    && forall a: nat :: Aligned(a) && Mapped(original, a) ==>
         Insn(text, a) == if a in active then BRK else Insn(original, a)
  }

  lemma NothingPatched(text: Text, original: Text, active: set<nat>)
    requires PatchedAt(text, original, active) && GoodText(original)
    requires forall a :: a !in active
    ensures text == original
  {
    hide Insn, Aligned;
    InsnsDetermine(text, original);
  }

  // ----- setting a list of addresses, then clearing them all

  predicate Settable(text: Text, addrs: seq<nat>) {
    forall a :: a in addrs ==> Aligned(a) && Mapped(text, a)
  }

  /** Breakpoints set one after the other, each saving the instruction it finds. */
  function SetAll(text: Text, addrs: seq<nat>): (r: (Text, seq<(nat, u32)>))
    requires Settable(text, addrs)
    ensures r.0.Keys == text.Keys && |r.1| == |addrs|
    ensures forall e :: e in r.1 ==> e.0 in addrs
  {
    if addrs == [] then (text, [])
    else
      var saved := Insn(text, addrs[0]);
      var rest := SetAll(SetInsn(text, addrs[0], BRK), addrs[1..]);
      (rest.0, [(addrs[0], saved)] + rest.1)
  }

  /** `ClearAll`: every saved instruction written back, in the order they were set. */
  function RestoreAll(text: Text, saved: seq<(nat, u32)>): Text
    requires forall e :: e in saved ==> Mapped(text, e.0)
  {
    if saved == [] then text
    else
      var after := SetInsn(text, saved[0].0, saved[0].1);
      assert forall e :: e in saved ==> Mapped(text, e.0) && Mapped(after, e.0);
      RestoreAll(after, saved[1..])
  }

  /** While breakpoints are set: the text holds BRK there and is otherwise as it was. */
  lemma {:induction false} SetAllMeaning(text: Text, addrs: seq<nat>, a: nat)
    requires Settable(text, addrs) && Aligned(a) && Mapped(text, a)
    ensures Insn(SetAll(text, addrs).0, a) == if a in addrs then BRK else Insn(text, a)
  {
    hide Insn, SetInsn, Mapped, Aligned;
    if addrs != [] {
      SetInsnMeaning(text, addrs[0], BRK, a);
      SetKeeps(text, addrs[0], BRK, addrs[1..]);
      SetAllMeaning(SetInsn(text, addrs[0], BRK), addrs[1..], a);
      assert addrs == [addrs[0]] + addrs[1..];
    }
  }

  lemma SetKeeps(text: Text, a: nat, insn: u32, addrs: seq<nat>)
    requires Mapped(text, a) && Settable(text, addrs)
    ensures Settable(SetInsn(text, a, insn), addrs)
    ensures forall b :: Mapped(text, b) <==> Mapped(SetInsn(text, a, insn), b)
  {
  }

  /** Clearing writes back, at each address, what the last of its entries saved. */
  lemma {:induction false} RestoreAllMeaning(text: Text, saved: seq<(nat, u32)>, a: nat)
    requires forall e :: e in saved ==> Aligned(e.0) && Mapped(text, e.0)
    requires Aligned(a) && Mapped(text, a)
    ensures RestoreAll(text, saved).Keys == text.Keys
    ensures Insn(RestoreAll(text, saved), a) == LastSaved(saved, a, Insn(text, a))
  {
    hide Insn, SetInsn, Mapped, Aligned;
    if saved != [] {
      SetInsnMeaning(text, saved[0].0, saved[0].1, a);
      SetKeeps(text, saved[0].0, saved[0].1, []);
      RestoreAllMeaning(SetInsn(text, saved[0].0, saved[0].1), saved[1..], a);
    }
  }

  function LastSaved(saved: seq<(nat, u32)>, a: nat, default: u32): u32 {
    if saved == [] then default
    else LastSaved(saved[1..], a, if saved[0].0 == a then saved[0].1 else default)
  }

  /** What the last entry for an address saved: the original on first setting, BRK on any later one. */
  lemma {:induction false} SavedByLast(text: Text, addrs: seq<nat>, a: nat, default: u32)
    requires Settable(text, addrs) && Aligned(a) && Mapped(text, a)
    ensures LastSaved(SetAll(text, addrs).1, a, default) ==
      if a !in addrs then default else if Repeats(addrs, a) then BRK else Insn(text, a)
  {
    hide Insn, SetInsn, Mapped, Aligned;
    if addrs != [] {
      assert addrs == [addrs[0]] + addrs[1..];
      SetInsnMeaning(text, addrs[0], BRK, a);
      SetKeeps(text, addrs[0], BRK, addrs[1..]);
      var saved := Insn(text, addrs[0]);
      var rest := SetAll(SetInsn(text, addrs[0], BRK), addrs[1..]);
      assert SetAll(text, addrs).1 == [(addrs[0], saved)] + rest.1;
      assert ([(addrs[0], saved)] + rest.1)[1..] == rest.1;
      if Repeats(addrs[1..], a) { RepeatsIsIn(addrs[1..], a); }
      SavedByLast(SetInsn(text, addrs[0], BRK), addrs[1..], a, if addrs[0] == a then saved else default);
    }
  }

  predicate Repeats(addrs: seq<nat>, a: nat) {
    addrs != [] && ((addrs[0] == a && a in addrs[1..]) || Repeats(addrs[1..], a))
  }

  /**
   Setting a list of breakpoints and clearing them all restores the text exactly if and only if no
   address was set a second time, except where the program itself already had a BRK.
   */
  lemma RestoreIffDistinct(text: Text, addrs: seq<nat>)
    requires GoodText(text) && Settable(text, addrs)
    ensures RestoreAll(SetAll(text, addrs).0, SetAll(text, addrs).1) == text
      <==> forall a :: Repeats(addrs, a) && Mapped(text, a) && Aligned(a) ==> Insn(text, a) == BRK
  {
    hide Insn, SetInsn, Aligned;
    var (patched, saved) := SetAll(text, addrs);
    SetAllMapped(text, addrs);
    var back := RestoreAll(patched, saved);
    forall a | Aligned(a) && Mapped(text, a)
      ensures back.Keys == text.Keys && Mapped(back, a)
      ensures Insn(back, a) == if Repeats(addrs, a) then BRK else Insn(text, a)
    {
      SetAllMeaning(text, addrs, a);
      RestoreAllMeaning(patched, saved, a);
      SavedByLast(text, addrs, a, Insn(patched, a));
      if Repeats(addrs, a) { RepeatsIsIn(addrs, a); }
    }
    RestoreKeys(patched, saved);
    if forall a :: Repeats(addrs, a) && Mapped(text, a) && Aligned(a) ==> Insn(text, a) == BRK {
      InsnsDetermine(back, text);
    }
  }

  lemma SetAllMapped(text: Text, addrs: seq<nat>)
    requires Settable(text, addrs)
    ensures forall b :: Mapped(SetAll(text, addrs).0, b) <==> Mapped(text, b)
    ensures forall a :: a in addrs ==> Aligned(a)
  {
  }

  lemma {:induction false} RestoreKeys(text: Text, saved: seq<(nat, u32)>)
    requires forall e :: e in saved ==> Mapped(text, e.0)
    ensures RestoreAll(text, saved).Keys == text.Keys
    ensures forall b :: Mapped(RestoreAll(text, saved), b) <==> Mapped(text, b)
  {
    if saved != [] { RestoreKeys(SetInsn(text, saved[0].0, saved[0].1), saved[1..]); }
  }

  lemma {:induction false} RepeatsIsIn(addrs: seq<nat>, a: nat)
    requires Repeats(addrs, a)
    ensures a in addrs
  {
    if !(addrs[0] == a && a in addrs[1..]) { RepeatsIsIn(addrs[1..], a); }
  }
}
