/** Fixed-width integers, little-endian loads and the frozen memory of the debugged process. */
module Machine {

  const U64_LIMIT := 0x1_0000_0000_0000_0000
  const I64_LIMIT := 0x8000_0000_0000_0000
  const U32_LIMIT := 0x1_0000_0000
  const TAG_LIMIT := 0x100_0000_0000_0000

  type u64 = x: int | 0 <= x < U64_LIMIT
  type i64 = x: int | -I64_LIMIT <= x < I64_LIMIT
  type u32 = x: int | 0 <= x < U32_LIMIT
  type byte = x: int | 0 <= x < 256

  /** One snapshot of the target's address space. */
  type Memory = nat -> byte

  datatype Option<+T> = None | Some(value: T)

  /** A static base and the offsets that lead from it to a target, in file order. */
  datatype Chain = Chain(base: u64, offsets: seq<i64>)

  /** Unsigned 64-bit addition and subtraction. */
  function Add64(a: u64, b: u64): u64 { (a + b) % U64_LIMIT }
  function Sub64(a: u64, b: u64): u64 { if a >= b then a - b else a - b + U64_LIMIT }

  /** Drops the top byte of an AArch64 pointer. */
  function StripTag(v: u64): (r: u64)
    ensures r < TAG_LIMIT
    ensures v < TAG_LIMIT ==> r == v
  {
    v % TAG_LIMIT
  }

  function Min(a: int, b: int): int { if a <= b then a else b }
  function Max(a: int, b: int): int { if a >= b then a else b }
  function Abs(a: int): nat { if a < 0 then -a else a }

  function Pow256(n: nat): nat { if n == 0 then 1 else 256 * Pow256(n - 1) }

  /** The unsigned integer held by a little-endian byte string. */
  function LoadLE(b: seq<byte>): (v: nat)
    ensures v < Pow256(|b|)
  {
    if b == [] then 0 else b[0] + 256 * LoadLE(b[1..])
  }

  /** `n` bytes of `v`, low byte first. */
  function StoreLE(v: nat, n: nat): (b: seq<byte>)
    ensures |b| == n
  {
    if n == 0 then [] else [v % 256] + StoreLE(v / 256, n - 1)
  }

  lemma {:induction false} LoadStore(v: nat, n: nat)
    requires v < Pow256(n)
    ensures LoadLE(StoreLE(v, n)) == v
  {
    if n > 0 {
      LoadStore(v / 256, n - 1);
      assert StoreLE(v, n)[1..] == StoreLE(v / 256, n - 1);
    }
  }

  /** The `n` bytes at `addr`: what a complete read returns. */
  function Bytes(mem: Memory, addr: nat, n: nat): (b: seq<byte>)
    ensures |b| == n && forall i :: 0 <= i < n ==> b[i] == mem(addr + i)
  {
    seq(n, i requires 0 <= i => mem(addr + i))
  }

  lemma Pow256Values()
    ensures Pow256(1) == 0x100 && Pow256(2) == 0x1_0000
    ensures Pow256(4) == 0x1_0000_0000 && Pow256(8) == U64_LIMIT
  {
    assert Pow256(4) == 256 * Pow256(3) == 256 * (256 * Pow256(2));
    assert Pow256(6) == 256 * Pow256(5) == 256 * (256 * Pow256(4));
    assert Pow256(8) == 256 * Pow256(7) == 256 * (256 * Pow256(6));
  }

  /** A pointer loaded from `b`: 64-bit values lose their tag, 32-bit values are zero-extended. */
  function PointerOf(b: seq<byte>): (v: u64)
    requires |b| == 4 || |b| == 8
    ensures v < TAG_LIMIT
  {
    Pow256Values();
    if |b| == 8 then StripTag(LoadLE(b)) else LoadLE(b)
  }

  /** The pointer stored in the slot at `addr`. */
  function SlotValue(mem: Memory, addr: nat, psize: nat): (v: u64)
    requires psize == 4 || psize == 8
    ensures v < TAG_LIMIT
  {
    PointerOf(Bytes(mem, addr, psize))
  }

  /** Whatever the top byte is, the other seven are what remains. */
  lemma StripTagMeaning(v: u64, tag: nat, rest: nat)
    requires v == tag * TAG_LIMIT + rest && rest < TAG_LIMIT
    ensures StripTag(v) == rest
  {
    RemainderIs(v, TAG_LIMIT, tag, rest);
  }

  /** Four bytes, the first one counting least. */
  function Four(a: nat, b: nat, c: nat, d: nat): nat { a + 0x100 * b + 0x1_0000 * c + 0x100_0000 * d }

  /** The number that one, two, four or eight bytes hold, byte by byte. */
  lemma LoadLEMeaning(b: seq<byte>)
    ensures |b| == 1 ==> LoadLE(b) == b[0]
    ensures |b| == 2 ==> LoadLE(b) == Four(b[0], b[1], 0, 0)
    ensures |b| == 4 ==> LoadLE(b) == Four(b[0], b[1], b[2], b[3])
    ensures |b| == 8 ==>
      LoadLE(b) == Four(b[0], b[1], b[2], b[3]) + 0x1_0000_0000 * Four(b[4], b[5], b[6], b[7])
  {
    LoadLEUnrolled(b);
    if |b| == 8 { LoadLEUnrolled(b[4..]); }
  }

  lemma LoadLEUnrolled(b: seq<byte>)
    ensures |b| == 1 ==> LoadLE(b) == b[0]
    ensures |b| == 2 ==> LoadLE(b) == Four(b[0], b[1], 0, 0)
    ensures |b| == 4 ==> LoadLE(b) == Four(b[0], b[1], b[2], b[3])
    ensures |b| > 4 ==> LoadLE(b) == Four(b[0], b[1], b[2], b[3]) + 0x1_0000_0000 * LoadLE(b[4..])
  {
    if |b| == 1 { assert b[1..] == []; }
    if |b| == 2 { assert b[1..][1..] == []; }
    if |b| >= 4 {
      assert b[1..][1..] == b[2..] && b[2..][1..] == b[3..] && b[3..][1..] == b[4..];
      assert LoadLE(b) == b[0] + 256 * LoadLE(b[1..]) && LoadLE(b[1..]) == b[1] + 256 * LoadLE(b[2..]);
      assert LoadLE(b[2..]) == b[2] + 256 * LoadLE(b[3..]) && LoadLE(b[3..]) == b[3] + 256 * LoadLE(b[4..]);
    }
  }

  /** What a slot of either size holds, byte by byte: of eight bytes the last one does not count. */
  function PointerAt(mem: Memory, a: nat, psize: nat): nat
    requires psize == 4 || psize == 8
  {
    Four(mem(a), mem(a + 1), mem(a + 2), mem(a + 3))
    + if psize == 4 then 0 else 0x1_0000_0000 * Four(mem(a + 4), mem(a + 5), mem(a + 6), 0)
  }

  lemma SlotValueMeaning(mem: Memory, a: nat, psize: nat)
    requires psize == 4 || psize == 8
    ensures SlotValue(mem, a, psize) == PointerAt(mem, a, psize)
  {
    hide LoadLE;
    var b := Bytes(mem, a, psize);
    LoadLEMeaning(b);
    if psize == 8 { StripTagMeaning(LoadLE(b), b[7], PointerAt(mem, a, 8)); }
  }

  /** A slot whose first byte is not zero holds a nonzero pointer. */
  lemma NonzeroSlot(mem: Memory, a: nat, psize: nat)
    requires (psize == 4 || psize == 8) && mem(a) != 0
    ensures SlotValue(mem, a, psize) != 0
  {
    var bytes := Bytes(mem, a, psize);
    Pow256Values();
    assert LoadLE(bytes) == mem(a) + 256 * LoadLE(bytes[1..]);
  }

  lemma RemainderIs(x: nat, d: nat, q: nat, r: nat)
    requires d > 0 && x == q * d + r && r < d
    ensures x % d == r && x / d == q
  {
    LessFactor(x / d, q + 1, d);
    LessFactor(q, x / d + 1, d);
  }

  lemma LessFactor(a: nat, b: nat, d: nat)
    ensures a * d < b * d ==> a < b
  {
    if b <= a { assert b * d <= a * d; }
  }
}
