/**
 The variable-length integers of the pointer files: unsigned LEB128 (section 7.6 of DWARF 5) and, for
 signed values, LEB128 of the zigzag code.
 */
module Varint {
  import opened Machine

  const MAX_BYTES := 10

  /** The writers of these files flush their buffer when it exceeds this size. */
  const FLUSH_SIZE := 64 * 1024

  /** The bytes of `v`, seven bits at a time, low bits first. */
  function Encode(v: nat): (r: seq<byte>)
    ensures |r| > 0
  {
    if v < 128 then [v] else [v % 128 + 128] + Encode(v / 128)
  }

  /** Reads one number of at most `n` bytes off the front of `s`: its value and what follows it. */
  function Decode(s: seq<byte>, n: nat): (r: Option<(nat, seq<byte>)>)
    ensures r.Some? ==> 0 < |s| - |r.value.1| <= n && r.value.1 == s[|s| - |r.value.1|..]
  {
    if n == 0 || s == [] then None
    else if s[0] < 128 then Some((s[0], s[1..]))
    else
      match Decode(s[1..], n - 1)
      case None => None
      case Some((v, rest)) => Some((s[0] % 128 + 128 * v, rest))
  }

  function Pow128(n: nat): nat { if n == 0 then 1 else 128 * Pow128(n - 1) }

  lemma TenBytesHoldU64()
    ensures Pow128(9) < U64_LIMIT < Pow128(MAX_BYTES)
  {
    assert Pow128(4) == 128 * Pow128(3) == 128 * (128 * Pow128(2)) == 0x1000_0000;
    assert Pow128(7) == 128 * Pow128(6) == 128 * (128 * Pow128(5)) == 128 * (128 * (128 * Pow128(4)));
    assert Pow128(10) == 128 * Pow128(9) == 128 * (128 * Pow128(8)) == 128 * (128 * (128 * Pow128(7)));
  }

  /** Prefix-freeness and exactness at once: whatever follows, the number and its end are recovered. */
  lemma {:induction false} DecodeEncode(v: nat, rest: seq<byte>, n: nat)
    requires n > 0 && v < Pow128(n)
    ensures |Encode(v)| <= n
    ensures Decode(Encode(v) + rest, n) == Some((v, rest))
  {
    var s := Encode(v) + rest;
    if v < 128 {
      assert s[1..] == rest;
    } else {
      assert Pow128(n) == 128 * Pow128(n - 1);
      assert Pow128(0) == 1;
      DecodeEncode(v / 128, rest, n - 1);
      assert s[1..] == Encode(v / 128) + rest;
    }
  }

  function ToU64(v: i64): u64 { if v < 0 then v + U64_LIMIT else v }
  function ToI64(v: u64): i64 { if v < I64_LIMIT then v else v - U64_LIMIT }

  /** `(v << 1) ^ (v >> 63)`: the arithmetic shift is all ones exactly when `v` is negative. */
  function ZigZag(v: i64): u64 {
    var doubled := (ToU64(v) * 2) % U64_LIMIT;
    if v < 0 then U64_LIMIT - 1 - doubled else doubled
  }

  /** `(z >> 1) ^ -(z & 1)`. */
  function UnZigZag(z: u64): i64 {
    ToI64(if z % 2 == 1 then U64_LIMIT - 1 - z / 2 else z / 2)
  }

  /** Zigzag is a bijection between the signed and the unsigned 64-bit integers. */
  lemma ZigZagBijection(v: i64, z: u64)
    ensures UnZigZag(ZigZag(v)) == v
    ensures ZigZag(UnZigZag(z)) == z
    ensures v >= 0 ==> ZigZag(v) == 2 * v
    ensures v < 0 ==> ZigZag(v) == -2 * v - 1
  {
  }

  // ----- the two codes as the files use them

  function EncodeInt(v: i64): seq<byte> { Encode(ZigZag(v)) }

  /** An unsigned number off the front of `s`; bits past the 64th are lost. */
  function ReadUint(s: seq<byte>): (r: Option<(u64, seq<byte>)>)
    ensures r.Some? ==> |r.value.1| < |s| && r.value.1 == s[|s| - |r.value.1|..]
  {
    match Decode(s, MAX_BYTES)
    case None => None
    case Some((v, rest)) => Some((v % U64_LIMIT, rest))
  }

  function ReadInt(s: seq<byte>): (r: Option<(i64, seq<byte>)>)
    ensures r.Some? ==> |r.value.1| < |s| && r.value.1 == s[|s| - |r.value.1|..]
  {
    match ReadUint(s)
    case None => None
    case Some((code, rest)) => Some((UnZigZag(code), rest))
  }

  /** Ten bytes that all announce another one are no number, whatever follows. */
  lemma OverlongFails(s: seq<byte>)
    requires |s| >= 10 && forall i :: 0 <= i < 10 ==> s[i] >= 128
    ensures ReadUint(s).None?
  {
    AllContinue(s, MAX_BYTES);
  }

  lemma {:induction false} AllContinue(s: seq<byte>, n: nat)
    requires n <= |s| && forall i :: 0 <= i < n ==> s[i] >= 128
    ensures Decode(s, n).None?
  {
    if n > 0 { AllContinue(s[1..], n - 1); }
  }

  /** Every u64 takes at most ten bytes and is read back exactly, whatever follows it. */
  lemma UintRoundTrip(v: u64, rest: seq<byte>)
    ensures |Encode(v)| <= MAX_BYTES
    ensures ReadUint(Encode(v) + rest) == Some((v, rest))
  {
    hide Encode, Decode, Pow128;
    TenBytesHoldU64();
    DecodeEncode(v, rest, MAX_BYTES);
  }

  lemma IntRoundTrip(v: i64, rest: seq<byte>)
    ensures |EncodeInt(v)| <= MAX_BYTES
    ensures ReadInt(EncodeInt(v) + rest) == Some((v, rest))
  {
    UintRoundTrip(ZigZag(v), rest);
    ZigZagBijection(v, 0);
  }

  method WriteVarUint(out: seq<byte>, value: u64) returns (r: seq<byte>)
    ensures r == out + Encode(value)
  {
    r := out;
    var v: nat := value;
    while v >= 128
      invariant r + Encode(v) == out + Encode(value)
    {
      assert Encode(v) == [v % 128 + 128] + Encode(v / 128);
      r := r + [v % 128 + 128];
      v := v / 128;
    }
    r := r + [v];
  }

  method WriteVarInt(out: seq<byte>, value: i64) returns (r: seq<byte>)
    ensures r == out + EncodeInt(value)
  {
    r := WriteVarUint(out, ZigZag(value));
  }

  /** The contribution of one byte whose lowest bit stands at `unit`. */
  function Place(unit: nat, b: byte): nat {
    var low: nat := b % 128;
    unit * low
  }

  /** `Decode` with the accumulator and the position of the next seven bits made explicit. */
  function DecodeFrom(s: seq<byte>, n: nat, acc: nat, unit: nat): Option<(nat, seq<byte>)> {
    if n == 0 || s == [] then None
    else if s[0] < 128 then Some((acc + Place(unit, s[0]), s[1..]))
    else DecodeFrom(s[1..], n - 1, acc + Place(unit, s[0]), 128 * unit)
  }

  lemma {:induction false} DecodeFromMeaning(s: seq<byte>, n: nat, acc: nat, unit: nat)
    ensures DecodeFrom(s, n, acc, unit) ==
      match Decode(s, n)
      case None => None
      case Some((v, rest)) => Some((acc + unit * v, rest))
  {
    if n > 0 && s != [] && s[0] >= 128 {
      DecodeFromMeaning(s[1..], n - 1, acc + Place(unit, s[0]), 128 * unit);
      var tail := Decode(s[1..], n - 1);
      if tail.Some? { PlaceStep(unit, s[0], tail.value.0); }
    }
  }

  lemma PlaceStep(unit: nat, b: byte, v: nat)
    ensures unit * (b % 128 + 128 * v) == Place(unit, b) + 128 * unit * v
  {
    var low: nat := b % 128;
    Distribute(unit, low, v);
  }

  lemma Distribute(unit: nat, low: nat, v: nat)
    ensures unit * (low + 128 * v) == unit * low + 128 * unit * v
  {
    assert unit * (low + 128 * v) == unit * low + unit * (128 * v);
    assert unit * (128 * v) == 128 * unit * v;
  }

  lemma AddMod(a: nat, b: nat)
    ensures (a % U64_LIMIT + b) % U64_LIMIT == (a + b) % U64_LIMIT
  {
    var q := a / U64_LIMIT;
    assert a == q * U64_LIMIT + a % U64_LIMIT;
    var r := (a % U64_LIMIT + b) / U64_LIMIT;
    assert a + b == (q + r) * U64_LIMIT + (a % U64_LIMIT + b) % U64_LIMIT;
  }

  method ReadVarUint(data: seq<byte>, pos: nat) returns (ok: bool, value: u64, next: nat)
    requires pos <= |data|
    ensures ok == ReadUint(data[pos..]).Some?
    ensures ok ==> pos < next <= |data| && ReadUint(data[pos..]) == Some((value, data[next..]))
  {
    hide Place, Decode;
    DecodeFromMeaning(data[pos..], MAX_BYTES, 0, 1);
    value, next, ok := 0, pos, false;
    ghost var acc: nat := 0;
    var unit: nat := 1;
    for i := 0 to MAX_BYTES
      invariant next == pos + i <= |data|
      invariant value == acc % U64_LIMIT
      invariant DecodeFrom(data[pos..], MAX_BYTES, 0, 1) == DecodeFrom(data[next..], MAX_BYTES - i, acc, unit)
    {
      if next == |data| {
        return;
      }
      assert data[next..][1..] == data[next + 1..];
      var b, low := data[next], Place(unit, data[next]);
      AddMod(acc, low);
      value, acc := (value + low) % U64_LIMIT, acc + low;
      next := next + 1;
      if b < 128 {
        ok := true;
        return;
      }
      unit := 128 * unit;
    }
  }

  method ReadVarInt(data: seq<byte>, pos: nat) returns (ok: bool, value: i64, next: nat)
    requires pos <= |data|
    ensures ok == ReadInt(data[pos..]).Some?
    ensures ok ==> pos < next <= |data| && ReadInt(data[pos..]) == Some((value, data[next..]))
  {
    var code: u64;
    ok, code, next := ReadVarUint(data, pos);
    value := UnZigZag(code);
  }
}
