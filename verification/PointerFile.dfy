/** Chain files: a base, stored as its difference from the last, and the offsets that lead from it, for each chain. */
module PointerFile {
  import opened Machine
  import opened Varint

  function EncodeOffsets(offsets: seq<i64>): seq<byte> {
    if offsets == [] then [] else EncodeInt(offsets[0]) + EncodeOffsets(offsets[1..])
  }

  function EncodeChain(c: Chain, prev: u64): seq<byte> {
    Encode(Sub64(c.base, prev)) + EncodeOffsets(c.offsets)
  }

  /** The data section of a chain file: each base is stored as its distance, mod 2^64, from the last. */
  function EncodeChains(chains: seq<Chain>, prev: u64): seq<byte> {
    if chains == [] then [] else EncodeChain(chains[0], prev) + EncodeChains(chains[1..], chains[0].base)
  }

  function ReadOffsets(s: seq<byte>, depth: nat): (r: Option<(seq<i64>, seq<byte>)>)
    ensures r.Some? ==> |r.value.0| == depth && |r.value.1| <= |s| && r.value.1 == s[|s| - |r.value.1|..]
    decreases depth
  {
    if depth == 0 then Some(([], s))
    else match ReadInt(s)
      case None => None
      case Some((offset, rest)) =>
        match ReadOffsets(rest, depth - 1)
        case None => None
        case Some((offsets, after)) => Some(([offset] + offsets, after))
  }

  function ReadChain(s: seq<byte>, prev: u64, depth: nat): (r: Option<(Chain, seq<byte>)>)
    ensures r.Some? ==> |r.value.0.offsets| == depth && |r.value.1| < |s| && r.value.1 == s[|s| - |r.value.1|..]
  {
    match ReadUint(s)
    case None => None
    case Some((delta, rest)) =>
      match ReadOffsets(rest, depth)
      case None => None
      case Some((offsets, after)) => Some((Chain(Add64(prev, delta), offsets), after))
  }

  /**
   What streaming a data section yields. With `left` set, exactly that many chains must follow; without
   it chains are read until no further base can be, which is how a file with count 0 is treated.
   */
  function Stream(s: seq<byte>, prev: u64, depth: nat, left: Option<nat>): (r: Option<seq<Chain>>)
    ensures r.Some? && left.Some? ==> |r.value| == left.value
    decreases |s|
  {
    if left == Some(0) then Some([])
    else if ReadUint(s).None? then (if left.None? then Some([]) else None)
    else match ReadChain(s, prev, depth)
      case None => None
      case Some((c, rest)) =>
        match Stream(rest, c.base, depth, if left.Some? then Some(left.value - 1) else None)
        case None => None
        case Some(chains) => Some([c] + chains)
  }

  function CountField(count: nat): Option<nat> { if count == 0 then None else Some(count) }

  // ----- round trips

  lemma StreamStep(s: seq<byte>, prev: u64, depth: nat, n: nat)
    requires n > 0
    ensures Stream(s, prev, depth, Some(n)) ==
      match ReadChain(s, prev, depth)
      case None => None
      case Some((c, rest)) =>
        match Stream(rest, c.base, depth, Some(n - 1))
        case None => None
        case Some(chains) => Some([c] + chains)
  {
    ReadableChain(s, prev, depth);
  }

  lemma ReadableChain(s: seq<byte>, prev: u64, depth: nat)
    ensures ReadChain(s, prev, depth).Some? ==> ReadUint(s).Some?
  {
  }

  lemma {:induction false} OffsetsRoundTrip(offsets: seq<i64>, rest: seq<byte>)
    ensures ReadOffsets(EncodeOffsets(offsets) + rest, |offsets|) == Some((offsets, rest))
  {
    hide EncodeInt, ReadInt;
    if offsets == [] {
      assert EncodeOffsets(offsets) + rest == rest;
    } else {
      var tail := EncodeOffsets(offsets[1..]) + rest;
      assert EncodeOffsets(offsets) + rest == EncodeInt(offsets[0]) + tail;
      IntRoundTrip(offsets[0], tail);
      OffsetsRoundTrip(offsets[1..], rest);
      assert offsets == [offsets[0]] + offsets[1..];
    }
  }

  lemma AddSub(a: u64, b: u64)
    ensures Add64(b, Sub64(a, b)) == a
  {
  }

  lemma ChainRoundTrip(c: Chain, prev: u64, rest: seq<byte>)
    ensures ReadChain(EncodeChain(c, prev) + rest, prev, |c.offsets|) == Some((c, rest))
    ensures ReadUint(EncodeChain(c, prev) + rest).Some?
  {
    hide Encode, ReadUint, Add64, Sub64, EncodeOffsets, ReadOffsets;
    AddSub(c.base, prev);
    var tail := EncodeOffsets(c.offsets) + rest;
    assert EncodeChain(c, prev) + rest == Encode(Sub64(c.base, prev)) + tail;
    UintRoundTrip(Sub64(c.base, prev), tail);
    OffsetsRoundTrip(c.offsets, rest);
  }

  /** A chain file decodes to the chains written, whatever order their bases come in. */
  lemma {:induction false} ChainsRoundTrip(chains: seq<Chain>, prev: u64, depth: nat)
    requires forall i :: 0 <= i < |chains| ==> |chains[i].offsets| == depth
    ensures Stream(EncodeChains(chains, prev), prev, depth, Some(|chains|)) == Some(chains)
  {
    hide EncodeChain, ReadChain, ReadUint;
    if chains != [] {
      var c, data := chains[0], EncodeChains(chains, prev);
      var rest := EncodeChains(chains[1..], c.base);
      ChainRoundTrip(c, prev, rest);
      ChainsRoundTrip(chains[1..], c.base, depth);
      StreamStep(data, prev, depth, |chains|);
      assert chains == [c] + chains[1..];
    }
  }

  function LastBase(chains: seq<Chain>, prev: u64): u64 {
    if chains == [] then prev else chains[|chains| - 1].base
  }

  lemma {:induction false} EncodeChainsAppend(chains: seq<Chain>, c: Chain, prev: u64)
    ensures EncodeChains(chains + [c], prev) == EncodeChains(chains, prev) + EncodeChain(c, LastBase(chains, prev))
  {
    hide EncodeChain;
    if chains == [] {
      assert (chains + [c])[1..] == [];
    } else {
      assert (chains + [c])[1..] == chains[1..] + [c];
      EncodeChainsAppend(chains[1..], c, chains[0].base);
      assert LastBase(chains[1..], chains[0].base) == LastBase(chains, prev);
    }
  }

  lemma {:induction false} EncodeOffsetsAppend(offsets: seq<i64>, o: i64)
    ensures EncodeOffsets(offsets + [o]) == EncodeOffsets(offsets) + EncodeInt(o)
  {
    if offsets == [] {
      assert (offsets + [o])[1..] == [];
      assert EncodeOffsets([o]) == EncodeInt(o) + [];
    } else {
      assert (offsets + [o])[1..] == offsets[1..] + [o];
      EncodeOffsetsAppend(offsets[1..], o);
    }
  }

  // ----- chain files

  /** Appends one chain to the write buffer. */
  method AppendChain(buffer: seq<byte>, c: Chain, prev: u64) returns (r: seq<byte>)
    ensures r == buffer + EncodeChain(c, prev)
  {
    r := WriteVarUint(buffer, Sub64(c.base, prev));
    for i := 0 to |c.offsets|
      invariant r == buffer + (Encode(Sub64(c.base, prev)) + EncodeOffsets(c.offsets[..i]))
    {
      EncodeOffsetsAppend(c.offsets[..i], c.offsets[i]);
      assert c.offsets[..i + 1] == c.offsets[..i] + [c.offsets[i]];
      r := WriteVarInt(r, c.offsets[i]);
    }
    assert c.offsets[..|c.offsets|] == c.offsets;
  }

  /** The data section and the count patched into the header afterwards. */
  method WriteChains(chains: seq<Chain>) returns (data: seq<byte>, written: nat)
    ensures data == EncodeChains(chains, 0) && written == |chains|
  {
    hide EncodeChain;
    var prev: u64, buffer := 0, [];
    data, written := [], 0;
    for i := 0 to |chains|
      invariant data + buffer == EncodeChains(chains[..i], 0)
      invariant written == i && prev == LastBase(chains[..i], 0)
    {
      EncodeChainsAppend(chains[..i], chains[i], 0);
      assert chains[..i + 1] == chains[..i] + [chains[i]];
      ghost var before := buffer;
      buffer := AppendChain(buffer, chains[i], prev);
      assert data + buffer == (data + before) + EncodeChain(chains[i], prev);
      prev, written := chains[i].base, written + 1;
      if |buffer| > FLUSH_SIZE {
        data, buffer := data + buffer, [];
      }
    }
    data := data + buffer;
    assert chains[..|chains|] == chains;
  }

  method ReadOffsetsAt(data: seq<byte>, pos: nat, depth: nat) returns (ok: bool, offsets: seq<i64>, next: nat)
    requires pos <= |data|
    ensures ok == ReadOffsets(data[pos..], depth).Some?
    ensures ok ==> pos <= next <= |data| && ReadOffsets(data[pos..], depth) == Some((offsets, data[next..]))
  {
    hide ReadInt;
    ok, offsets, next := true, [], pos;
    ghost var whole := ReadOffsets(data[pos..], depth);
    assert whole.Some? ==> [] + whole.value.0 == whole.value.0;
    for d := 0 to depth
      invariant ok && pos <= next <= |data|
      invariant match ReadOffsets(data[next..], depth - d)
        case None => whole == None
        case Some((more, after)) => whole == Some((offsets + more, after))
    {
      var offset: i64;
      ok, offset, next := ReadVarInt(data, next);
      if !ok {
        return;
      }
      assert forall more: seq<i64> :: offsets + ([offset] + more) == (offsets + [offset]) + more;
      offsets := offsets + [offset];
    }
    assert offsets + [] == offsets;
  }

  method ReadChainAt(data: seq<byte>, pos: nat, prev: u64, depth: nat) returns (ok: bool, c: Chain, next: nat)
    requires pos <= |data|
    ensures ok == ReadChain(data[pos..], prev, depth).Some?
    ensures ok ==> pos < next <= |data| && ReadChain(data[pos..], prev, depth) == Some((c, data[next..]))
  {
    hide ReadUint, ReadOffsets;
    var delta: u64, offsets: seq<i64>;
    c := Chain(0, []);
    ok, delta, next := ReadVarUint(data, pos);
    if ok {
      ok, offsets, next := ReadOffsetsAt(data, next, depth);
      c := Chain(Add64(prev, delta), offsets);
    }
  }

  /** Streams a file; false when a chain is cut short or fewer chains follow than the header counts. */
  method StreamFile(data: seq<byte>, depth: nat, count: nat) returns (ok: bool, chains: seq<Chain>)
    ensures ok == Stream(data, 0, depth, CountField(count)).Some?
    ensures ok ==> chains == Stream(data, 0, depth, CountField(count)).value
  {
    hide ReadUint, ReadChain;
    var prev: u64, pos, i := 0, 0, 0;
    ghost var whole := Stream(data, 0, depth, CountField(count));
    chains := [];
    assert data[0..] == data && (whole.Some? ==> [] + whole.value == whole.value);
    while count == 0 || i < count
      invariant pos <= |data| && (count == 0 || i <= count)
      invariant match Stream(data[pos..], prev, depth, if count == 0 then None else Some(count - i))
        case None => whole == None
        case Some(more) => whole == Some(chains + more)
      decreases |data| - pos
    {
      var found, _, _ := ReadVarUint(data, pos);
      if !found {
        return count == 0, chains;
      }
      var c;
      ok, c, pos := ReadChainAt(data, pos, prev, depth);
      if !ok {
        return;
      }
      assert forall more: seq<Chain> :: chains + ([c] + more) == (chains + [c]) + more;
      chains, prev, i := chains + [c], c.base, i + 1;
    }
    ok := true;
  }
}
