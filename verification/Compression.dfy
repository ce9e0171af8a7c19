/**
 Payload compression: run lengths of zero bytes, LZ4 as an assumed pair of inverse functions, and the
 choice of the smaller result when it saves enough.
 */
module Compression {
  import opened Machine

  const MAX_RUN := 128
  const INT_MAX := 0x7fff_ffff
  const HEADER_SIZE := 9

  datatype Algorithm = Uncompressed | Rle0 | Lz4

  /** How many bytes at the front are all zero, or all not, up to a limit. */
  function RunLength(s: seq<byte>, zero: bool, limit: nat): (n: nat)
    ensures n <= |s| && n <= limit
    ensures forall i :: 0 <= i < n ==> (s[i] == 0 <==> zero)
    ensures n < |s| && n < limit ==> (s[n] == 0 <==> !zero)
  {
    if s == [] || limit == 0 || (s[0] == 0) != zero then 0 else 1 + RunLength(s[1..], zero, limit - 1)
  }

  function Zeros(n: nat): (r: seq<byte>)
    ensures |r| == n && forall i :: 0 <= i < n ==> r[i] == 0
  {
    seq(n, _ => 0)
  }

  /** The packet for the run at the front: one control byte, and the bytes themselves unless they are zero. */
  function Packet(s: seq<byte>): (p: (seq<byte>, nat))
    requires s != []
    ensures 0 < p.1 <= |s|
  {
    if s[0] == 0 then
      var run := RunLength(s, true, MAX_RUN);
      ([0x7f + run], run)
    else
      var run := RunLength(s, false, MAX_RUN);
      ([run - 1] + s[..run], run)
  }

  function Compressed(s: seq<byte>): seq<byte> {
    if s == [] then [] else Packet(s).0 + Compressed(s[Packet(s).1..])
  }

  /** What decoding gives when exactly `left` more bytes are wanted. */
  function Expanded(data: seq<byte>, left: nat): (r: Option<seq<byte>>)
    ensures r.Some? ==> |r.value| == left
    decreases |data|
  {
    if left == 0 then Some([])
    else if data == [] then None
    else if data[0] <= 0x7f then
      var len := data[0] + 1;
      if 1 + len > |data| || len > left then None
      else Prepend(data[1..1 + len], Expanded(data[1 + len..], left - len))
    else
      var len := data[0] - 0x7f;
      if len > left then None else Prepend(Zeros(len), Expanded(data[1..], left - len))
  }

  function Prepend(head: seq<byte>, rest: Option<seq<byte>>): (r: Option<seq<byte>>)
    ensures r.Some? <==> rest.Some?
    ensures r.Some? ==> r.value == head + rest.value
  {
    match rest
    case None => None
    case Some(s) => Some(head + s)
  }

  /** One packet decodes to its run, whatever follows. */
  lemma PacketDecodes(s: seq<byte>, rest: seq<byte>)
    requires s != []
    ensures Expanded(Packet(s).0 + rest, |s|) == Prepend(s[..Packet(s).1], Expanded(rest, |s| - Packet(s).1))
  {
    var packet, run := Packet(s).0, Packet(s).1;
    var data := packet + rest;
    if s[0] == 0 {
      assert data[1..] == rest && s[..run] == Zeros(run);
    } else {
      assert data[1..1 + run] == s[..run] && data[1 + run..] == rest;
    }
  }

  /** Decoding inverts encoding, for every byte string and whatever follows the code. */
  lemma {:induction false} RoundTrip(s: seq<byte>, rest: seq<byte>)
    ensures Expanded(Compressed(s) + rest, |s|) == Some(s)
  {
    hide Packet, Expanded;
    if s == [] {
      NothingWanted(rest);
      assert Compressed(s) + rest == rest;
    } else {
      var packet, run := Packet(s).0, Packet(s).1;
      RoundTrip(s[run..], rest);
      PacketDecodes(s, Compressed(s[run..]) + rest);
      assert Compressed(s) + rest == packet + (Compressed(s[run..]) + rest);
      assert s == s[..run] + s[run..];
    }
  }

  lemma NothingWanted(data: seq<byte>)
    ensures Expanded(data, 0) == Some([])
  {
  }

  /** The code takes at most half a byte more per byte than the text: (3n + 1) / 2. */
  lemma {:induction false} SizeBound(s: seq<byte>)
    ensures 2 * |Compressed(s)| <= 3 * |s| + 1
    ensures s == [] || s[0] == 0 ==> 2 * |Compressed(s)| <= 3 * |s|
  {
    if s != [] {
      SizeBound(s[Packet(s).1..]);
    }
  }

  function Alternating(n: nat): (s: seq<byte>)
    ensures |s| == n && (n > 0 ==> s[0] == 1) && (n > 1 ==> s[1] == 0)
    ensures n > 1 ==> s[2..] == Alternating(n - 2)
  {
    if n == 0 then [] else if n == 1 then [1] else [1, 0] + Alternating(n - 2)
  }

  /** A single byte before a zero takes two bytes, a single zero before another byte takes one. */
  lemma SingleByte(s: seq<byte>)
    requires s != [] && s[0] != 0 && (|s| > 1 ==> s[1] == 0)
    ensures |Compressed(s)| == 2 + |Compressed(s[1..])|
  {
    assert RunLength(s, false, MAX_RUN) == 1 by { assert |s| > 1 ==> s[1..][0] == 0; }
  }

  lemma SingleZero(s: seq<byte>)
    requires s != [] && s[0] == 0 && (|s| > 1 ==> s[1] != 0)
    ensures |Compressed(s)| == 1 + |Compressed(s[1..])|
  {
    assert RunLength(s, true, MAX_RUN) == 1 by { assert |s| > 1 ==> s[1..][0] != 0; }
  }

  /** No smaller bound holds: single bytes between single zeros need it at every length. */
  lemma {:induction false} SizeBoundIsTight(n: nat)
    ensures |Compressed(Alternating(n))| == (3 * n + 1) / 2
  {
    hide Compressed, Alternating;
    CompressedNothing(Alternating(n));
    if n > 0 {
      var s := Alternating(n);
      SingleByte(s);
      if n == 1 {
        CompressedNothing(s[1..]);
        assert s[1..] == [];
      } else {
        assert s[1..][0] == 0 && s[1..][1..] == s[2..] == Alternating(n - 2);
        assert n > 2 ==> s[1..][1] == s[2..][0] == 1;
        SingleZero(s[1..]);
        SizeBoundIsTight(n - 2);
      }
    }
  }

  /** Appends a packet per run. */
  method CompressRle0(data: seq<byte>) returns (out: seq<byte>)
    ensures out == Compressed(data)
  {
    hide Compressed, Packet;
    out := [];
    var i := 0;
    assert data[0..] == data;
    while i < |data|
      invariant i <= |data| && out + Compressed(data[i..]) == Compressed(data)
    {
      var run := RunAt(data, i);
      PacketStep(data, i, run);
      if data[i] == 0 {
        out := Append(out, [0x7f + run], Compressed(data[i + run..]));
      } else {
        out := Append(out, [run - 1] + data[i..i + run], Compressed(data[i + run..]));
      }
      i := i + run;
    }
    CompressedNothing(data);
  }

  method Append(out: seq<byte>, packet: seq<byte>, ghost rest: seq<byte>) returns (r: seq<byte>)
    ensures r == out + packet && r + rest == out + (packet + rest)
  {
    r := out + packet;
  }

  /** The length of the run that starts at `i`, of zeros or of other bytes. */
  method RunAt(data: seq<byte>, i: nat) returns (run: nat)
    requires i < |data|
    ensures 1 <= run <= MAX_RUN && i + run <= |data|
    ensures forall k :: i <= k < i + run ==> (data[k] == 0 <==> data[i] == 0)
    ensures i + run < |data| && run < MAX_RUN ==> (data[i + run] == 0 <==> data[i] != 0)
  {
    run := 1;
    while i + run < |data| && (data[i + run] == 0) == (data[i] == 0) && run < MAX_RUN
      invariant 1 <= run <= MAX_RUN && i + run <= |data|
      invariant forall k :: i <= k < i + run ==> (data[k] == 0 <==> data[i] == 0)
    {
      run := run + 1;
    }
  }

  lemma CompressedNothing(data: seq<byte>)
    ensures Compressed(data[|data|..]) == []
  {
  }

  lemma PacketStep(data: seq<byte>, i: nat, run: nat)
    requires i < i + run <= |data| && run <= MAX_RUN
    requires forall k :: i <= k < i + run ==> (data[k] == 0 <==> data[i] == 0)
    requires i + run < |data| && run < MAX_RUN ==> (data[i + run] == 0 <==> data[i] != 0)
    ensures Packet(data[i..]) == (if data[i] == 0 then [0x7f + run] else [run - 1] + data[i..i + run], run)
    ensures Compressed(data[i..]) == Packet(data[i..]).0 + Compressed(data[i + run..])
  {
    var s := data[i..];
    RunIs(s, data[i] == 0, run);
    assert s[..run] == data[i..i + run] && s[run..] == data[i + run..];
  }

  lemma RunIs(s: seq<byte>, zero: bool, run: nat)
    requires run <= |s| && run <= MAX_RUN
    requires forall k :: 0 <= k < run ==> (s[k] == 0 <==> zero)
    requires run < |s| && run < MAX_RUN ==> (s[run] == 0 <==> !zero)
    ensures RunLength(s, zero, MAX_RUN) == run
  {
    var n := RunLength(s, zero, MAX_RUN);
    assert forall k :: 0 <= k < |s| && k < n ==> (s[k] == 0 <==> zero);
  }

  /** On any input the decoder ends and never holds more than was asked for. */
  method DecompressRle0(data: seq<byte>, rawSize: nat) returns (ok: bool, out: seq<byte>)
    ensures |out| <= rawSize
    ensures ok <==> Expanded(data, rawSize).Some?
    ensures ok ==> Expanded(data, rawSize) == Some(out)
  {
    hide Expanded, Prepend;
    out := [];
    NothingWanted(data);
    if data == [] {
      NothingLeft(data, 0, rawSize);
      return rawSize == 0, out;
    }
    var i := 0;
    assert data[0..] == data;
    PrependNothing(Expanded(data, rawSize));
    while i < |data| && |out| < rawSize
      invariant i <= |data| && |out| <= rawSize
      invariant Expanded(data, rawSize) == Prepend(out, Expanded(data[i..], rawSize - |out|))
      decreases |data| - i
    {
      ExpandStep(data, i, rawSize - |out|);
      var ctrl := data[i];
      i := i + 1;
      if ctrl <= 0x7f {
        var len := ctrl + 1;
        if i + len > |data| || |out| + len > rawSize {
          return false, out;
        }
        PrependTwice(out, data[i..i + len], Expanded(data[i + len..], rawSize - |out| - len));
        out := out + data[i..i + len];
        i := i + len;
      } else {
        var len := ctrl - 0x7f;
        if |out| + len > rawSize {
          return false, out;
        }
        PrependTwice(out, Zeros(len), Expanded(data[i..], rawSize - |out| - len));
        out := out + Zeros(len);
      }
    }
    NothingLeft(data, i, rawSize - |out|);
    ok := |out| == rawSize;
    if ok { assert out + [] == out; }
  }

  lemma NothingLeft(data: seq<byte>, i: nat, left: nat)
    requires i <= |data| && (i == |data| || left == 0)
    ensures Expanded(data[i..], left) == if left == 0 then Some([]) else None
    ensures i == 0 ==> data[i..] == data
  {
  }

  lemma PrependNothing(rest: Option<seq<byte>>)
    ensures Prepend([], rest) == rest
  {
    if rest.Some? { assert [] + rest.value == rest.value; }
  }

  /** One turn of the decoder. */
  lemma ExpandStep(data: seq<byte>, i: nat, left: nat)
    requires i < |data| && left > 0
    ensures var len := if data[i] <= 0x7f then data[i] + 1 else data[i] - 0x7f;
      Expanded(data[i..], left) ==
        if len > left || (data[i] <= 0x7f && i + 1 + len > |data|) then None
        else if data[i] <= 0x7f then Prepend(data[i + 1..i + 1 + len], Expanded(data[i + 1 + len..], left - len))
        else Prepend(Zeros(len), Expanded(data[i + 1..], left - len))
  {
    var rest := data[i..];
    assert rest[1..] == data[i + 1..];
    if data[i] <= 0x7f && i + 1 + data[i] + 1 <= |data| {
      var len := data[i] + 1;
      assert rest[1..1 + len] == data[i + 1..i + 1 + len] && rest[1 + len..] == data[i + 1 + len..];
    }
  }

  lemma PrependTwice(a: seq<byte>, b: seq<byte>, rest: Option<seq<byte>>)
    ensures Prepend(a, Prepend(b, rest)) == Prepend(a + b, rest)
  {
    if rest.Some? { assert a + (b + rest.value) == (a + b) + rest.value; }
  }

  // ----- choosing

  /** The LZ4 library: what it makes of a string, and what it makes of that when told the original size. */
  datatype Library = Library(compress: seq<byte> -> Option<seq<byte>>,
                             decompress: (seq<byte>, nat) -> Option<seq<byte>>)

  ghost predicate Inverse(lz: Library) {
    forall s, c :: lz.compress(s) == Some(c) ==> c != [] && lz.decompress(c, |s|) == Some(s)
  }

  function CompressLz4(lz: Library, data: seq<byte>): Option<seq<byte>> {
    if data == [] then Some([]) else if |data| > INT_MAX then None else lz.compress(data)
  }

  function DecompressLz4(lz: Library, data: seq<byte>, rawSize: nat): Option<seq<byte>> {
    if data == [] then (if rawSize == 0 then Some([]) else None)
    else if rawSize > INT_MAX || |data| > INT_MAX then None
    else
      match lz.decompress(data, rawSize)
      case None => None
      case Some(s) => if |s| == rawSize then Some(s) else None
  }

  /** The library is given no size beyond an int, nor an empty string, and must give back the size told. */
  lemma Lz4IsGuarded(lz: Library, data: seq<byte>, rawSize: nat)
    ensures |data| > 0x7fff_ffff ==> CompressLz4(lz, data).None? && DecompressLz4(lz, data, rawSize).None?
    ensures data != [] && rawSize > 0x7fff_ffff ==> DecompressLz4(lz, data, rawSize).None?
    ensures 0 < |data| <= 0x7fff_ffff ==> CompressLz4(lz, data) == lz.compress(data)
    ensures data != [] && |data| <= 0x7fff_ffff && rawSize <= 0x7fff_ffff && lz.decompress(data, rawSize).Some? ==>
      (|lz.decompress(data, rawSize).value| == rawSize <==> DecompressLz4(lz, data, rawSize).Some?)
    ensures data == [] ==> CompressLz4(lz, data) == Some([])
    ensures data == [] ==> (DecompressLz4(lz, data, rawSize) == Some([]) <==> rawSize == 0)
    ensures DecompressLz4(lz, data, rawSize).Some? ==> |DecompressLz4(lz, data, rawSize).value| == rawSize
    ensures data != [] && DecompressLz4(lz, data, rawSize).Some? ==>
      lz.decompress(data, rawSize) == DecompressLz4(lz, data, rawSize)
  {
  }

  function DecompressPayload(lz: Library, algorithm: Algorithm, data: seq<byte>, rawSize: nat): Option<seq<byte>> {
    match algorithm
    case Rle0 => Expanded(data, rawSize)
    case Lz4 => DecompressLz4(lz, data, rawSize)
    case Uncompressed => None
  }

  /** A code is worth sending when it is smaller even with its header and saves at least the given number of bytes. */
  predicate Useful(code: Option<seq<byte>>, size: nat, minSavings: nat) {
    code.Some? && |code.value| + HEADER_SIZE < size && size - |code.value| >= minSavings
  }

  /** The useful code that is smaller is chosen, and it decompresses to the input; no useful code is passed over. */
  method CompressPayloadIfUseful(lz: Library, data: seq<byte>, minSize: nat, minSavings: nat)
    returns (ok: bool, algorithm: Algorithm, out: seq<byte>)
    requires Inverse(lz)
    ensures ok ==> data != [] && |data| >= minSize
    ensures ok ==> |out| + 9 < |data| && |out| + minSavings <= |data|
    ensures ok ==> DecompressPayload(lz, algorithm, out, |data|) == Some(data)
    ensures ok && CompressLz4(lz, data).Some? ==>
      var n := |CompressLz4(lz, data).value|; n + 9 < |data| && n + minSavings <= |data| ==> |out| <= n
    ensures ok ==>
      var n := |Compressed(data)|; n + 9 < |data| && n + minSavings <= |data| ==> |out| <= n
    ensures ok && CompressLz4(lz, data).Some? && algorithm == Rle0 ==>
      var n := |CompressLz4(lz, data).value|; n + 9 < |data| && n + minSavings <= |data| ==> |out| < n
    ensures !ok && data != [] && |data| >= minSize && CompressLz4(lz, data).Some? ==>
      var n := |CompressLz4(lz, data).value|; n + 9 >= |data| || n + minSavings > |data|
    ensures !ok && data != [] && |data| >= minSize ==>
      var n := |Compressed(data)|; n + 9 >= |data| || n + minSavings > |data|
    ensures !ok ==> algorithm == Uncompressed && out == []
  {
    hide Compressed, Expanded;
    algorithm, out := Uncompressed, [];
    if data == [] || |data| < minSize {
      return false, algorithm, out;
    }
    var compressed := CompressLz4(lz, data);
    if Useful(compressed, |data|, minSavings) {
      algorithm, out := Lz4, compressed.value;
    }
    var runs := CompressRle0(data);
    if Useful(Some(runs), |data|, minSavings) && (algorithm == Uncompressed || |runs| < |out|) {
      algorithm, out := Rle0, runs;
      RoundTrip(data, []);
      assert runs + [] == runs;
    }
    ok := algorithm != Uncompressed;
  }
}
