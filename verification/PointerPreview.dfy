/**
 Paging through a chain file. Every `stride` chains the preview index remembers where in the file the
 decoder stood and the base it had reached, so that a page can be decoded from the last such point.
 */
module PointerPreview {
  import opened Machine
  import opened Ordering
  import opened Varint
  import opened PointerFile

  const STRIDE := 512

  datatype Checkpoint = Checkpoint(index: nat, offset: nat, prevBase: u64)

  /** Decoding `n` chains: the base reached and the bytes left. */
  function Skip(s: seq<byte>, prev: u64, depth: nat, n: nat): Option<(u64, seq<byte>)> {
    if n == 0 then Some((prev, s))
    else match ReadChain(s, prev, depth)
      case None => None
      case Some((c, rest)) => Skip(rest, c.base, depth, n - 1)
  }

  ghost predicate IsCheckpoint(cp: Checkpoint, data: seq<byte>, depth: nat) {
    cp.offset <= |data| && Skip(data, 0, depth, cp.index) == Some((cp.prevBase, data[cp.offset..]))
  }

  lemma StartCheckpoint(data: seq<byte>, depth: nat)
    ensures IsCheckpoint(Checkpoint(0, 0, 0), data, depth)
  {
    assert data[0..] == data;
  }

  /** One more chain decoded moves a checkpoint forward by one. */
  lemma NextCheckpoint(cp: Checkpoint, data: seq<byte>, depth: nat, c: Chain, next: nat)
    requires IsCheckpoint(cp, data, depth) && next <= |data|
    requires ReadChain(data[cp.offset..], cp.prevBase, depth) == Some((c, data[next..]))
    ensures IsCheckpoint(Checkpoint(cp.index + 1, next, c.base), data, depth)
  {
    hide ReadChain, Skip;
    SkipAdds(data, 0, depth, cp.index, 1);
    SkipOne(data[cp.offset..], cp.prevBase, depth);
  }

  ghost predicate Checkpoints(cps: seq<Checkpoint>, data: seq<byte>, depth: nat) {
    && (forall i :: 0 <= i < |cps| ==> IsCheckpoint(cps[i], data, depth))
    && (forall i, j :: 0 <= i < j < |cps| ==> cps[i].index < cps[j].index)
    && (cps != [] ==> cps[0].index == 0)
  }

  lemma {:induction false} SkipAdds(s: seq<byte>, prev: u64, depth: nat, m: nat, n: nat)
    requires Skip(s, prev, depth, m).Some?
    ensures Skip(s, prev, depth, m + n)
      == Skip(Skip(s, prev, depth, m).value.1, Skip(s, prev, depth, m).value.0, depth, n)
  {
    hide ReadChain;
    if m > 0 {
      var (c, rest) := ReadChain(s, prev, depth).value;
      SkipAdds(rest, c.base, depth, m - 1, n);
    }
  }

  lemma SkipOne(s: seq<byte>, prev: u64, depth: nat)
    ensures Skip(s, prev, depth, 1) ==
      match ReadChain(s, prev, depth)
      case None => None
      case Some((c, rest)) => Some((c.base, rest))
  {
    hide ReadChain;
    if ReadChain(s, prev, depth).Some? {
      var (c, rest) := ReadChain(s, prev, depth).value;
      assert Skip(rest, c.base, depth, 0) == Some((c.base, rest));
    }
  }

  /** Reading on from a checkpoint is reading from the start without the chains before it. */
  lemma {:induction false} StreamAfterSkip(s: seq<byte>, prev: u64, depth: nat, m: nat, n: nat)
    requires m <= n && Skip(s, prev, depth, m).Some?
    ensures var (prev', rest) := Skip(s, prev, depth, m).value;
      match (Stream(s, prev, depth, Some(n)), Stream(rest, prev', depth, Some(n - m)))
      case (None, None) => true
      case (Some(all), Some(more)) => all[m..] == more
      case _ => false
  {
    hide ReadChain, ReadUint, Stream;
    if m > 0 {
      StreamStep(s, prev, depth, n);
      var (c, rest) := ReadChain(s, prev, depth).value;
      StreamAfterSkip(rest, c.base, depth, m - 1, n - 1);
      var later := Stream(rest, c.base, depth, Some(n - 1));
      if later.Some? {
        assert ([c] + later.value)[m..] == later.value[m - 1..];
      }
    }
  }

  /** Fewer chains can be read off the front of any file more can be read off. */
  lemma {:induction false} StreamPrefix(s: seq<byte>, prev: u64, depth: nat, m: nat, n: nat)
    requires m <= n && Stream(s, prev, depth, Some(n)).Some?
    ensures Stream(s, prev, depth, Some(m)) == Some(Stream(s, prev, depth, Some(n)).value[..m])
  {
    hide ReadChain, ReadUint;
    if m > 0 {
      var (c, rest) := ReadChain(s, prev, depth).value;
      StreamPrefix(rest, c.base, depth, m - 1, n - 1);
      var later := Stream(rest, c.base, depth, Some(n - 1)).value;
      assert ([c] + later)[..m] == [c] + later[..m - 1];
    }
  }

  predicate AtStride(index: nat, gap: nat) requires gap > 0 { index % gap == 0 }

  function Gap(stride: nat): (gap: nat)
    ensures gap > 0
  {
    if stride == 0 then STRIDE else stride
  }

  /** Between two multiples of the stride only the upper end is one. */
  lemma StrideStep(index: nat, gap: nat, q: nat)
    requires gap > 0 && q * gap < index <= (q + 1) * gap
    ensures AtStride(index, gap) <==> index == (q + 1) * gap
  {
    if index == (q + 1) * gap {
      RemainderIs(index, gap, q + 1, 0);
    } else {
      RemainderIs(index, gap, q, index - q * gap);
    }
  }

  /** On a file that decodes, the next chain after a checkpoint can be read. */
  lemma NextReadable(at: Checkpoint, data: seq<byte>, depth: nat, count: nat)
    requires IsCheckpoint(at, data, depth) && at.index < count && Stream(data, 0, depth, Some(count)).Some?
    ensures ReadUint(data[at.offset..]).Some? && ReadChain(data[at.offset..], at.prevBase, depth).Some?
  {
    hide ReadUint, ReadChain, Skip;
    StreamAfterSkip(data, 0, depth, at.index, count);
    StreamStep(data[at.offset..], at.prevBase, depth, count - at.index);
    ReadableChain(data[at.offset..], at.prevBase, depth);
  }

  /** A checkpoint for every multiple of the stride; a file that decodes gets all of them. */
  method BuildPreviewIndex(data: seq<byte>, depth: nat, count: nat, stride: nat)
    returns (ok: bool, cps: seq<Checkpoint>)
    ensures Checkpoints(cps, data, depth)
    ensures forall k :: 0 <= k < |cps| ==> cps[k].index == k * (if stride == 0 then 512 else stride)
    ensures ok ==> cps != []
    ensures count > 0 && Stream(data, 0, depth, Some(count)).Some? ==>
      ok && (|cps| - 1) * Gap(stride) <= count < |cps| * Gap(stride)
  {
    hide ReadChain, ReadUint, IsCheckpoint, AtStride, Stream, Checkpoints;
    StartCheckpoint(data, depth);
    var gap := Gap(stride);
    var at := Checkpoint(0, 0, 0);
    cps := [at];
    OneCheckpoint(at, data, depth);
    while count == 0 || at.index < count
      invariant at.offset <= |data| && (count == 0 || at.index <= count)
      invariant IsCheckpoint(at, data, depth)
      invariant Checkpoints(cps, data, depth) && |cps| > 0
      invariant forall k :: 0 <= k < |cps| ==> cps[k].index == k * gap
      invariant (|cps| - 1) * gap <= at.index < |cps| * gap
      decreases |data| - at.offset
    {
      if count > 0 && Stream(data, 0, depth, Some(count)).Some? { NextReadable(at, data, depth, count); }
      var found, _, _ := ReadVarUint(data, at.offset);
      if !found {
        break;
      }
      var c, next;
      ok, c, next := ReadChainAt(data, at.offset, at.prevBase, depth);
      if !ok {
        NoCheckpoints(data, depth);
        return false, [];
      }
      NextCheckpoint(at, data, depth, c, next);
      at := Checkpoint(at.index + 1, next, c.base);
      StrideStep(at.index, gap, |cps| - 1);
      if AtStride(at.index, gap) {
        MoreCheckpoints(cps, at, data, depth);
        cps := cps + [at];
        assert |cps| * gap == (|cps| - 1) * gap + gap;
      }
    }
    ok := true;
  }

  lemma OneCheckpoint(at: Checkpoint, data: seq<byte>, depth: nat)
    requires IsCheckpoint(at, data, depth) && at.index == 0
    ensures Checkpoints([at], data, depth)
  {
  }

  lemma NoCheckpoints(data: seq<byte>, depth: nat)
    ensures Checkpoints([], data, depth)
  {
  }

  lemma MoreCheckpoints(cps: seq<Checkpoint>, at: Checkpoint, data: seq<byte>, depth: nat)
    requires Checkpoints(cps, data, depth) && IsCheckpoint(at, data, depth) && cps != []
    requires cps[|cps| - 1].index < at.index
    ensures Checkpoints(cps + [at], data, depth)
  {
    hide IsCheckpoint;
    forall i | 0 <= i < |cps| ensures cps[i].index < at.index {
      assert i < |cps| - 1 ==> cps[i].index < cps[|cps| - 1].index;
    }
  }

  /** A decoder that has read `index` of `n` chains stands where the rest of them can be read from. */
  ghost predicate Remaining(whole: Option<seq<Chain>>, data: seq<byte>, pos: nat, prev: u64, depth: nat, n: nat,
                            index: nat)
    requires pos <= |data| && index <= n
  {
    var more := Stream(data[pos..], prev, depth, Some(n - index));
    && more.Some? == whole.Some?
    && (whole.Some? ==> |whole.value| == n && whole.value[index..] == more.value)
  }

  /** The items of a page: the chains with index in [start, end), as far as there are any. */
  function Page(chains: seq<Chain>, start: nat, end: nat): seq<Chain> {
    chains[Min(start, |chains|)..Max(Min(start, |chains|), Min(end, |chains|))]
  }

  lemma PageOfNothing(start: nat, end: nat)
    ensures Page([], start, end) == []
  {
  }

  lemma PageStep(all: seq<Chain>, t: nat, start: nat, end: nat)
    requires t < |all| && start <= end
    ensures Page(all[..t + 1], start, end) == Page(all[..t], start, end) + (if start <= t < end then [all[t]] else [])
  {
    assert all[..t + 1] == all[..t] + [all[t]];
  }

  /** The step of a decoding loop: one chain read is one chain fewer to come. */
  lemma RemainingStep(whole: Option<seq<Chain>>, data: seq<byte>, pos: nat, prev: u64, depth: nat, n: nat, index: nat)
    requires pos <= |data| && index < n && Remaining(whole, data, pos, prev, depth, n, index)
    ensures match ReadChain(data[pos..], prev, depth)
      case None => whole.None?
      case Some((c, rest)) =>
        (whole.Some? ==> whole.value[index] == c) &&
        Remaining(whole, data, |data| - |rest|, c.base, depth, n, index + 1)
  {
    hide Stream, ReadChain;
    StreamStep(data[pos..], prev, depth, n - index);
    if ReadChain(data[pos..], prev, depth).Some? {
      var (c, rest) := ReadChain(data[pos..], prev, depth).value;
      assert rest == data[|data| - |rest|..];
      if whole.Some? {
        assert whole.value[index] == whole.value[index..][0] == c;
        assert whole.value[index + 1..] == whole.value[index..][1..];
      }
    }
  }

  lemma RemainingEnds(whole: Option<seq<Chain>>, data: seq<byte>, pos: nat, prev: u64, depth: nat, n: nat)
    requires pos <= |data| && Remaining(whole, data, pos, prev, depth, n, n)
    ensures whole.Some? && |whole.value| == n
  {
  }

  lemma RemainingStarts(data: seq<byte>, depth: nat, n: nat, cp: Checkpoint)
    requires IsCheckpoint(cp, data, depth) && cp.index <= n
    ensures cp.offset <= |data|
      && Remaining(Stream(data, 0, depth, Some(n)), data, cp.offset, cp.prevBase, depth, n, cp.index)
  {
    StreamAfterSkip(data, 0, depth, cp.index, n);
  }

  /**
   The side-car path: jump to the last checkpoint at or before the page and decode on. No more chains are decoded than
   lie between that checkpoint and the end of the page.
   */
  method PreviewPage(data: seq<byte>, depth: nat, count: nat, cps: seq<Checkpoint>, start: nat, end: nat)
    returns (ok: bool, items: seq<Chain>, total: nat, ghost decoded: nat)
    requires Checkpoints(cps, data, depth) && start <= end && count > 0
    ensures ok == Stream(data, 0, depth, Some(Min(end, count))).Some?
    ensures forall k :: 0 <= k < |cps| && cps[k].index <= Min(start, count) ==>
      decoded + cps[k].index <= Min(end, count)
    ensures ok ==> total == count && items == Stream(data, 0, depth, Some(Min(end, count))).value[Min(start, count)..]
  {
    hide ReadChain, Stream, Skip, Remaining, IsCheckpoint;
    StartCheckpoint(data, depth);
    var first: nat, last: nat := Min(start, count), Min(end, count);
    var at := Checkpoint(0, 0, 0);
    if cps != [] {
      var i := LowerBound(cps, 0, |cps|, (cp: Checkpoint) => cp.index <= first);
      if i > 0 {
        at := cps[i - 1];
      }
    }
    var prev, pos: nat, index: nat := at.prevBase, at.offset, at.index;
    ok, items, total, decoded := true, [], count, 0;
    assert forall k :: 0 <= k < |cps| && cps[k].index <= first ==> cps[k].index <= at.index by {
      LastBefore(cps, first, at);
    }
    ghost var whole := Stream(data, 0, depth, Some(last));
    RemainingStarts(data, depth, last, at);
    while index < first
      invariant ok && items == [] && pos <= |data| && decoded + at.index == index <= first
      invariant Remaining(whole, data, pos, prev, depth, last, index)
    {
      RemainingStep(whole, data, pos, prev, depth, last, index);
      var c;
      ok, c, pos := ReadChainAt(data, pos, prev, depth);
      decoded := decoded + 1;
      assert decoded + at.index <= last;
      if !ok {
        return;
      }
      prev, index := c.base, index + 1;
    }
    while index < last
      invariant ok && pos <= |data| && first <= index <= last && decoded + at.index == index
      invariant Remaining(whole, data, pos, prev, depth, last, index)
      invariant whole.Some? ==> |whole.value| == last && items == whole.value[first..index]
    {
      RemainingStep(whole, data, pos, prev, depth, last, index);
      var c;
      ok, c, pos := ReadChainAt(data, pos, prev, depth);
      decoded := decoded + 1;
      assert decoded + at.index <= last;
      if !ok {
        return;
      }
      items := items + [c];
      prev, index := c.base, index + 1;
    }
    RemainingEnds(whole, data, pos, prev, depth, last);
  }

  /** The last checkpoint at or before a chain is behind every other one there. */
  lemma LastBefore(cps: seq<Checkpoint>, first: nat, at: Checkpoint)
    requires forall i, j :: 0 <= i < j < |cps| ==> cps[i].index < cps[j].index
    requires (exists i :: 0 <= i < |cps| && cps[i] == at && forall k :: i < k < |cps| ==> cps[k].index > first)
      || forall k :: 0 <= k < |cps| ==> cps[k].index > first
    ensures forall k :: 0 <= k < |cps| && cps[k].index <= first ==> cps[k].index <= at.index
  {
  }

  /** The chains that can be read before the first one that cannot. */
  function Readable(s: seq<byte>, prev: u64, depth: nat): seq<Chain>
    decreases |s|
  {
    match ReadChain(s, prev, depth)
    case None => []
    case Some((c, rest)) => [c] + Readable(rest, c.base, depth)
  }

  /** Without a count a file that breaks off is shown as far as it goes; one that decodes is shown whole. */
  lemma {:induction false} ReadableIsStream(s: seq<byte>, prev: u64, depth: nat)
    ensures Stream(s, prev, depth, None).Some? ==> Readable(s, prev, depth) == Stream(s, prev, depth, None).value
    decreases |s|
  {
    hide ReadUint, ReadChain;
    ReadableChain(s, prev, depth);
    if ReadChain(s, prev, depth).Some? {
      var (c, rest) := ReadChain(s, prev, depth).value;
      ReadableIsStream(rest, c.base, depth);
    }
  }

  /** What a whole file is shown as. A count in the header must be met. */
  function Listing(data: seq<byte>, depth: nat, count: nat): Option<seq<Chain>> {
    if count == 0 then Some(Readable(data, 0, depth)) else Stream(data, 0, depth, Some(count))
  }

  /** What a linear decoder at `pos` still has to come. */
  function Coming(data: seq<byte>, pos: nat, prev: u64, depth: nat, count: nat, total: nat): Option<seq<Chain>>
    requires pos <= |data| && (count == 0 || total <= count)
  {
    if count == 0 then Some(Readable(data[pos..], prev, depth))
    else Stream(data[pos..], prev, depth, Some(count - total))
  }

  lemma ComingStep(data: seq<byte>, pos: nat, prev: u64, depth: nat, count: nat, total: nat)
    requires pos <= |data| && (count == 0 || total < count)
    ensures match ReadChain(data[pos..], prev, depth)
      case None => Coming(data, pos, prev, depth, count, total) == if count == 0 then Some([]) else None
      case Some((c, rest)) => match Coming(data, |data| - |rest|, c.base, depth, count, total + 1)
        case None => Coming(data, pos, prev, depth, count, total) == None
        case Some(more) => Coming(data, pos, prev, depth, count, total) == Some([c] + more)
  {
    hide ReadChain, Stream;
    if count > 0 { StreamStep(data[pos..], prev, depth, count - total); }
    if ReadChain(data[pos..], prev, depth).Some? {
      var (c, rest) := ReadChain(data[pos..], prev, depth).value;
      assert rest == data[|data| - |rest|..];
    }
  }

  /** The path every filter shares, with all of them switched off: decode all, keep what is on the page. */
  method PreviewLinear(data: seq<byte>, depth: nat, count: nat, start: nat, end: nat)
    returns (ok: bool, items: seq<Chain>, total: nat)
    requires start <= end
    ensures ok == Listing(data, depth, count).Some?
    ensures ok ==>
      total == |Listing(data, depth, count).value|
      && items == Page(Listing(data, depth, count).value, start, end)
  {
    hide ReadChain, Coming, Page;
    var prev: u64, pos: nat := 0, 0;
    ok, items, total := true, [], 0;
    ghost var whole, seen := Listing(data, depth, count), [];
    PageOfNothing(start, end);
    ComingAtStart(data, depth, count);
    assert forall more: seq<Chain> :: [] + more == more;
    while count == 0 || total < count
      invariant ok && pos <= |data| && (count == 0 || total <= count)
      invariant total == |seen| && items == Page(seen, start, end)
      invariant match Coming(data, pos, prev, depth, count, total)
        case None => whole == None
        case Some(more) => whole == Some(seen + more)
      decreases |data| - pos
    {
      ComingStep(data, pos, prev, depth, count, total);
      var c;
      ok, c, pos := ReadChainAt(data, pos, prev, depth);
      if !ok {
        assert count == 0 ==> seen + [] == seen;
        return count == 0, items, total;
      }
      prev := c.base;
      assert (seen + [c])[..total] == seen && (seen + [c])[..total + 1] == seen + [c];
      PageStep(seen + [c], total, start, end);
      assert forall more: seq<Chain> :: seen + ([c] + more) == (seen + [c]) + more;
      if start <= total < end {
        items := items + [c];
      }
      seen, total := seen + [c], total + 1;
      if total >= end && total >= count && count != 0 {
        break;
      }
    }
    ComingAtEnd(data, pos, prev, depth, count, total);
    assert seen + [] == seen;
  }

  lemma ComingAtStart(data: seq<byte>, depth: nat, count: nat)
    ensures Coming(data, 0, 0, depth, count, 0) == Listing(data, depth, count)
  {
    assert data[0..] == data;
  }

  lemma ComingAtEnd(data: seq<byte>, pos: nat, prev: u64, depth: nat, count: nat, total: nat)
    requires pos <= |data| && count > 0 && total == count
    ensures Coming(data, pos, prev, depth, count, total) == Some([])
  {
  }

  /** On a file that decodes, both paths show the same page and the same total. */
  method PathsAgree(data: seq<byte>, depth: nat, count: nat, stride: nat, start: nat, pageSize: nat)
    returns (items: seq<Chain>, total: nat)
    requires count > 0 && Stream(data, 0, depth, Some(count)).Some?
    ensures items == Page(Stream(data, 0, depth, Some(count)).value, start, start + pageSize) && total == count
  {
    var _, cps := BuildPreviewIndex(data, depth, count, stride);
    var end := start + pageSize;
    StreamPrefix(data, 0, depth, Min(end, count), count);
    var ok;
    ghost var decoded;
    ok, items, total, decoded := PreviewPage(data, depth, count, cps, start, end);
    var ok', items', total' := PreviewLinear(data, depth, count, start, end);
    assert items == items' && total == total';
  }
}
