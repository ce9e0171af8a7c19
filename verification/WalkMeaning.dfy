/**
 What it means that a chain resolves, place by place, and what the batch commands and the comparison of chain files keep
 in these terms.
 */
module WalkMeaning {
  import opened Machine
  import opened Resolver
  import opened AdaptiveVerify
  import opened Intersection
  import PointerFile
  import opened PointerCompare

  const TOP := 0x100_0000_0000_0000

  /**
   From `a` on to `b`: the pointer stored at `a` without its top byte, not null, plus the offset, without wrapping.
   */
  predicate Goes(read: Reads, psize: nat, a: int, offset: i64, b: int) {
    && 0 <= a < 0x1_0000_0000_0000_0000 && 0 <= b < 0x1_0000_0000_0000_0000
    && match read(a % TOP)
    case None => false
    case Some(v) => var p := if psize == 8 then v % TOP else v; p != 0 && b == p + offset
  }

  /** The places a resolver comes through that applies the offsets from the first one on. */
  predicate IsTrip(read: Reads, psize: nat, hops: seq<int>, offsets: seq<i64>) {
    && |hops| == |offsets| + 1
    && forall i :: 0 <= i < |offsets| ==> Goes(read, psize, hops[i], offsets[i], hops[i + 1])
  }

  lemma StepIsGoes(read: Reads, psize: nat, a: u64, offset: i64, b: int)
    ensures Goes(read, psize, a, offset, b) <==>
      ReadPointer(read, psize, a).Some? && ReadPointer(read, psize, a).value != 0
      && ApplyOffset(ReadPointer(read, psize, a).value, offset).Some?
      && b == ApplyOffset(ReadPointer(read, psize, a).value, offset).value
  {
    StripTagMeaning(a, a / TOP, a % TOP);
    match read(a % TOP)
    case None =>
    case Some(v) => StripTagMeaning(v, v / TOP, v % TOP);
  }

  lemma {:induction false} TripOf(read: Reads, psize: nat, a: u64, offsets: seq<i64>) returns (hops: seq<int>)
    requires Resolve(read, psize, a, offsets).Some?
    ensures IsTrip(read, psize, hops, offsets) && hops[0] == a
      && hops[|offsets|] == Resolve(read, psize, a, offsets).value
    decreases |offsets|
  {
    hide Goes, ReadPointer, ApplyOffset;
    if offsets == [] {
      hops := [a as int];
    } else {
      var next: u64 := ApplyOffset(ReadPointer(read, psize, a).value, offsets[0]).value;
      StepIsGoes(read, psize, a, offsets[0], next);
      var rest := TripOf(read, psize, next, offsets[1..]);
      hops := [a as int] + rest;
      forall i | 0 <= i < |offsets| ensures Goes(read, psize, hops[i], offsets[i], hops[i + 1]) {
        if i > 0 { assert Goes(read, psize, rest[i - 1], offsets[1..][i - 1], rest[i]); }
      }
    }
  }

  lemma {:induction false} TripResolves(read: Reads, psize: nat, a: u64, hops: seq<int>, offsets: seq<i64>)
    requires IsTrip(read, psize, hops, offsets) && hops[0] == a
    ensures Resolve(read, psize, a, offsets).Some? && Resolve(read, psize, a, offsets).value == hops[|offsets|]
    decreases |offsets|
  {
    hide Goes, ReadPointer, ApplyOffset;
    if offsets != [] {
      assert Goes(read, psize, hops[0], offsets[0], hops[1]);
      StepIsGoes(read, psize, a, offsets[0], hops[1]);
      forall i | 0 <= i < |offsets| - 1 ensures Goes(read, psize, hops[1..][i], offsets[1..][i], hops[1..][i + 1]) {
        assert Goes(read, psize, hops[i + 1], offsets[i + 1], hops[i + 2]);
      }
      TripResolves(read, psize, hops[1], hops[1..], offsets[1..]);
    }
  }

  /** A chain resolves to `end` exactly if a trip leads from its base there. */
  lemma ResolvesIff(read: Reads, psize: nat, a: u64, offsets: seq<i64>, end: int)
    ensures Resolve(read, psize, a, offsets).Some? && Resolve(read, psize, a, offsets).value == end <==>
      exists hops :: IsTrip(read, psize, hops, offsets) && hops[0] == a && hops[|offsets|] == end
  {
    if Resolve(read, psize, a, offsets).Some? { var hops := TripOf(read, psize, a, offsets); }
    if hops :| IsTrip(read, psize, hops, offsets) && hops[0] == a && hops[|offsets|] == end {
      TripResolves(read, psize, a, hops, offsets);
    }
  }

  /** What the comparison counts as valid: a trip from the base to a target. */
  lemma ArrivesIff(e: Env, c: Chain)
    ensures Arrives(e, c) <==>
      exists hops :: IsTrip(e.read, e.psize, hops, c.offsets) && hops[0] == c.base && hops[|c.offsets|] in e.targets
  {
    hide Resolve, IsTrip;
    if Resolve(e.read, e.psize, c.base, c.offsets).Some? {
      var hops := TripOf(e.read, e.psize, c.base, c.offsets);
      AboutTrip(e.read, e.psize, hops, c.offsets);
    }
    forall hops | IsTrip(e.read, e.psize, hops, c.offsets)
      ensures |hops| == |c.offsets| + 1
      ensures hops[0] == c.base && hops[|c.offsets|] in e.targets ==> Arrives(e, c)
    {
      AboutTrip(e.read, e.psize, hops, c.offsets);
      if hops[0] == c.base { TripResolves(e.read, e.psize, c.base, hops, c.offsets); }
    }
  }

  lemma AboutTrip(read: Reads, psize: nat, hops: seq<int>, offsets: seq<i64>)
    ensures IsTrip(read, psize, hops, offsets) ==> |hops| == |offsets| + 1
  {
  }

  // ----- what the commands keep

  /** An address without the top byte that 64-bit pointers may carry. */
  function Untagged(psize: nat, x: int): int { if psize == 8 then x % TOP else x }

  lemma KeyIs(psize: nat, x: u64)
    ensures Key(psize, x) == Untagged(psize, x)
  {
    StripTagMeaning(x, x / TOP, x % TOP);
  }

  /** The trip leads from `a` to `end`. */
  ghost predicate Leads(read: Reads, psize: nat, a: int, offsets: seq<i64>, end: int) {
    exists hops :: IsTrip(read, psize, hops, offsets) && hops[0] == a && hops[|offsets|] == end
  }

  /** Where a chain arrives only for an agent that drops top bytes on both sides. */
  lemma StraddlesIff(e: Env, c: Chain)
    requires c.offsets != []
    ensures Straddles(e, c) <==>
      e.psize == 8 && exists end :: Leads(e.read, 8, c.base, c.offsets, end) && end >= TOP && end % TOP in e.targets
  {
    hide Resolve, AgentAnswer, IsTrip;
    AnswerIsWalk(e, c);
    var r := Resolve(e.read, e.psize, c.base, c.offsets);
    forall end: int ensures Leads(e.read, e.psize, c.base, c.offsets, end) <==> r.Some? && r.value == end {
      ResolvesIff(e.read, e.psize, c.base, c.offsets, end);
    }
    if r.Some? {
      StripTagMeaning(r.value, r.value / TOP, r.value % TOP);
      assert Leads(e.read, e.psize, c.base, c.offsets, r.value);
    }
  }

  /** The first batch command, as the client reads its answers: the chain leads to a target. */
  lemma FirstCommandKeepsIff(read: Reads, psize: nat, targets: seq<u64>, c: Chain)
    requires c.offsets != []
    ensures AcceptedV1(read, psize, targets, c) <==>
      exists end :: Leads(read, psize, c.base, c.offsets, end) && end in targets
  {
    hide Resolve, AgentAnswer, IsTrip;
    AnswerIsWalk(Env(read, psize, targets, 1), c);
    var r := Resolve(read, psize, c.base, c.offsets);
    forall end: int ensures Leads(read, psize, c.base, c.offsets, end) <==> r.Some? && r.value == end {
      ResolvesIff(read, psize, c.base, c.offsets, end);
    }
  }

  /**
   The second one: to a nonzero target up to top bytes, or anywhere if it is not to filter or there are no targets.
   */
  lemma SecondCommandKeepsIff(read: Reads, psize: nat, targets: seq<u64>, filter: bool, c: Chain)
    requires c.offsets != []
    ensures KeptByAgent(read, psize, targets, filter, c) <==>
      exists end :: Leads(read, psize, c.base, c.offsets, end)
        && (!filter || targets == [] || WithoutTags(psize, targets, end))
  {
    hide Resolve, AgentAnswer, IsTrip, Key, Untagged;
    AnswerIsWalk(Env(read, psize, targets, 1), c);
    var r := Resolve(read, psize, c.base, c.offsets);
    forall end: int ensures Leads(read, psize, c.base, c.offsets, end) <==> r.Some? && r.value == end {
      ResolvesIff(read, psize, c.base, c.offsets, end);
    }
    if r.Some? {
      forall x: u64 ensures Key(psize, x) == Untagged(psize, x) { KeyIs(psize, x); }
      assert Leads(read, psize, c.base, c.offsets, r.value);
    }
  }

  /** A chain without offsets stands for its base. */
  lemma EmptyChainKept(read: Reads, psize: nat, targets: seq<u64>, filter: bool, base: u64)
    ensures AcceptedV1(read, psize, targets, Chain(base, [])) <==> Untagged(psize, base) in targets
    ensures KeptByAgent(read, psize, targets, filter, Chain(base, [])) <==>
      !filter || targets == [] || WithoutTags(psize, targets, base)
  {
    hide Key, Untagged;
    forall x: u64 ensures Key(psize, x) == Untagged(psize, x) { KeyIs(psize, x); }
    KeyIs(psize, Key(psize, base));
    UntaggedTwice(psize, base);
    assert AgentAnswer(read, psize, Chain(base, [])) == Some(Key(psize, base)) by { AnswerIsKey(read, psize, base); }
  }

  lemma AnswerIsKey(read: Reads, psize: nat, base: u64)
    ensures AgentAnswer(read, psize, Chain(base, [])) == Some(Key(psize, base))
  {
  }

  lemma UntaggedTwice(psize: nat, x: int)
    ensures Untagged(psize, Untagged(psize, x)) == Untagged(psize, x)
  {
  }

  ghost predicate WithoutTags(psize: nat, targets: seq<u64>, end: int) {
    exists t :: t in targets && Untagged(psize, t) != 0 && Untagged(psize, t) == Untagged(psize, end)
  }

  // ----- what a comparison confirms

  lemma IsTargetIff(files: seq<Input>, psize: nat, t: u64)
    ensures IsTarget(files, psize, t) <==>
      t != 0 && exists i, u :: 0 <= i < |files| && u in files[i].targets && Untagged(psize, u) == t
  {
    hide Key, Untagged;
    forall u: u64 ensures Key(psize, u) == Untagged(psize, u) { KeyIs(psize, u); }
  }

  /** Confirmed are chains of every file, each once: all that lead to a target, and some that do so up to a top byte. */
  lemma ConfirmedMeans(e: Env, files: seq<Input>, valid: seq<Chain>, c: Chain)
    requires Confirmed(e, files, valid) && c.offsets != []
    ensures forall i, j :: 0 <= i < j < |valid| ==> valid[i] != valid[j]
    ensures c in valid ==> InAllFiles(files, c) && exists end ::
      Leads(e.read, e.psize, c.base, c.offsets, end)
      && (end in e.targets || (e.psize == 8 && end >= TOP && end % TOP in e.targets))
    ensures forall end ::
      InAllFiles(files, c) && Leads(e.read, e.psize, c.base, c.offsets, end) && end in e.targets ==> c in valid
  {
    hide Arrives, Straddles, InAllFiles, IsTrip;
    ArrivesIff(e, c);
    StraddlesIff(e, c);
    forall hops | IsTrip(e.read, e.psize, hops, c.offsets) ensures |hops| == |c.offsets| + 1 {
      AboutTrip(e.read, e.psize, hops, c.offsets);
    }
    if exists hops :: IsTrip(e.read, e.psize, hops, c.offsets) && hops[0] == c.base && hops[|c.offsets|] in e.targets {
      var hops :| IsTrip(e.read, e.psize, hops, c.offsets) && hops[0] == c.base && hops[|c.offsets|] in e.targets;
      assert Leads(e.read, e.psize, c.base, c.offsets, hops[|c.offsets|]);
    }
  }

  /** The chains a file holds, read with its depth and its count; a count of 0 means to the end of the file. */
  lemma InAllFilesIff(files: seq<Input>, c: Chain)
    ensures InAllFiles(files, c) <==> forall i :: 0 <= i < |files| ==>
      var f := files[i];
      var chains := PointerFile.Stream(f.data, 0, f.depth, if f.count == 0 then None else Some(f.count));
      chains.Some? && c in chains.value
  {
    hide PointerFile.Stream;
  }

  /**
   When a comparison gives up: of two files it reads both, each at most five million chains long unless they are split
   into buckets; of more it reads one after the other as long as they share a chain.
   */
  lemma GivesUpIff(files: seq<Input>, multi: bool, fast: bool)
    requires |files| >= 2
    ensures Stops(files, multi, fast) <==>
      if |files| == 2 && !multi then
        var (a, b) := (Contents(files[0]), Contents(files[1]));
        a.None? || b.None?
        || ((!fast || files[0].size + files[1].size < 0x800_0000) && (|a.value| > 5_000_000 || |b.value| > 5_000_000))
      else
        exists n :: 0 <= n < |files| && Contents(files[n]).None?
          && (forall i :: 0 <= i < n ==> Contents(files[i]).Some?)
          && (n <= 1 || exists c :: InAllFiles(files[..n], c))
  {
    hide Contents;
    if !(|files| == 2 && !multi) {
      forall n | 0 <= n < |files|
        ensures FailsAt(AllContents(files), n) <==>
          Contents(files[n]).None? && (forall i :: 0 <= i < n ==> Contents(files[i]).Some?)
          && (n <= 1 || exists c :: InAllFiles(files[..n], c))
      {
        if forall i :: 0 <= i < n ==> Contents(files[i]).Some? { SharedBefore(files, n); }
      }
    }
  }

  lemma SharedBefore(files: seq<Input>, n: nat)
    requires n < |files| && forall i :: 0 <= i < n ==> Contents(files[i]).Some?
    ensures (exists c :: InAll(Intersection.Readable(AllContents(files), n), c)) <==>
      exists c :: InAllFiles(files[..n], c)
  {
    hide Contents;
    var lists := Intersection.Readable(AllContents(files), n);
    forall c ensures InAll(lists, c) <==> InAllFiles(files[..n], c) {
      forall i | 0 <= i < n ensures lists[i] == Contents(files[..n][i]).value && Contents(files[..n][i]).Some? {
      }
      if InAllFiles(files[..n], c) {
        forall i | 0 <= i < |lists| ensures c in lists[i] {
          assert c in Contents(files[..n][i]).value;
        }
      }
    }
  }
}
