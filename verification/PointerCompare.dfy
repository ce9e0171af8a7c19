/**
 The whole comparison of chain files: reading them, intersecting them, checking what they share against
 the live process, and writing what is left.
 */
module PointerCompare {
  import opened Machine
  import opened Ordering
  import opened Varint
  import opened Resolver
  import opened PointerFile
  import opened Intersection
  import opened AdaptiveVerify
  import opened VerifyWorkers

  /** A chain file: its header's fields and its data section. */
  datatype Input = Input(depth: nat, psize: nat, count: nat, target: u64, targets: seq<u64>, size: nat, data: seq<byte>)

  function Contents(f: Input): Option<seq<Chain>> { Stream(f.data, 0, f.depth, CountField(f.count)) }

  /** What the files agree on the process must still confirm for this chain. */
  ghost predicate InAllFiles(files: seq<Input>, c: Chain) {
    forall i :: 0 <= i < |files| ==> Contents(files[i]).Some? && c in Contents(files[i]).value
  }

  lemma {:induction false} StreamUniform(s: seq<byte>, prev: u64, depth: nat, left: Option<nat>)
    ensures Stream(s, prev, depth, left).Some? ==>
      forall i :: 0 <= i < |Stream(s, prev, depth, left).value| ==>
        |Stream(s, prev, depth, left).value[i].offsets| == depth
    decreases |s|
  {
    hide ReadUint, ReadOffsets;
    if left != Some(0) && ReadUint(s).Some? {
      match ReadChain(s, prev, depth)
      case None =>
      case Some((c, rest)) =>
        StreamUniform(rest, c.base, depth, if left.None? then None else Some(left.value - 1));
    }
  }

  // ----- the targets

  /** The untagged, nonzero targets of all files. */
  ghost predicate IsTarget(files: seq<Input>, psize: nat, t: u64) {
    t != 0 && exists i, u :: 0 <= i < |files| && u in files[i].targets && Key(psize, u) == t
  }

  /** One file's targets join the set. */
  method AddTargets(targets: seq<u64>, psize: nat, known: set<u64>) returns (all: set<u64>)
    ensures forall t :: t in all <==> t in known || (t != 0 && exists u :: u in targets && Key(psize, u) == t)
  {
    hide Key;
    all := known;
    for i := 0 to |targets|
      invariant forall t :: t in all <==> t in known || (t != 0 && exists u :: u in targets[..i] && Key(psize, u) == t)
    {
      var t := Key(psize, targets[i]);
      assert targets[..i + 1] == targets[..i] + [targets[i]];
      assert targets[i] in targets[..i + 1];
      if t != 0 {
        all := all + {t};
      }
    }
    assert targets[..|targets|] == targets;
  }

  /** The union of the targets; without any, the first header's own. */
  method TargetUnion(files: seq<Input>, psize: nat) returns (targets: seq<u64>)
    requires |files| > 0
    ensures targets != []
    ensures (exists t :: IsTarget(files, psize, t)) ==> forall t :: t in targets <==> IsTarget(files, psize, t)
    ensures (forall t :: !IsTarget(files, psize, t)) ==> forall t :: t in targets <==> t == files[0].target
  {
    hide Key;
    var all: set<u64> := {};
    for i := 0 to |files|
      invariant forall t :: t in all <==> IsTarget(files[..i], psize, t)
    {
      ghost var known := all;
      all := AddTargets(files[i].targets, psize, all);
      forall t ensures t in all <==> IsTarget(files[..i + 1], psize, t) {
        TargetsAppend(files, psize, i, t);
      }
    }
    assert files[..|files|] == files;
    if all == {} {
      all := {files[0].target};
    }
    targets := [];
    var rest := all;
    while rest != {}
      invariant rest <= all && forall t :: t in targets <==> t in all && t !in rest
      decreases |rest|
    {
      var t :| t in rest;
      targets, rest := targets + [t], rest - {t};
    }
    ghost var before := targets;
    targets := Sort(targets, (a: u64, b: u64) => a <= b);
    SameMultisetSameElements(targets, before);
    assert exists t :: t in targets by {
      var t :| t in all;
      assert t in targets;
    }
  }

  lemma TargetsAppend(files: seq<Input>, psize: nat, i: nat, t: u64)
    requires i < |files|
    ensures IsTarget(files[..i + 1], psize, t) <==>
      IsTarget(files[..i], psize, t) || (t != 0 && exists u :: u in files[i].targets && Key(psize, u) == t)
  {
    hide Key;
    var longer, shorter := files[..i + 1], files[..i];
    assert longer == shorter + [files[i]] && longer[i] == files[i];
    if IsTarget(shorter, psize, t) {
      var k, u :| 0 <= k < i && u in shorter[k].targets && Key(psize, u) == t;
      assert u in longer[k].targets;
    }
    if IsTarget(longer, psize, t) {
      var k, u :| 0 <= k <= i && u in longer[k].targets && Key(psize, u) == t;
      assert k < i ==> u in shorter[k].targets;
    }
  }

  lemma TargetsAreClean(files: seq<Input>, psize: nat, targets: seq<u64>)
    requires forall t :: t in targets <==> IsTarget(files, psize, t)
    ensures CleanTargets(targets, psize)
  {
    forall t | t in targets ensures t != 0 && (psize == 8 ==> t < TAG_LIMIT) {
      var i, u :| 0 <= i < |files| && u in files[i].targets && Key(psize, u) == t;
    }
  }

  // ----- what verification leaves of the candidates

  lemma {:induction false} SelectedMember(e: Env, chains: seq<Chain>, route: Route, c: Chain)
    requires |route| == |chains| && Decided(route)
    ensures multiset(Selected(e, chains, route))[c] <= multiset(chains)[c]
    ensures c in chains && Accepts(e, false, c) && Accepts(e, true, c) ==> c in Selected(e, chains, route)
    ensures c in Selected(e, chains, route) ==> c in chains && (Accepts(e, false, c) || Accepts(e, true, c))
  {
    hide Accepts;
    if chains != [] {
      SelectedMember(e, chains[1..], route[1..], c);
      var once := Once(Accepts(e, route[0].byFilter, chains[0]), chains[0]);
      assert chains == [chains[0]] + chains[1..];
      assert multiset(Selected(e, chains, route)) == multiset(once) + multiset(Selected(e, chains[1..], route[1..]));
    }
  }

  lemma SingleOccurrences(list: seq<Chain>)
    requires forall c :: multiset(list)[c] <= 1
    ensures NoDuplicates(list)
  {
    forall i, j | 0 <= i < j < |list| ensures list[i] != list[j] {
      if list[i] == list[j] { TwoOccurrences(list, i, j); }
    }
  }

  lemma TwoOccurrences(list: seq<Chain>, i: nat, j: nat)
    requires i < j < |list| && list[i] == list[j]
    ensures multiset(list)[list[i]] >= 2
  {
    var front, back := list[..j], list[j..];
    assert list == front + back && front[i] == list[i] && back[0] == list[j];
    assert multiset(list)[list[i]] == multiset(front)[list[i]] + multiset(back)[list[i]];
  }

  /** The outcome the comparison promises, in terms of the files and the process alone. */
  ghost predicate Confirmed(e: Env, files: seq<Input>, valid: seq<Chain>) {
    && NoDuplicates(valid)
    && (forall c :: c in valid ==> InAllFiles(files, c) && (Arrives(e, c) || Straddles(e, c)))
    && (forall c :: InAllFiles(files, c) && Arrives(e, c) ==> c in valid)
  }

  /** Whatever way the candidates were decided, what is left of them is confirmed. */
  lemma SelectedIsConfirmed(e: Env, files: seq<Input>, candidates: seq<Chain>, route: Route, valid: seq<Chain>)
    requires CleanTargets(e.targets, e.psize) && e.depth > 0 && Uniform(e, candidates)
    requires NoDuplicates(candidates) && forall c :: c in candidates <==> InAllFiles(files, c)
    requires |route| == |candidates| && Decided(route)
    requires multiset(valid) == multiset(Selected(e, candidates, route))
    ensures Confirmed(e, files, valid)
  {
    hide Accepts, Arrives, Straddles, CleanTargets, Selected, InAllFiles;
    forall c
      ensures c in valid ==> c in candidates && (Arrives(e, c) || Straddles(e, c))
      ensures c in candidates && Arrives(e, c) ==> c in valid
      ensures multiset(valid)[c] <= 1
    {
      SelectedMember(e, candidates, route, c);
      OneEach(candidates, c);
      assert c in valid <==> c in multiset(valid);
      assert c in Selected(e, candidates, route) <==> c in multiset(Selected(e, candidates, route));
      ArrivesIsAccepts(e, c);
      if c in candidates {
        var i :| 0 <= i < |candidates| && candidates[i] == c;
        FilterAddsStraddlers(e, c);
      }
    }
    SingleOccurrences(valid);
  }

  lemma ArrivesIsAccepts(e: Env, c: Chain)
    ensures Accepts(e, false, c) <==> Arrives(e, c)
  {
  }

  // ----- the whole run

  /** Reading one file after the other; a file that does not decode is none. */
  method StreamAll(files: seq<Input>) returns (streams: seq<Option<seq<Chain>>>)
    ensures |streams| == |files| && forall i :: 0 <= i < |files| ==> streams[i] == Contents(files[i])
  {
    hide Stream;
    streams := [];
    for i := 0 to |files|
      invariant |streams| == i && forall j :: 0 <= j < i ==> streams[j] == Contents(files[j])
    {
      var ok, chains := StreamFile(files[i].data, files[i].depth, files[i].count);
      streams := streams + [if ok then Some(chains) else None];
    }
  }

  predicate InPairs(files: seq<Input>, multi: bool) { !multi && |files| == 2 }

  function AllContents(files: seq<Input>): (r: seq<Option<seq<Chain>>>)
    ensures |r| == |files| && forall i :: 0 <= i < |r| ==> r[i] == Contents(files[i])
  {
    seq(|files|, i requires 0 <= i < |files| => Contents(files[i]))
  }

  /**
   A file stops the comparison: of two, by not decoding or being too long; of more, by not decoding when its turn comes.
   */
  ghost predicate Stops(files: seq<Input>, multi: bool, fast: bool)
    requires |files| >= 2
  {
    if InPairs(files, multi) then
      !BothRead(Contents(files[0]), Contents(files[1]), UseBuckets(files[0].size, files[1].size, fast))
    else
      exists n :: 0 <= n < |files| && FailsAt(AllContents(files), n)
  }

  /** Two files share more chains than are allowed. */
  ghost predicate SharesTooMany(files: seq<Input>, multi: bool)
    requires |files| >= 2
  {
    && InPairs(files, multi) && Contents(files[0]).Some? && Contents(files[1]).Some?
    && |Shared(Contents(files[0]).value, Contents(files[1]).value)| >= CANDIDATE_LIMIT
  }

  /** Two files are merged, more are counted. */
  method FindCandidates(files: seq<Input>, multi: bool, fast: bool, hash: Chain -> u64)
    returns (outcome: Outcome, candidates: seq<Chain>)
    requires |files| >= 2
    ensures outcome == Unread <==> Stops(files, multi, fast)
    ensures outcome == TooMany <==> !Stops(files, multi, fast) && SharesTooMany(files, multi)
    ensures outcome == Listed ==> NoDuplicates(candidates) && forall c :: c in candidates <==> InAllFiles(files, c)
  {
    hide Contents;
    var streams := StreamAll(files);
    if InPairs(files, multi) {
      outcome, candidates := IntersectPair(streams[0], streams[1], files[0].size, files[1].size, fast, hash);
    } else {
      var ok;
      assert streams == AllContents(files);
      ok, candidates := IntersectMany(streams);
      outcome := if ok then Listed else Unread;
    }
  }

  lemma CandidatesUniform(files: seq<Input>, candidates: seq<Chain>, depth: nat)
    requires |files| > 0 && files[0].depth == depth && forall c :: c in candidates ==> InAllFiles(files, c)
    ensures forall i :: 0 <= i < |candidates| ==> |candidates[i].offsets| == depth
  {
    StreamUniform(files[0].data, 0, files[0].depth, CountField(files[0].count));
    forall i | 0 <= i < |candidates| ensures |candidates[i].offsets| == depth {
      assert InAllFiles(files, candidates[i]);
    }
  }

  /** Few candidates need no more than one thread; few enough are checked on the open session. */
  function Threads(hardware: nat, candidates: nat): (n: nat)
    ensures 1 <= n <= 4 && (n == 1 || hardware == 0 || 2 * n <= hardware)
    ensures candidates < 256 ==> n == 1
    ensures candidates < 2048 || hardware == 0 ==> n <= 2
    ensures candidates >= 256 && (hardware == 0 || hardware >= 4) ==> n >= 2
    ensures candidates >= 2048 && hardware >= 8 ==> n == 4
  {
    var most := Max(1, Min(4, if hardware == 0 then 2 else hardware / 2));
    if candidates < 256 then 1 else if candidates < 2048 then Min(most, 2) else most
  }

  method FreshCaches(e: Env, n: nat) returns (caches: seq<PrefixCache>)
    ensures |caches| == n && forall i :: 0 <= i < n ==> fresh(caches[i]) && caches[i].Valid(e.read, e.psize)
    ensures forall i, j :: 0 <= i < j < n ==> caches[i] != caches[j]
  {
    caches := [];
    for k := 0 to n
      invariant |caches| == k && forall i :: 0 <= i < k ==> fresh(caches[i]) && caches[i].entries == map[]
      invariant forall i, j :: 0 <= i < j < k ==> caches[i] != caches[j]
    {
      var cache := new PrefixCache();
      caches := caches + [cache];
    }
  }

  function Join(ws: seq<Session>): seq<Chain> { if ws == [] then [] else ws[0].valid + Join(ws[1..]) }

  lemma {:induction false} JoinIsAll(ws: seq<Session>)
    ensures multiset(Join(ws)) == All(ws)
  {
    if ws != [] { JoinIsAll(ws[1..]); }
  }

  /** The candidates are checked on the open session, or by workers of which some must get through. */
  method Verify(e: Env, candidates: seq<Chain>, hardware: nat, filter: bool, cache: PrefixCache)
    returns (valid: seq<Chain>, connected: bool, ghost route: Route)
    requires Uniform(e, candidates) && cache.Valid(e.read, e.psize)
    modifies cache
    ensures cache.Valid(e.read, e.psize)
    ensures connected ==>
      |route| == |candidates| && Decided(route)
      && multiset(valid) == multiset(Selected(e, candidates, route))
    ensures !connected ==> valid == []
    ensures |candidates| < 256 ==> connected
  {
    hide Selected;
    var tuning := new Tuning(e.depth, filter);
    var threads := Threads(hardware, |candidates|);
    if threads == 1 && |candidates| <= 4096 {
      connected := true;
      valid, route := VerifyOnSession(e, candidates, tuning, cache);
    } else {
      var caches := FreshCaches(e, threads);
      var sessions;
      sessions, connected, route := VerifyOnWorkers(e, candidates, tuning, caches);
      JoinIsAll(sessions);
      valid := Join(sessions);
      assert !connected ==> |multiset(valid)| == 0;
    }
  }

  /**
   How a comparison ends: a file was written, the input was refused, not read or too much, or nothing was left to write.
   */
  datatype Ending = Written | Refused | Undecoded | LimitReached | NothingShared | NothingValid

  /**
   The comparison. The file it writes decodes to chains that all input files hold and the process confirms, each once,
   and no such chain is missing. When it writes nothing for want of chains there are none, unless no worker got through.
   */
  method RunPointerCompare(files: seq<Input>, multi: bool, fast: bool, hash: Chain -> u64, read: Reads, hardware: nat,
                           filter: bool, cache: PrefixCache)
    returns (ending: Ending, data: seq<byte>, written: nat, connected: bool, ghost e: Env)
    requires |files| > 0 ==> cache.Valid(read, files[0].psize)
    modifies cache
    ensures |files| > 0 ==> e.read == read && e.psize == files[0].psize && e.depth == files[0].depth
    ensures ending == Refused <==>
      |files| < 2
      || exists i, j ::
           0 <= i < j < |files| && (files[i].depth != files[j].depth || files[i].psize != files[j].psize)
    ensures ending == Written ==> forall i :: 0 <= i < |files| ==>
      files[i].depth == e.depth && files[i].psize == e.psize
    ensures ending != Refused && (exists t :: IsTarget(files, e.psize, t)) ==>
      forall t :: t in e.targets <==> IsTarget(files, e.psize, t)
    ensures ending != Refused ==>
      && (ending == Undecoded <==> Stops(files, multi, fast))
      && (ending == LimitReached <==> !Stops(files, multi, fast) && SharesTooMany(files, multi))
      && (ending == NothingShared <==>
        !Stops(files, multi, fast) && !SharesTooMany(files, multi) && forall c :: !InAllFiles(files, c))
    ensures ending != Written ==> data == [] && written == 0
    ensures ending == Written ==> written > 0 && connected && Stream(data, 0, e.depth, CountField(written)).Some?
    ensures ending == Written && e.depth > 0 && (exists t :: IsTarget(files, e.psize, t)) ==>
      Confirmed(e, files, Stream(data, 0, e.depth, CountField(written)).value)
    ensures ending == NothingValid && connected && e.depth > 0 && (exists t :: IsTarget(files, e.psize, t)) ==>
      Confirmed(e, files, [])
  {
    hide IsTarget, InAllFiles, Confirmed, Selected, CleanTargets, Decided, Stops, SharesTooMany, SameShape;
    ShapesDiffer(files);
    ending, data, written, connected := Refused, [], 0, false;
    if |files| == 0 {
      e := Env(read, 0, [], 0);
      return;
    }
    e := Env(read, files[0].psize, [], files[0].depth);
    if |files| < 2 || !SameShape(files) {
      return;
    }
    var targets := TargetUnion(files, files[0].psize);
    var env := Env(read, files[0].psize, targets, files[0].depth);
    e := env;
    var outcome, candidates := FindCandidates(files, multi, fast, hash);
    if outcome != Listed {
      ending := if outcome == Unread then Undecoded else LimitReached;
      return;
    }
    FirstIsShared(files, candidates);
    if candidates == [] {
      ending := NothingShared;
      return;
    }
    CandidatesUniform(files, candidates, e.depth);
    var valid;
    ghost var route;
    valid, connected, route := Verify(env, candidates, hardware, filter, cache);
    if connected && e.depth > 0 && exists t :: IsTarget(files, e.psize, t) {
      TargetsAreClean(files, e.psize, targets);
      SelectedIsConfirmed(e, files, candidates, route, valid);
    }
    if |valid| == 0 {
      ending := NothingValid;
      return;
    }
    data, written := WriteChains(valid);
    ending := Written;
    ValidUniform(e, candidates, route, valid);
    ChainsRoundTrip(valid, 0, e.depth);
  }

  /** All files hold chains of one depth and one pointer size. */
  predicate SameShape(files: seq<Input>) {
    forall i :: 0 <= i < |files| ==> files[i].depth == files[0].depth && files[i].psize == files[0].psize
  }

  lemma ShapesDiffer(files: seq<Input>)
    ensures SameShape(files) <==> !exists i, j ::
      0 <= i < j < |files| && (files[i].depth != files[j].depth || files[i].psize != files[j].psize)
    ensures SameShape(files) ==>
      forall i :: 0 <= i < |files| ==> files[i].depth == files[0].depth && files[i].psize == files[0].psize
  {
    if !SameShape(files) {
      var j :| 0 <= j < |files| && !(files[j].depth == files[0].depth && files[j].psize == files[0].psize);
      assert 0 < j;
    }
  }

  lemma FirstIsShared(files: seq<Input>, candidates: seq<Chain>)
    requires forall c :: c in candidates <==> InAllFiles(files, c)
    ensures candidates == [] <==> forall c :: !InAllFiles(files, c)
  {
    hide InAllFiles;
    if candidates != [] { assert candidates[0] in candidates; }
  }

  lemma ValidUniform(e: Env, candidates: seq<Chain>, route: Route, valid: seq<Chain>)
    requires Uniform(e, candidates) && |route| == |candidates| && Decided(route)
    requires multiset(valid) == multiset(Selected(e, candidates, route))
    ensures forall i :: 0 <= i < |valid| ==> |valid[i].offsets| == e.depth
  {
    hide Selected;
    forall i | 0 <= i < |valid| ensures |valid[i].offsets| == e.depth {
      SelectedMember(e, candidates, route, valid[i]);
      assert valid[i] in multiset(valid);
      assert valid[i] in multiset(Selected(e, candidates, route));
      assert valid[i] in candidates;
    }
  }

  /**
   When the last offset of every shared chain is at most every target, the outcome is exact: what is confirmed is what
   all files hold and the process leads from to a target.
   */
  lemma ConfirmedIsExact(e: Env, files: seq<Input>, valid: seq<Chain>)
    requires Confirmed(e, files, valid) && CleanTargets(e.targets, e.psize)
    requires forall c :: InAllFiles(files, c) ==> c.offsets != [] && LastStaysBelow(e.psize, e.targets, c.offsets)
    ensures NoDuplicates(valid) && forall c :: c in valid <==> InAllFiles(files, c) && Arrives(e, c)
  {
    hide InAllFiles, Arrives, Straddles, CleanTargets, LastStaysBelow;
    forall c | c in valid ensures Arrives(e, c) { LowOffsetsNeverStraddle(e, c); }
  }
}
