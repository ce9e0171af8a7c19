/**
 Checking the chains two files share against the live process. Spans of candidates go to the agent in
 batches whose size adapts to what the connection bears; a span the agent cannot take is walked chain by
 chain. One session handles short lists, several workers long ones.
 */
module AdaptiveVerify {
  import opened Machine
  import opened Resolver

  const MAX_PAYLOAD := 16 * 1024 * 1024
  const BATCH_HEADER := 16

  /** The frozen process, the sorted targets, and the depth all candidates have. */
  datatype Env = Env(read: Reads, psize: nat, targets: seq<u64>, depth: nat)

  ghost predicate Uniform(e: Env, chains: seq<Chain>) {
    forall i :: 0 <= i < |chains| ==> |chains[i].offsets| == e.depth
  }

  /** What the client's own walk accepts: the meaning of a valid chain. */
  predicate Arrives(e: Env, c: Chain) {
    Resolve(e.read, e.psize, c.base, c.offsets).Some? && Resolve(e.read, e.psize, c.base, c.offsets).value in e.targets
  }

  predicate Accepts(e: Env, byFilter: bool, c: Chain) {
    if byFilter then AcceptedV2(e.read, e.psize, e.targets, c) else Arrives(e, c)
  }

  /** The accepted chains of a span, in order. */
  function Kept(e: Env, byFilter: bool, chains: seq<Chain>): seq<Chain> {
    if chains == [] then [] else Once(Accepts(e, byFilter, chains[0]), chains[0]) + Kept(e, byFilter, chains[1..])
  }

  function Once(keep: bool, c: Chain): seq<Chain> { if keep then [c] else [] }

  lemma {:induction false} KeptSkip(e: Env, byFilter: bool, chains: seq<Chain>, from: nat, until: nat)
    requires from <= until <= |chains| && forall i :: from <= i < until ==> !Accepts(e, byFilter, chains[i])
    ensures Kept(e, byFilter, chains[from..]) == Kept(e, byFilter, chains[until..])
    decreases until - from
  {
    hide Accepts;
    if from < until {
      assert chains[from..][1..] == chains[from + 1..];
      KeptSkip(e, byFilter, chains, from + 1, until);
    }
  }

  lemma KeptStep(e: Env, byFilter: bool, chains: seq<Chain>, i: nat)
    requires i < |chains|
    ensures Kept(e, byFilter, chains[i..])
      == Once(Accepts(e, byFilter, chains[i]), chains[i]) + Kept(e, byFilter, chains[i + 1..])
  {
    assert chains[i..][1..] == chains[i + 1..];
  }

  /** For chains that dereference at least once, the agent's answer is where the client's walk ends. */
  lemma AnswerIsWalk(e: Env, c: Chain)
    requires |c.offsets| > 0
    ensures AgentAnswer(e.read, e.psize, c) == Resolve(e.read, e.psize, c.base, c.offsets)
    ensures AcceptedV1(e.read, e.psize, e.targets, c) == Arrives(e, c)
  {
    TaggedBase(e.read, e.psize, c.base, c.offsets);
  }

  /** The batch size shared by all sessions, and which commands the agent still gets. */
  class Tuning {
    const minBatch: nat
    const maxBatch: nat
    const depth16: nat
    var dynamicBatch: nat
    var batchSupported: bool
    var filterSupported: bool

    ghost predicate Valid()
      reads this
    {
      1 <= minBatch <= dynamicBatch <= maxBatch <= 4096
    }

    constructor (depth: nat, filter: bool)
      ensures Valid() && depth16 == (if depth > 0xffff then 0 else depth)
      ensures maxBatch > 1 ==> 16 + maxBatch * (8 + 8 * depth) <= 0x100_0000
      ensures depth == 0 || depth > 0xffff ==> maxBatch == 1
      ensures 0 < depth <= 0xffff ==> maxBatch == 4096 || 16 + (maxBatch + 1) * (8 + 8 * depth) > 0x100_0000
      ensures minBatch == Min(64, maxBatch) && dynamicBatch == Min(512, maxBatch)
      ensures batchSupported && filterSupported == filter
    {
      var small := if depth > 0xffff then 0 else depth;
      var fitting := if small > 0 then (MAX_PAYLOAD - BATCH_HEADER) / (8 + 8 * depth) else 0;
      Quotient(MAX_PAYLOAD - BATCH_HEADER, 8 + 8 * depth);
      Largest(MAX_PAYLOAD - BATCH_HEADER, 8 + 8 * depth);
      var most := Min(if fitting == 0 then 1 else fitting, 4096);
      var least := Max(1, Min(64, most));
      depth16, maxBatch, minBatch := small, most, least;
      dynamicBatch := Max(least, Min(most, 512));
      batchSupported, filterSupported := true, filter;
      LessPayload(most, fitting, 8 + 8 * depth);
    }

    method Span() returns (span: nat)
      requires Valid()
      ensures 1 <= span <= maxBatch && span == dynamicBatch
    {
      span := Max(1, Min(maxBatch, dynamicBatch));
    }

    /** After a batch that worked: two full ones in a row double the size, unless another session has changed it. */
    method Succeeded(span: nat, count: nat, streak: nat) returns (next: nat)
      requires Valid() && 1 <= span <= maxBatch
      modifies this`dynamicBatch
      ensures Valid()
      ensures dynamicBatch == old(dynamicBatch) ||
        (old(dynamicBatch) == span && count == span && streak >= 1 && dynamicBatch == Min(maxBatch, 2 * span))
      ensures next == if count == span && streak >= 1 && span < maxBatch then 0 else streak + 1
    {
      next := streak + 1;
      if count == span && next >= 2 && span < maxBatch {
        var grown := Min(maxBatch, span * 2);
        var exchanged: bool := *;
        if exchanged && dynamicBatch == span {
          dynamicBatch := grown;
        }
        next := 0;
      }
    }

    /** After a batch that failed: halve the size, or give batches up. */
    method Failed(span: nat)
      requires Valid() && 1 <= span <= maxBatch
      modifies this`dynamicBatch, this`batchSupported
      ensures Valid()
      ensures dynamicBatch == old(dynamicBatch)
        || (old(dynamicBatch) == span && dynamicBatch == Max(minBatch, span / 2))
      ensures batchSupported == (old(batchSupported) && span > minBatch)
    {
      if span > minBatch {
        var shrunk := Max(minBatch, span / 2);
        var exchanged: bool := *;
        if exchanged && dynamicBatch == span {
          dynamicBatch := shrunk;
        }
      } else {
        batchSupported := false;
      }
    }
  }

  lemma Quotient(a: nat, d: nat)
    requires d > 0
    ensures (a / d) * d <= a
  {
  }

  lemma Largest(a: nat, d: nat)
    requires d > 0
    ensures (a / d + 1) * d > a
  {
    assert a == (a / d) * d + a % d;
  }

  lemma LessPayload(most: nat, fitting: nat, d: nat)
    requires fitting > 0 ==> most <= fitting
    ensures fitting > 0 ==> most * d <= fitting * d
  {
  }

  /** Picks what the agent's filter matched. */
  method TakeMatched(e: Env, chains: seq<Chain>) returns (kept: seq<Chain>)
    requires e.targets != []
    ensures kept == Kept(e, true, chains)
  {
    hide Accepts, AcceptedV2, Kept;
    var matched := VerifyBatchFilter(e.read, e.psize, chains, e.targets, true);
    FilterIsAccepts(e, chains, matched);
    kept := [];
    ghost var from := 0;
    assert chains[0..] == chains;
    for k := 0 to |matched|
      invariant from <= |chains| && from == Passed(matched, k)
      invariant kept + Kept(e, true, chains[from..]) == Kept(e, true, chains)
    {
      SkipUnmatched(e, chains, matched, k);
      KeptStep(e, true, chains, matched[k]);
      kept := kept + [chains[matched[k]]];
      from := matched[k] + 1;
    }
    SkipUnmatched(e, chains, matched, |matched|);
    NothingKept(e, chains);
  }

  ghost function Passed(matched: seq<nat>, k: nat): nat
    requires k <= |matched|
  {
    if k == 0 then 0 else matched[k - 1] + 1
  }

  lemma NothingKept(e: Env, chains: seq<Chain>)
    ensures Kept(e, true, chains[|chains|..]) == []
  {
  }

  /** Between two matched indices nothing is accepted. */
  lemma SkipUnmatched(e: Env, chains: seq<Chain>, matched: seq<nat>, k: nat)
    requires k <= |matched|
    requires forall i :: 0 <= i < |matched| ==> matched[i] < |chains|
    requires forall i, j :: 0 <= i < j < |matched| ==> matched[i] < matched[j]
    requires forall i :: 0 <= i < |chains| ==> (i in matched <==> Accepts(e, true, chains[i]))
    ensures var until := if k < |matched| then matched[k] else |chains|;
      Passed(matched, k) <= until && Kept(e, true, chains[Passed(matched, k)..]) == Kept(e, true, chains[until..])
  {
    hide Accepts, Kept;
    var from, until := Passed(matched, k), if k < |matched| then matched[k] else |chains|;
    forall i | from <= i < until ensures i !in matched {
      forall l | 0 <= l < |matched| ensures matched[l] != i {
        assert l < k - 1 ==> matched[l] < matched[k - 1];
        assert k < l ==> matched[k] < matched[l];
      }
    }
    KeptSkip(e, true, chains, from, until);
  }

  lemma FilterIsAccepts(e: Env, chains: seq<Chain>, matched: seq<nat>)
    requires forall i :: 0 <= i < |chains| ==> (i in matched <==> AcceptedV2(e.read, e.psize, e.targets, chains[i]))
    ensures forall i :: 0 <= i < |chains| ==> (i in matched <==> Accepts(e, true, chains[i]))
  {
  }

  /** Compares the addresses the agent resolved. */
  method TakeResolved(e: Env, chains: seq<Chain>) returns (kept: seq<Chain>)
    requires Uniform(e, chains) && e.depth > 0
    ensures kept == Kept(e, false, chains)
  {
    hide Resolve;
    kept := [];
    assert chains[0..] == chains;
    for i := 0 to |chains|
      invariant kept + Kept(e, false, chains[i..]) == Kept(e, false, chains)
    {
      KeptStep(e, false, chains, i);
      AnswerIsWalk(e, chains[i]);
      var result := AgentAnswer(e.read, e.psize, chains[i]);
      if result.Some? && result.value in e.targets {
        kept := kept + [chains[i]];
      }
    }
    assert Kept(e, false, chains[|chains|..]) == [];
  }

  /** Walks each chain from the client. */
  method TakeWalked(e: Env, chains: seq<Chain>, cache: PrefixCache) returns (kept: seq<Chain>)
    requires cache.Valid(e.read, e.psize)
    modifies cache
    ensures cache.Valid(e.read, e.psize)
    ensures kept == Kept(e, false, chains)
  {
    hide Resolve;
    kept := [];
    assert chains[0..] == chains;
    for i := 0 to |chains|
      invariant cache.Valid(e.read, e.psize)
      invariant kept + Kept(e, false, chains[i..]) == Kept(e, false, chains)
    {
      KeptStep(e, false, chains, i);
      var address := cache.VerifyChain(e.read, e.psize, chains[i]);
      if address.Some? && address.value in e.targets {
        kept := kept + [chains[i]];
      }
    }
    assert Kept(e, false, chains[|chains|..]) == [];
  }

  /**
   One span: by the agent's filter, by its resolver, or by walking; whether a command gets through is not up to the
   client. Each way yields the accepted chains of the span.
   */
  method HandleSpan(e: Env, chains: seq<Chain>, span: nat, streak: nat, tuning: Tuning, cache: PrefixCache)
    returns (kept: seq<Chain>, next: nat, ghost byFilter: bool)
    requires tuning.Valid() && cache.Valid(e.read, e.psize)
    requires Uniform(e, chains) && tuning.depth16 == (if e.depth > 0xffff then 0 else e.depth)
    requires 1 <= |chains| <= span <= tuning.maxBatch
    modifies tuning`dynamicBatch, tuning`batchSupported, tuning`filterSupported, cache
    ensures tuning.Valid() && cache.Valid(e.read, e.psize)
    ensures kept == Kept(e, byFilter, chains)
    ensures byFilter ==> old(tuning.filterSupported) && |chains| >= 4 && e.depth > 0
    ensures tuning.filterSupported ==> old(tuning.filterSupported)
    ensures tuning.batchSupported ==> old(tuning.batchSupported)
    ensures !byFilter && old(tuning.batchSupported) && tuning.depth16 > 0 && |chains| >= 4 ==> !tuning.filterSupported
  {
    hide Kept, Resolve;
    next, byFilter := streak, false;
    if tuning.batchSupported && tuning.depth16 > 0 {
      if tuning.filterSupported && |chains| >= 4 {
        var filtered: bool := *;
        if filtered && e.targets != [] {
          byFilter := true;
          kept := TakeMatched(e, chains);
          next := tuning.Succeeded(span, |chains|, streak);
          return;
        }
        tuning.filterSupported := false;
      }
      var resolved: bool := *;
      if resolved {
        next := tuning.Succeeded(span, |chains|, streak);
        kept := TakeResolved(e, chains);
        return;
      }
      tuning.Failed(span);
    }
    next := 0;
    kept := TakeWalked(e, chains, cache);
  }

  // ----- whole runs

  /** A candidate waits behind the cursor, is held by a worker, or has been decided, by the agent's filter or not. */
  datatype Status = Waiting | HeldBy(w: nat) | Done(byFilter: bool)

  type Route = seq<Status>

  /** The decided candidates that were accepted, in order. */
  function Selected(e: Env, chains: seq<Chain>, route: Route): seq<Chain>
    requires |route| == |chains|
  {
    if chains == [] then []
    else
      Once(route[0].Done? && Accepts(e, route[0].byFilter, chains[0]), chains[0])
      + Selected(e, chains[1..], route[1..])
  }

  function Same(b: Status, n: nat): (r: Route)
    ensures |r| == n && forall i :: 0 <= i < n ==> r[i] == b
  {
    seq(n, _ => b)
  }

  lemma {:induction false} SelectedSplit(e: Env, a: seq<Chain>, b: seq<Chain>, ra: Route, rb: Route)
    requires |a| == |ra| && |b| == |rb|
    ensures Selected(e, a + b, ra + rb) == Selected(e, a, ra) + Selected(e, b, rb)
  {
    if a == [] {
      assert a + b == b && ra + rb == rb;
    } else {
      assert (a + b)[1..] == a[1..] + b && (ra + rb)[1..] == ra[1..] + rb;
      SelectedSplit(e, a[1..], b, ra[1..], rb);
    }
  }

  lemma {:induction false} KeptIsSelected(e: Env, byFilter: bool, chains: seq<Chain>)
    ensures Selected(e, chains, Same(Done(byFilter), |chains|)) == Kept(e, byFilter, chains)
  {
    if chains != [] {
      assert Same(Done(byFilter), |chains|)[1..] == Same(Done(byFilter), |chains| - 1);
      KeptIsSelected(e, byFilter, chains[1..]);
    }
  }

  ghost predicate Decided(route: Route) { forall i :: 0 <= i < |route| ==> route[i].Done? }

  /** One session checks every candidate once, in order, whatever gets through and however the size moves. */
  method VerifyOnSession(e: Env, candidates: seq<Chain>, tuning: Tuning, cache: PrefixCache)
    returns (valid: seq<Chain>, ghost route: Route)
    requires tuning.Valid() && cache.Valid(e.read, e.psize)
    requires Uniform(e, candidates) && tuning.depth16 == (if e.depth > 0xffff then 0 else e.depth)
    modifies tuning`dynamicBatch, tuning`batchSupported, tuning`filterSupported, cache
    ensures tuning.Valid() && cache.Valid(e.read, e.psize)
    ensures |route| == |candidates| && Decided(route)
    ensures valid == Selected(e, candidates, route)
    ensures forall i :: 0 <= i < |route| && route[i] == Done(true) ==> old(tuning.filterSupported) && e.depth > 0
  {
    hide Selected, Kept, Accepts;
    var cursor, streak := 0, 0;
    valid, route := [], [];
    assert candidates[..0] == [];
    NothingSelected(e);
    while cursor < |candidates|
      invariant cursor == |route| <= |candidates| && Decided(route)
      invariant tuning.Valid() && cache.Valid(e.read, e.psize)
      invariant tuning.filterSupported ==> old(tuning.filterSupported)
      invariant forall i :: 0 <= i < cursor && route[i] == Done(true) ==> old(tuning.filterSupported) && e.depth > 0
      invariant valid == Selected(e, candidates[..cursor], route)
    {
      var span := tuning.Span();
      var count := Min(span, |candidates| - cursor);
      var chains := candidates[cursor..cursor + count];
      var kept;
      ghost var byFilter;
      kept, streak, byFilter := HandleSpan(e, chains, span, streak, tuning, cache);
      assert candidates[..cursor + count] == candidates[..cursor] + chains;
      SelectedSplit(e, candidates[..cursor], chains, route, Same(Done(byFilter), count));
      KeptIsSelected(e, byFilter, chains);
      valid, route := valid + kept, route + Same(Done(byFilter), count);
      cursor := cursor + count;
    }
    assert candidates[..cursor] == candidates;
  }

  lemma NothingSelected(e: Env)
    ensures Selected(e, [], []) == []
  {
  }

  // ----- what the runs mean

  /** The last offset carries a 64-bit address out of the untagged range, onto a target under a foreign top byte. */
  predicate Straddles(e: Env, c: Chain) {
    && e.psize == 8 && AgentAnswer(e.read, e.psize, c).Some? && AgentAnswer(e.read, e.psize, c).value >= TAG_LIMIT
    && StripTag(AgentAnswer(e.read, e.psize, c).value) in e.targets
  }

  lemma FilterAddsStraddlers(e: Env, c: Chain)
    requires CleanTargets(e.targets, e.psize) && |c.offsets| > 0
    ensures Accepts(e, true, c) <==> Accepts(e, false, c) || Straddles(e, c)
    ensures Straddles(e, c) ==> !Accepts(e, false, c)
  {
    hide Resolve, AgentAnswer, AcceptedV1, AcceptedV2, CleanTargets;
    BatchCommandsAgree(e.read, e.psize, e.targets, c);
    AnswerIsWalk(e, c);
    StraddlerMisses(e, c);
  }

  lemma StraddlerMisses(e: Env, c: Chain)
    requires CleanTargets(e.targets, e.psize)
    ensures Straddles(e, c) ==> !AcceptedV1(e.read, e.psize, e.targets, c)
  {
  }

  /** The routes make no difference exactly when the agent's filter never decided on a straddling chain. */
  lemma {:induction false} RunIsFilter(e: Env, chains: seq<Chain>, route: Route)
    requires CleanTargets(e.targets, e.psize) && Uniform(e, chains)
    requires |route| == |chains| && Decided(route)
    requires forall i :: 0 <= i < |route| && route[i] == Done(true) ==> e.depth > 0
    ensures Selected(e, chains, route) == Kept(e, false, chains) <==>
      forall i :: 0 <= i < |route| && route[i] == Done(true) ==> !Straddles(e, chains[i])
    ensures |Selected(e, chains, route)| >= |Kept(e, false, chains)|
  {
    hide Accepts, Straddles, CleanTargets;
    if chains != [] {
      RunIsFilter(e, chains[1..], route[1..]);
      var c, head := chains[0], route[0];
      if head == Done(true) { FilterAddsStraddlers(e, c); }
      var here, plain := Once(Accepts(e, head.byFilter, c), c), Once(Accepts(e, false, c), c);
      var more, rest := Selected(e, chains[1..], route[1..]), Kept(e, false, chains[1..]);
      assert here == plain ==> (here + more == plain + rest <==> more == rest) by { CancelPrefix(here, more, rest); }
      assert here != plain ==> |here + more| > |plain + rest|;
      assert here == plain <==> !(head == Done(true) && Straddles(e, c));
      assert forall i :: 0 <= i < |route| - 1 ==> route[1..][i] == route[i + 1] && chains[1..][i] == chains[i + 1];
    }
  }

  lemma CancelPrefix(p: seq<Chain>, a: seq<Chain>, b: seq<Chain>)
    ensures p + a == p + b ==> a == b
  {
    if p + a == p + b {
      assert (p + a)[|p|..] == a && (p + b)[|p|..] == b;
    }
  }

  /** Exactly once: a chain is in the filtered list as often as it is a candidate, if it leads to a target. */
  lemma {:induction false} KeptMeaning(e: Env, chains: seq<Chain>, c: Chain)
    ensures multiset(Kept(e, false, chains))[c] == if Arrives(e, c) then multiset(chains)[c] else 0
  {
    hide Resolve;
    if chains != [] {
      KeptMeaning(e, chains[1..], c);
      assert chains == [chains[0]] + chains[1..];
      var once := Once(Arrives(e, chains[0]), chains[0]);
      assert multiset(Kept(e, false, chains)) == multiset(once) + multiset(Kept(e, false, chains[1..]));
    }
  }

  /** A chain whose last offset is at most every target never straddles, on no memory. */
  lemma LowOffsetsNeverStraddle(e: Env, c: Chain)
    requires CleanTargets(e.targets, e.psize) && c.offsets != [] && LastStaysBelow(e.psize, e.targets, c.offsets)
    ensures !Straddles(e, c)
  {
    hide AgentAnswer, CleanTargets, LastStaysBelow;
    LowOffsetsAgree(e.read, e.psize, e.targets, c);
  }

  predicate AllStayBelow(psize: nat, targets: seq<u64>, chains: seq<Chain>) {
    forall i :: 0 <= i < |chains| ==> chains[i].offsets == [] || LastStaysBelow(psize, targets, chains[i].offsets)
  }

  ghost predicate Applicable(psize: nat, targets: seq<u64>, depth: nat, chains: seq<Chain>) {
    && CleanTargets(targets, psize) && depth > 0
    && forall i :: 0 <= i < |chains| ==> |chains[i].offsets| == depth && Modest(chains[i].offsets)
  }

  lemma LowRunIsFilter(e: Env, chains: seq<Chain>, route: Route)
    requires Applicable(e.psize, e.targets, e.depth, chains) && AllStayBelow(e.psize, e.targets, chains)
    requires |route| == |chains| && Decided(route)
    ensures Selected(e, chains, route) == Kept(e, false, chains)
  {
    hide Selected, Kept, CleanTargets, Straddles, LastStaysBelow;
    RunIsFilter(e, chains, route);
    forall i | 0 <= i < |chains| ensures !Straddles(e, chains[i]) { LowOffsetsNeverStraddle(e, chains[i]); }
  }

  /** A run that differs: the filter decides everything, on a memory where one chain straddles. */
  lemma HighRunDiffers(psize: nat, targets: seq<u64>, depth: nat, chains: seq<Chain>)
    returns (read: Reads, route: Route)
    requires Applicable(psize, targets, depth, chains) && !AllStayBelow(psize, targets, chains)
    ensures |route| == |chains| && Decided(route)
    ensures var e := Env(read, psize, targets, depth); Selected(e, chains, route) != Kept(e, false, chains)
  {
    hide Selected, Kept, CleanTargets, Straddles, Modest, AgentAnswer, AcceptedV1, AcceptedV2;
    var i :| 0 <= i < |chains| && chains[i].offsets != [] && !LastStaysBelow(psize, targets, chains[i].offsets);
    var t :| t in targets && t < chains[i].offsets[depth - 1];
    read := HighOffsetDiffers(targets, chains[i], t);
    route := Same(Done(true), |chains|);
    var e := Env(read, psize, targets, depth);
    CleanIsUntagged(targets, t);
    StraddlesThere(e, chains[i], t);
    RunIsFilter(e, chains, route);
  }

  lemma CleanIsUntagged(targets: seq<u64>, t: u64)
    requires CleanTargets(targets, 8) && t in targets
    ensures t < TAG_LIMIT
  {
  }

  /**
   What can be checked before a run: every memory and every way the commands get through give just the chains that
   arrive if and only if the last offset of each candidate is at most every target.
   */
  lemma EveryRunIsFilterIff(psize: nat, targets: seq<u64>, depth: nat, chains: seq<Chain>)
    requires CleanTargets(targets, psize) && depth > 0
    requires forall i :: 0 <= i < |chains| ==> |chains[i].offsets| == depth && Modest(chains[i].offsets)
    ensures (forall read: Reads, route: Route | |route| == |chains| && Decided(route) ::
        Selected(Env(read, psize, targets, depth), chains, route)
          == Kept(Env(read, psize, targets, depth), false, chains))
      <==> AllStayBelow(psize, targets, chains)
  {
    hide Selected, Kept, AllStayBelow, Decided, CleanTargets;
    if AllStayBelow(psize, targets, chains) {
      forall read: Reads, route: Route | |route| == |chains| && Decided(route)
        ensures Selected(Env(read, psize, targets, depth), chains, route)
          == Kept(Env(read, psize, targets, depth), false, chains)
      {
        LowRunIsFilter(Env(read, psize, targets, depth), chains, route);
      }
    } else {
      var read, route := HighRunDiffers(psize, targets, depth, chains);
    }
  }

  lemma StraddlesThere(e: Env, c: Chain, t: u64)
    requires e.psize == 8 && t in e.targets && t < TAG_LIMIT && AgentAnswer(e.read, 8, c) == Some(TAG_LIMIT + t)
    ensures Straddles(e, c)
  {
    assert StripTag(TAG_LIMIT + t) == t;
  }
}
