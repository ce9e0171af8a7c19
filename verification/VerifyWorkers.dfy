/**
 Checking candidates on several sessions at once. Each worker claims spans from a shared cursor; between two
 accesses to the shared cursor, size and flags any other worker may go on.
 */
module VerifyWorkers {
  import opened Machine
  import opened Resolver
  import opened AdaptiveVerify

  /** How far a worker is with its span: what it does next, with at most one access to the shared state. */
  datatype Stage = AskIfBatched | AskIfFiltered | SendFilter | SendBatch | WalkAlone

  /** Where one worker stands between two accesses to the shared state. */
  datatype Phase = Connecting | Idle | Sized(span: nat) | Claimed(span: nat, start: nat, stage: Stage) | Gone

  datatype Session = Session(phase: Phase, streak: nat, valid: seq<Chain>)

  /** The valid lists of all workers together. */
  function All(ws: seq<Session>): multiset<Chain> {
    if ws == [] then multiset{} else multiset(ws[0].valid) + All(ws[1..])
  }

  function Rank(p: Phase): nat {
    match p
    case Connecting => 8
    case Claimed(_, _, AskIfBatched) => 7
    case Claimed(_, _, AskIfFiltered) => 6
    case Claimed(_, _, SendFilter) => 5
    case Claimed(_, _, SendBatch) => 4
    case Claimed(_, _, WalkAlone) => 3
    case Idle => 2
    case Sized(_) => 1
    case Gone => 0
  }

  ghost function Ranks(ws: seq<Session>): nat { if ws == [] then 0 else Rank(ws[0].phase) + Ranks(ws[1..]) }

  lemma {:induction false} UpdateSession(ws: seq<Session>, w: nat, s: Session, more: seq<Chain>)
    requires w < |ws| && s.valid == ws[w].valid + more
    ensures All(ws[w := s]) == All(ws) + multiset(more)
    ensures Ranks(ws[w := s]) + Rank(ws[w].phase) == Ranks(ws) + Rank(s.phase)
  {
    if w == 0 {
      assert ws[w := s][1..] == ws[1..];
    } else {
      assert ws[w := s][1..] == ws[1..][w - 1 := s];
      UpdateSession(ws[1..], w - 1, s, more);
    }
  }

  lemma {:induction false} FreshSessions(ws: seq<Session>)
    requires forall w :: 0 <= w < |ws| ==> ws[w].valid == []
    ensures All(ws) == multiset{}
  {
    if ws != [] { FreshSessions(ws[1..]); }
  }

  /** `i` lies in the span that worker has claimed and not yet handled. */
  predicate Holds(s: Session, n: nat, i: int) {
    s.phase.Claimed? && s.phase.start <= i < Min(n, s.phase.start + s.phase.span)
  }

  predicate Connected(s: Session) { s.phase.Idle? || s.phase.Sized? || s.phase.Claimed? }

  /** A candidate is held exactly by the worker whose span it lies in, and waits exactly from the cursor on. */
  ghost predicate Owned(ws: seq<Session>, index: nat, route: Route) {
    && (forall i :: 0 <= i < |route| ==> (route[i].Waiting? <==> i >= index))
    && (forall i :: 0 <= i < |route| && route[i].HeldBy? ==> route[i].w < |ws| && Holds(ws[route[i].w], |route|, i))
    && (forall w, i: int :: 0 <= w < |ws| && Holds(ws[w], |route|, i) ==> 0 <= i < |route| && route[i] == HeldBy(w))
    && (forall w :: 0 <= w < |ws| && ws[w].phase.Claimed? ==> ws[w].phase.start < |route| && ws[w].phase.span > 0)
  }

  ghost predicate Entered(e: Env, candidates: seq<Chain>, ws: seq<Session>, route: Route) {
    |route| == |candidates| && All(ws) == multiset(Selected(e, candidates, route))
  }

  /** Once a worker is connected, some worker stays until the candidates are all claimed. */
  ghost predicate Attended(ws: seq<Session>, index: nat, n: nat, connected: bool) {
    connected ==> index >= n || exists w :: 0 <= w < |ws| && Connected(ws[w])
  }

  lemma AttendedStep(ws: seq<Session>, w: nat, s: Session, index: nat, next: nat, n: nat, connected: bool)
    requires w < |ws| && Attended(ws, index, n, connected) && next >= index
    requires Connected(s) || next >= n || !Connected(ws[w])
    ensures Attended(ws[w := s], next, n, connected || Connected(s))
  {
    var after := ws[w := s];
    if Connected(s) {
      assert Connected(after[w]);
    } else if connected && next < n {
      var v :| 0 <= v < |ws| && Connected(ws[v]);
      assert Connected(after[v]);
    }
  }

  /** The worker holds the same candidates before and after. */
  predicate HoldsSame(s: Session, t: Session) {
    && (s.phase.Claimed? <==> t.phase.Claimed?)
    && (s.phase.Claimed? ==> s.phase.span == t.phase.span && s.phase.start == t.phase.start)
  }

  /** A step that neither takes nor handles candidates. */
  lemma MoveKeeps(ws: seq<Session>, w: nat, s: Session, index: nat, next: nat, route: Route)
    requires w < |ws| && Owned(ws, index, route)
    requires HoldsSame(ws[w], s) && next >= index && (next > index ==> index >= |route|)
    ensures Owned(ws[w := s], next, route)
  {
    var after, n := ws[w := s], |route|;
    forall v, i: int | 0 <= v < |ws| ensures Holds(after[v], n, i) <==> Holds(ws[v], n, i) {
    }
    forall i | 0 <= i < n ensures route[i].Waiting? <==> i >= next {
    }
    forall v | 0 <= v < |ws| && after[v].phase.Claimed? ensures after[v].phase.start < n && after[v].phase.span > 0 {
    }
  }

  /** The route with the statuses of `count` candidates from `start` on replaced. */
  function Marked(route: Route, start: nat, count: nat, b: Status): (r: Route)
    requires start + count <= |route|
    ensures |r| == |route|
    ensures forall i :: 0 <= i < |route| ==> r[i] == if start <= i < start + count then b else route[i]
  {
    route[..start] + Same(b, count) + route[start + count..]
  }

  lemma OwnedAfterClaim(ws: seq<Session>, w: nat, s: Session, index: nat, route: Route, count: nat)
    requires w < |ws| && Owned(ws, index, route)
    requires !ws[w].phase.Claimed? && index < |route| && s.phase.Claimed? && s.phase.start == index && s.phase.span > 0
    requires count == Min(s.phase.span, |route| - index)
    ensures Owned(ws[w := s], index + s.phase.span, Marked(route, index, count, HeldBy(w)))
  {
    hide Marked;
    var after, n, marked := ws[w := s], |route|, Marked(route, index, count, HeldBy(w));
    forall v, i: int | 0 <= v < |ws|
      ensures Holds(after[v], n, i) <==> if v == w then index <= i < index + count else Holds(ws[v], n, i)
    {
    }
    forall i | 0 <= i < n && marked[i].HeldBy? ensures marked[i].w < |ws| && Holds(after[marked[i].w], n, i) {
    }
    forall v, i: int | 0 <= v < |ws| && Holds(after[v], n, i) ensures 0 <= i < n && marked[i] == HeldBy(v) {
      if v != w { assert Holds(ws[v], |route|, i) && route[i] == HeldBy(v); }
    }
    forall v | 0 <= v < |ws| && after[v].phase.Claimed? ensures after[v].phase.start < n && after[v].phase.span > 0 {
    }
  }

  /** `fetch_add` hands out candidates that waited. */
  lemma ClaimKeeps(e: Env, candidates: seq<Chain>, ws: seq<Session>, w: nat, s: Session, index: nat, route: Route,
                   count: nat)
    requires w < |ws| && Owned(ws, index, route) && Entered(e, candidates, ws, route)
    requires !ws[w].phase.Claimed? && index < |route| && s.phase.Claimed? && s.phase.start == index && s.phase.span > 0
    requires count == Min(s.phase.span, |route| - index) && s.valid == ws[w].valid
    ensures Owned(ws[w := s], index + s.phase.span, Marked(route, index, count, HeldBy(w)))
    ensures Entered(e, candidates, ws[w := s], Marked(route, index, count, HeldBy(w)))
  {
    hide Selected, Marked;
    OwnedAfterClaim(ws, w, s, index, route, count);
    UpdateSession(ws, w, s, []);
    Replaced(e, candidates, route, index, count, HeldBy(w));
  }

  /** Deciding a span, or claiming it, changes the accepted list only there. */
  lemma Replaced(e: Env, candidates: seq<Chain>, route: Route, start: nat, count: nat, b: Status)
    requires |route| == |candidates| && start + count <= |route|
    requires forall i :: start <= i < start + count ==> !route[i].Done?
    ensures multiset(Selected(e, candidates, Marked(route, start, count, b)))
      == multiset(Selected(e, candidates, route)) +
        multiset(if b.Done? then Kept(e, b.byFilter, candidates[start..start + count]) else [])
  {
    hide Selected, Kept;
    var mid, rest := candidates[start..start + count], candidates[start + count..];
    assert candidates == candidates[..start] + (mid + rest);
    assert route == route[..start] + (route[start..start + count] + route[start + count..]);
    assert route[..start] + Same(b, count) + route[start + count..]
      == route[..start] + (Same(b, count) + route[start + count..]);
    SelectedSplit(e, candidates[..start], mid + rest, route[..start], Same(b, count) + route[start + count..]);
    SelectedSplit(e, mid, rest, Same(b, count), route[start + count..]);
    SelectedSplit(e, candidates[..start], mid + rest, route[..start],
      route[start..start + count] + route[start + count..]);
    SelectedSplit(e, mid, rest, route[start..start + count], route[start + count..]);
    NoneSelected(e, mid, route[start..start + count]);
    if b.Done? { KeptIsSelected(e, b.byFilter, mid); } else { NoneSelected(e, mid, Same(b, count)); }
  }

  lemma {:induction false} NoneSelected(e: Env, chains: seq<Chain>, route: Route)
    requires |chains| == |route| && forall i :: 0 <= i < |route| ==> !route[i].Done?
    ensures Selected(e, chains, route) == []
  {
    if chains != [] { NoneSelected(e, chains[1..], route[1..]); }
  }

  lemma OwnedAfterHandling(ws: seq<Session>, w: nat, s: Session, index: nat, route: Route, start: nat, count: nat,
                           b: Status)
    requires w < |ws| && Owned(ws, index, route)
    requires ws[w].phase.Claimed? && !s.phase.Claimed? && b.Done?
    requires start == ws[w].phase.start < |route| && count == Min(ws[w].phase.span, |route| - start)
    ensures Owned(ws[w := s], index, Marked(route, start, count, b))
    ensures forall i :: start <= i < start + count ==> route[i] == HeldBy(w)
  {
    hide Marked;
    var after, n := ws[w := s], |route|;
    forall i | start <= i < start + count ensures route[i] == HeldBy(w) { assert Holds(ws[w], n, i); }
    forall v, i: int | 0 <= v < |ws| ensures Holds(after[v], n, i) <==> v != w && Holds(ws[v], n, i) {
    }
    var marked := Marked(route, start, count, b);
    forall i | 0 <= i < n ensures marked[i].Waiting? <==> i >= index {
      assert route[i].Waiting? <==> i >= index;
    }
    forall i | 0 <= i < n && marked[i].HeldBy? ensures marked[i].w < |ws| && Holds(after[marked[i].w], n, i) {
    }
    forall v, i: int | 0 <= v < |ws| && Holds(after[v], n, i) ensures 0 <= i < n && marked[i] == HeldBy(v) {
      if v != w { assert Holds(ws[v], |route|, i) && route[i] == HeldBy(v); }
    }
    forall v | 0 <= v < |ws| && after[v].phase.Claimed? ensures after[v].phase.start < n && after[v].phase.span > 0 {
    }
  }

  /** A handled span is decided, and what it kept is entered. */
  lemma HandleKeeps(e: Env, candidates: seq<Chain>, ws: seq<Session>, w: nat, s: Session, index: nat, route: Route,
                    start: nat, count: nat, byFilter: bool, kept: seq<Chain>)
    requires w < |ws| && Owned(ws, index, route) && Entered(e, candidates, ws, route)
    requires ws[w].phase.Claimed? && !s.phase.Claimed? && s.valid == ws[w].valid + kept
    requires start == ws[w].phase.start < |route| && count == Min(ws[w].phase.span, |route| - start)
    requires kept == Kept(e, byFilter, candidates[start..start + count])
    ensures Owned(ws[w := s], index, Marked(route, start, count, Done(byFilter)))
    ensures Entered(e, candidates, ws[w := s], Marked(route, start, count, Done(byFilter)))
  {
    hide Selected, Kept, Owned, Marked;
    UpdateSession(ws, w, s, kept);
    OwnedAfterHandling(ws, w, s, index, route, start, count, Done(byFilter));
    Replaced(e, candidates, route, start, count, Done(byFilter));
  }

  /**
   What a run never changes: the largest batch, the depth commands carry, and whether the filter was ever to be used.
   */
  datatype Limits = Limits(maxBatch: nat, depth16: nat, filter: bool)

  /** A worker's span comes from the shared size, and it sends only what it may. */
  predicate Fit(p: Phase, n: nat, l: Limits) {
    && (p.Sized? ==> 1 <= p.span <= l.maxBatch)
    && (p.Claimed? ==>
      && 1 <= p.span <= l.maxBatch && p.start < n
      && (p.stage.AskIfFiltered? || p.stage.SendFilter? || p.stage.SendBatch? ==> l.depth16 > 0)
      && (p.stage.SendFilter? ==> l.filter && Min(p.span, n - p.start) >= 4))
  }

  ghost predicate Fits(ws: seq<Session>, n: nat, l: Limits) { forall w :: 0 <= w < |ws| ==> Fit(ws[w].phase, n, l) }

  ghost predicate NoneConnected(ws: seq<Session>) { forall w :: 0 <= w < |ws| ==> !Connected(ws[w]) }

  /** The filter decided only where it could. */
  ghost predicate RightlyFiltered(route: Route, l: Limits) {
    forall i :: 0 <= i < |route| && route[i] == Done(true) ==> l.filter && l.depth16 > 0
  }

  /** Everything a step keeps. */
  ghost predicate Books(e: Env, candidates: seq<Chain>, ws: seq<Session>, index: nat, route: Route, connected: bool,
                        l: Limits)
  {
    && Owned(ws, index, route) && Entered(e, candidates, ws, route) && Attended(ws, index, |candidates|, connected)
    && Fits(ws, |candidates|, l) && RightlyFiltered(route, l) && (!connected ==> index == 0 && NoneConnected(ws))
  }

  /** Every step brings the end nearer: a claim takes at least one candidate, any other step moves the worker on. */
  ghost function Measure(ws: seq<Session>, index: nat, n: nat): nat { 7 * Max(0, n - index) + Ranks(ws) }

  lemma StartBooks(e: Env, candidates: seq<Chain>, ws: seq<Session>, l: Limits)
    requires forall w :: 0 <= w < |ws| ==> ws[w] == Session(Connecting, 0, [])
    ensures Books(e, candidates, ws, 0, Same(Waiting, |candidates|), false, l)
  {
    hide Selected;
    FreshSessions(ws);
    var route := Same(Waiting, |candidates|);
    NoneSelected(e, candidates, route);
    forall w, i: int | 0 <= w < |ws| ensures !Holds(ws[w], |route|, i) { assert ws[w].phase == Connecting; }
  }

  /** What is common to all steps of worker w. */
  lemma StepRest(ws: seq<Session>, w: nat, s: Session, index: nat, next: nat, n: nat, connected: bool, l: Limits)
    requires w < |ws| && next >= index && Attended(ws, index, n, connected) && Fits(ws, n, l)
    requires !connected ==> index == 0 && NoneConnected(ws)
    requires Connected(s) || next >= n || !Connected(ws[w])
    requires Fit(s.phase, n, l) && (next > index ==> Connected(ws[w]))
    ensures Attended(ws[w := s], next, n, connected || Connected(s)) && Fits(ws[w := s], n, l)
    ensures !(connected || Connected(s)) ==> next == 0 && NoneConnected(ws[w := s])
  {
    hide Fit;
    AttendedStep(ws, w, s, index, next, n, connected);
  }

  /** A step that changes where the worker stands and nothing it has or holds. */
  lemma MoveStep(e: Env, candidates: seq<Chain>, ws: seq<Session>, w: nat, s: Session, index: nat, next: nat,
                 route: Route, connected: bool, l: Limits)
    requires w < |ws| && Books(e, candidates, ws, index, route, connected, l)
    requires HoldsSame(ws[w], s) && s.valid == ws[w].valid && Fit(s.phase, |candidates|, l)
      && Rank(s.phase) < Rank(ws[w].phase)
    requires next >= index && (next > index ==> index >= |candidates| && Connected(ws[w]))
    requires Connected(s) || next >= |candidates| || !Connected(ws[w])
    ensures Books(e, candidates, ws[w := s], next, route, connected || Connected(s), l)
    ensures Measure(ws[w := s], next, |candidates|) < Measure(ws, index, |candidates|)
  {
    hide Owned, Entered, Attended, Fits, Fit, NoneConnected, RightlyFiltered, Rank, Ranks, All;
    RouteLength(e, candidates, ws, route);
    MoveKeeps(ws, w, s, index, next, route);
    MoveEntered(e, candidates, ws, w, s, route);
    UpdateSession(ws, w, s, []);
    StepRest(ws, w, s, index, next, |candidates|, connected, l);
  }

  lemma RouteLength(e: Env, candidates: seq<Chain>, ws: seq<Session>, route: Route)
    requires Entered(e, candidates, ws, route)
    ensures |route| == |candidates|
  {
  }

  lemma MoveEntered(e: Env, candidates: seq<Chain>, ws: seq<Session>, w: nat, s: Session, route: Route)
    requires w < |ws| && s.valid == ws[w].valid && Entered(e, candidates, ws, route)
    ensures Entered(e, candidates, ws[w := s], route)
  {
    hide Selected;
    UpdateSession(ws, w, s, []);
  }

  /** `fetch_add` within the candidates. */
  lemma ClaimStep(e: Env, candidates: seq<Chain>, ws: seq<Session>, w: nat, s: Session, index: nat, route: Route,
                  count: nat, connected: bool, l: Limits)
    requires w < |ws| && Books(e, candidates, ws, index, route, connected, l)
    requires ws[w].phase.Sized? && s == ws[w].(phase := Claimed(ws[w].phase.span, index, AskIfBatched))
    requires index < |candidates| && count == Min(ws[w].phase.span, |candidates| - index)
      && 1 <= ws[w].phase.span <= l.maxBatch
    ensures |route| == |candidates|
    ensures Books(e, candidates, ws[w := s], index + ws[w].phase.span, Marked(route, index, count, HeldBy(w)), true, l)
    ensures Measure(ws[w := s], index + ws[w].phase.span, |candidates|) < Measure(ws, index, |candidates|)
  {
    hide Owned, Entered, Attended, Fits, NoneConnected, RightlyFiltered, Ranks, All, Marked;
    RouteLength(e, candidates, ws, route);
    ClaimKeeps(e, candidates, ws, w, s, index, route, count);
    UpdateSession(ws, w, s, []);
    StepRest(ws, w, s, index, index + ws[w].phase.span, |candidates|, connected, l);
    FilteredMarked(route, index, count, HeldBy(w), l);
  }

  lemma FilteredMarked(route: Route, start: nat, count: nat, b: Status, l: Limits)
    requires start + count <= |route| && RightlyFiltered(route, l) && (b == Done(true) ==> l.filter && l.depth16 > 0)
    ensures RightlyFiltered(Marked(route, start, count, b), l)
  {
    hide Marked;
  }

  /** A span decided one way or the other. */
  lemma DecideStep(e: Env, candidates: seq<Chain>, ws: seq<Session>, w: nat, s: Session, index: nat, route: Route,
                   start: nat, count: nat, byFilter: bool, kept: seq<Chain>, connected: bool, l: Limits)
    requires w < |ws| && Books(e, candidates, ws, index, route, connected, l)
    requires ws[w].phase.Claimed? && s.phase == Idle && s.valid == ws[w].valid + kept
    requires start == ws[w].phase.start < |candidates| && count == Min(ws[w].phase.span, |candidates| - start)
    requires kept == Kept(e, byFilter, candidates[start..start + count]) && (byFilter ==> l.filter && l.depth16 > 0)
    ensures |route| == |candidates|
    ensures Books(e, candidates, ws[w := s], index, Marked(route, start, count, Done(byFilter)), true, l)
    ensures Measure(ws[w := s], index, |candidates|) < Measure(ws, index, |candidates|)
  {
    hide Owned, Entered, Attended, Fits, NoneConnected, RightlyFiltered, Ranks, All, Marked, Kept;
    RouteLength(e, candidates, ws, route);
    HandleKeeps(e, candidates, ws, w, s, index, route, start, count, byFilter, kept);
    UpdateSession(ws, w, s, kept);
    StepRest(ws, w, s, index, index, |candidates|, connected, l);
    FilteredMarked(route, start, count, Done(byFilter), l);
  }

  lemma FitHere(e: Env, candidates: seq<Chain>, ws: seq<Session>, w: nat, index: nat, route: Route, connected: bool,
                l: Limits)
    requires w < |ws| && Books(e, candidates, ws, index, route, connected, l)
    ensures Fit(ws[w].phase, |candidates|, l)
  {
  }

  /** The end: nobody is left, so if anybody connected everything is decided, and otherwise nothing was entered. */
  lemma AllGone(e: Env, candidates: seq<Chain>, ws: seq<Session>, index: nat, route: Route, connected: bool, l: Limits)
    requires forall w :: 0 <= w < |ws| ==> ws[w].phase == Gone
    requires Books(e, candidates, ws, index, route, connected, l)
    ensures |route| == |candidates| && RightlyFiltered(route, l)
    ensures connected ==> Decided(route) && All(ws) == multiset(Selected(e, candidates, route))
    ensures !connected ==> All(ws) == multiset{}
  {
    hide Selected;
    if connected {
      forall i | 0 <= i < |route| ensures route[i].Done? {
        assert !route[i].HeldBy?;
      }
    } else {
      NoneSelected(e, candidates, route);
    }
  }

  ghost predicate Ready(e: Env, candidates: seq<Chain>, tuning: Tuning, caches: seq<PrefixCache>, l: Limits)
    reads tuning, caches
  {
    && tuning.Valid() && tuning.maxBatch == l.maxBatch && tuning.depth16 == l.depth16
    && l.depth16 == (if e.depth > 0xffff then 0 else e.depth) && (tuning.filterSupported ==> l.filter)
    && Uniform(e, candidates) && forall i :: 0 <= i < |caches| ==> caches[i].Valid(e.read, e.psize)
  }

  /** One step of a worker that has claimed a span: it looks at a flag, sends a command, or walks. */
  method ClaimedStep(e: Env, candidates: seq<Chain>, tuning: Tuning, caches: seq<PrefixCache>, w: nat, me: Session,
                     ghost l: Limits)
    returns (s: Session, ghost byFilter: bool, ghost kept: seq<Chain>)
    requires w < |caches| && Ready(e, candidates, tuning, caches, l)
    requires forall i, j :: 0 <= i < j < |caches| ==> caches[i] != caches[j]
    requires me.phase.Claimed? && Fit(me.phase, |candidates|, l)
    modifies tuning`dynamicBatch, tuning`batchSupported, tuning`filterSupported, caches[w]
    ensures Ready(e, candidates, tuning, caches, l)
    ensures s.phase == Idle || (HoldsSame(me, s) && s.valid == me.valid)
    ensures Fit(s.phase, |candidates|, l) && Rank(s.phase) < Rank(me.phase) && Connected(s)
    ensures s.phase == Idle ==>
      var start, count := me.phase.start, Min(me.phase.span, |candidates| - me.phase.start);
      && s.valid == me.valid + kept && kept == Kept(e, byFilter, candidates[start..start + count])
      && (byFilter ==> l.filter && l.depth16 > 0)
    ensures me.phase.stage.AskIfBatched? ==> s.phase == Claimed(me.phase.span, me.phase.start,
      if old(tuning.batchSupported) && tuning.depth16 > 0 then AskIfFiltered else WalkAlone)
    ensures me.phase.stage.AskIfFiltered? ==> s.phase == Claimed(me.phase.span, me.phase.start,
      if old(tuning.filterSupported) && me.phase.span >= 4 && |candidates| - me.phase.start >= 4
      then SendFilter else SendBatch)
    ensures me.phase.stage.SendFilter? && !byFilter ==>
      s.phase == Claimed(me.phase.span, me.phase.start, SendBatch) && !tuning.filterSupported
    ensures me.phase.stage.SendBatch? && s.phase != Idle ==>
      s.phase == Claimed(me.phase.span, me.phase.start, WalkAlone) && s.streak == 0
    ensures me.phase.stage.WalkAlone? ==> s.phase == Idle && s.streak == 0
  {
    hide Kept, Resolve, PrefixCache.Valid;
    var span, start := me.phase.span, me.phase.start;
    var count := Min(span, |candidates| - start);
    var chains := candidates[start..start + count];
    s, byFilter, kept := me, false, [];
    match me.phase.stage {
      case AskIfBatched =>
        s := me.(phase := Claimed(span, start,
          if tuning.batchSupported && tuning.depth16 > 0 then AskIfFiltered else WalkAlone));
      case AskIfFiltered =>
        s := me.(phase := Claimed(span, start, if tuning.filterSupported && count >= 4 then SendFilter else SendBatch));
      case SendFilter =>
        var sent: bool := *;
        if sent && e.targets != [] {
          var matched := TakeMatched(e, chains);
          var streak := tuning.Succeeded(span, count, me.streak);
          s, byFilter, kept := Session(Idle, streak, me.valid + matched), true, matched;
        } else {
          tuning.filterSupported := false;
          s := me.(phase := Claimed(span, start, SendBatch));
        }
      case SendBatch =>
        var sent: bool := *;
        if sent {
          var resolved := TakeResolved(e, chains);
          var streak := tuning.Succeeded(span, count, me.streak);
          s, kept := Session(Idle, streak, me.valid + resolved), resolved;
        } else {
          tuning.Failed(span);
          s := Session(Claimed(span, start, WalkAlone), 0, me.valid);
        }
      case WalkAlone =>
        var walked := TakeWalked(e, chains, caches[w]);
        s, kept := Session(Idle, 0, me.valid + walked), walked;
    }
  }

  /** One step of any live worker. */
  method Step(e: Env, candidates: seq<Chain>, tuning: Tuning, caches: seq<PrefixCache>, ws: seq<Session>, index: nat,
              connected: bool, w: nat, ghost route: Route, ghost l: Limits)
    returns (after: seq<Session>, next: nat, met: bool, ghost decided: Route)
    requires w < |ws| == |caches| && ws[w].phase != Gone && Ready(e, candidates, tuning, caches, l)
    requires forall i, j :: 0 <= i < j < |caches| ==> caches[i] != caches[j]
    requires Books(e, candidates, ws, index, route, connected, l)
    modifies tuning`dynamicBatch, tuning`batchSupported, tuning`filterSupported, caches
    ensures Ready(e, candidates, tuning, caches, l) && |after| == |ws|
    ensures Books(e, candidates, after, next, decided, met, l)
    ensures Measure(after, next, |candidates|) < Measure(ws, index, |candidates|)
  {
    hide Books, Measure, Kept, Marked, PrefixCache.Valid;
    var me := ws[w];
    FitHere(e, candidates, ws, w, index, route, connected, l);
    var s := me;
    next, decided := index, route;
    match me.phase {
      case Connecting =>
        var attached: bool := *;
        s := me.(phase := if attached then Idle else Gone);
        MoveStep(e, candidates, ws, w, s, index, next, route, connected, l);
      case Idle =>
        var span := tuning.Span();
        s := me.(phase := Sized(span));
        MoveStep(e, candidates, ws, w, s, index, next, route, connected, l);
      case Sized(span) =>
        next := index + span;
        if index >= |candidates| {
          s := me.(phase := Gone);
          MoveStep(e, candidates, ws, w, s, index, next, route, connected, l);
        } else {
          s := me.(phase := Claimed(span, index, AskIfBatched));
          var count := Min(span, |candidates| - index);
          ClaimStep(e, candidates, ws, w, s, index, route, count, connected, l);
          decided := Marked(route, index, count, HeldBy(w));
        }
      case Claimed(span, start, _) =>
        ghost var byFilter, kept;
        s, byFilter, kept := ClaimedStep(e, candidates, tuning, caches, w, me, l);
        if s.phase == Idle {
          ghost var count := Min(span, |candidates| - start);
          DecideStep(e, candidates, ws, w, s, index, route, start, count, byFilter, kept, connected, l);
          decided := Marked(route, start, count, Done(byFilter));
        } else {
          MoveStep(e, candidates, ws, w, s, index, next, route, connected, l);
        }
      case Gone => assert false;
    }
    after, met := ws[w := s], connected || Connected(s);
  }

  /** Several sessions at once: each turn of the loop lets any of them take one step on the shared state. */
  method VerifyOnWorkers(e: Env, candidates: seq<Chain>, tuning: Tuning, caches: seq<PrefixCache>)
    returns (valid: seq<Session>, connected: bool, ghost route: Route)
    requires tuning.Valid() && forall i :: 0 <= i < |caches| ==> caches[i].Valid(e.read, e.psize)
    requires forall i, j :: 0 <= i < j < |caches| ==> caches[i] != caches[j]
    requires Uniform(e, candidates) && tuning.depth16 == (if e.depth > 0xffff then 0 else e.depth)
    modifies tuning`dynamicBatch, tuning`batchSupported, tuning`filterSupported, caches
    ensures tuning.Valid() && |valid| == |caches| && |route| == |candidates|
    ensures connected ==> Decided(route) && All(valid) == multiset(Selected(e, candidates, route))
    ensures !connected ==> All(valid) == multiset{}
    ensures forall i :: 0 <= i < |route| && route[i] == Done(true) ==> old(tuning.filterSupported) && e.depth > 0
  {
    hide Books, Measure, Selected, Kept, All;
    ghost var l := Limits(tuning.maxBatch, tuning.depth16, tuning.filterSupported);
    var index := 0;
    connected, valid, route := false, seq(|caches|, _ => Session(Connecting, 0, [])), Same(Waiting, |candidates|);
    StartBooks(e, candidates, valid, l);
    while exists w :: 0 <= w < |valid| && valid[w].phase != Gone
      invariant |valid| == |caches| && Ready(e, candidates, tuning, caches, l)
      invariant Books(e, candidates, valid, index, route, connected, l)
      decreases Measure(valid, index, |candidates|)
    {
      var w :| 0 <= w < |valid| && valid[w].phase != Gone;
      valid, index, connected, route := Step(e, candidates, tuning, caches, valid, index, connected, w, route, l);
    }
    AllGone(e, candidates, valid, index, route, connected, l);
  }

  /** However the work was spread, sessions and workers that met no straddling chain report the same chains. */
  lemma RunsAgree(e: Env, chains: seq<Chain>, one: Route, other: Route, ws: seq<Session>)
    requires CleanTargets(e.targets, e.psize) && Uniform(e, chains) && e.depth > 0
    requires |one| == |other| == |chains| && Decided(one) && Decided(other)
    requires All(ws) == multiset(Selected(e, chains, other))
    requires forall i :: 0 <= i < |chains| ==> !Straddles(e, chains[i])
    ensures All(ws) == multiset(Selected(e, chains, one)) == multiset(Kept(e, false, chains))
  {
    hide Selected, Kept, Straddles, CleanTargets;
    RunIsFilter(e, chains, one);
    RunIsFilter(e, chains, other);
  }
}
