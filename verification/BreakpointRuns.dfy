/**
 Runs of the breakpoint manager: when the reports of a poll are true, and when clearing everything gives
 the program text back, over any sequence of its operations.
 */
module BreakpointRuns {
  import opened Machine
  import opened BreakpointText
  import opened Breakpoints

  datatype Step =
    | Setting(p: nat, addr: u64, exec: bool, size: nat, attachOk: bool, pokeOk: bool)
    | Clearing(p: nat, addr: u64, size: nat)
    | Stopping(trap: u64)
    | Polling(limit: nat)
    | ClearingAll
    | Exiting

  function Apply(s: State, step: Step): State {
    match step
    case Setting(p, addr, exec, size, attachOk, pokeOk) => AfterSet(s, p, addr, exec, size, attachOk, pokeOk).0
    case Clearing(p, addr, size) => AfterClear(s, p, addr, size).0
    case Stopping(trap) => AfterStop(s, trap)
    case Polling(limit) => AfterPoll(s, limit).0
    case ClearingAll => AfterClearAll(s)
    case Exiting => AfterExit(s)
  }

  // ----- what a poll should have said

  /** How many breakpoints a poll with room for `room` reports looks at. */
  function Reached(bps: seq<Breakpoint>, reported: map<nat, u64>, room: Option<nat>): (n: nat)
    requires room != Some(0)
    ensures n <= |bps|
  {
    if bps == [] then 0
    else if bps[0].hits == ReportedIn(reported, bps[0].address) then 1 + Reached(bps[1..], reported, room)
    else if room == Some(1) then 1
    else
      1 + Reached(bps[1..], reported[bps[0].address := bps[0].hits], if room.None? then None else Some(room.value - 1))
  }

  function EraseAt(told: seq<u64>, i: nat): seq<u64> {
    if i < |told| then told[..i] + told[i + 1..] else told
  }

  function Hits(bps: seq<Breakpoint>): (r: seq<u64>)
    ensures |r| == |bps| && forall i :: 0 <= i < |r| ==> r[i] == bps[i].hits
  {
    seq(|bps|, i requires 0 <= i < |bps| => bps[i].hits)
  }

  /** The hits each breakpoint had when they were last reported: none for one just set. */
  function Told(s: State, told: seq<u64>, step: Step): seq<u64> {
    match step
    case Setting(p, addr, exec, size, attachOk, pokeOk) =>
      if !exec || !Aligned(StripTag(addr)) then told
      else
        var kept := if s.pid != 0 && s.pid != p then [] else told;
        if Adds(s, p, addr, exec, size, attachOk, pokeOk) then kept + [0] else kept
    case Clearing(p, addr, size) =>
      if s.pid != 0 && s.pid != p then told else EraseAt(told, FindEntry(s.bps, StripTag(addr), ClampSize(size)))
    case Stopping(_) => told
    case Polling(limit) =>
      var n := Reached(s.bps, s.reported, Room(limit));
      if |told| == |s.bps| then Hits(s.bps)[..n] + told[n..] else told
    case ClearingAll => []
    case Exiting => []
  }

  /** The manager's note of the last report is right for every breakpoint. */
  ghost predicate Fresh(s: State, told: seq<u64>) {
    |told| == |s.bps| && forall i :: 0 <= i < |s.bps| ==> ReportedIn(s.reported, s.bps[i].address) == told[i]
  }

  /** The reports that are due: for each breakpoint hit since its last report, how often. */
  function Due(bps: seq<Breakpoint>, told: seq<u64>): seq<Event>
    requires |told| == |bps|
  {
    if bps == [] then []
    else
      (if bps[0].hits == told[0] then [] else [Event(bps[0].address, bps[0].size, Sub64(bps[0].hits, told[0]))])
        + Due(bps[1..], told[1..])
  }

  lemma DistinctTail(bps: seq<Breakpoint>)
    requires Distinct(bps) && bps != []
    ensures Distinct(bps[1..]) && forall k :: 0 <= k < |bps| - 1 ==> bps[1..][k].address != bps[0].address
  {
  }

  lemma {:induction false} DueAddresses(bps: seq<Breakpoint>, told: seq<u64>)
    requires |told| == |bps|
    ensures forall e :: e in Due(bps, told) ==> exists k :: 0 <= k < |bps| && bps[k].address == e.address
  {
    if bps != [] {
      DueAddresses(bps[1..], told[1..]);
      forall e | e in Due(bps, told) ensures exists k :: 0 <= k < |bps| && bps[k].address == e.address {
        if e in Due(bps[1..], told[1..]) {
          var k :| 0 <= k < |bps| - 1 && bps[1..][k].address == e.address;
          assert bps[k + 1].address == e.address;
        } else {
          assert bps[0].address == e.address;
        }
      }
    }
  }

  function Noted(bps: seq<Breakpoint>, reported: map<nat, u64>): (r: seq<u64>)
    ensures |r| == |bps| && forall i :: 0 <= i < |r| ==> r[i] == ReportedIn(reported, bps[i].address)
  {
    seq(|bps|, i requires 0 <= i < |bps| => ReportedIn(reported, bps[i].address))
  }

  /** With distinct addresses a full poll says what is due according to the notes. */
  lemma {:induction false} PolledIsDue(bps: seq<Breakpoint>, reported: map<nat, u64>)
    requires Distinct(bps)
    ensures Polled(bps, reported, None).0 == Due(bps, Noted(bps, reported))
  {
    if bps != [] {
      DistinctTail(bps);
      var noted := if bps[0].hits == ReportedIn(reported, bps[0].address) then reported
        else reported[bps[0].address := bps[0].hits];
      PolledIsDue(bps[1..], noted);
      assert Noted(bps, reported)[1..] == Noted(bps[1..], noted);
    }
  }

  /** Different ledgers mean different reports. */
  lemma {:induction false} DueDetermines(bps: seq<Breakpoint>, a: seq<u64>, b: seq<u64>)
    requires Distinct(bps) && |a| == |b| == |bps|
    ensures Due(bps, a) == Due(bps, b) <==> a == b
  {
    if bps != [] {
      DistinctTail(bps);
      DueDetermines(bps[1..], a[1..], b[1..]);
      DueAddresses(bps[1..], a[1..]);
      DueAddresses(bps[1..], b[1..]);
      assert a == [a[0]] + a[1..] && b == [b[0]] + b[1..];
      var x := if bps[0].hits == a[0] then [] else [Event(bps[0].address, bps[0].size, Sub64(bps[0].hits, a[0]))];
      var y := if bps[0].hits == b[0] then [] else [Event(bps[0].address, bps[0].size, Sub64(bps[0].hits, b[0]))];
      assert Due(bps, a) == x + Due(bps[1..], a[1..]) && Due(bps, b) == y + Due(bps[1..], b[1..]);
      HeadsMatch(x, Due(bps[1..], a[1..]), y, Due(bps[1..], b[1..]), bps[0].address);
    }
  }

  /** Two lists whose later reports are not about `a` agree only if their reports about `a` do. */
  lemma HeadsMatch(x: seq<Event>, more: seq<Event>, y: seq<Event>, rest: seq<Event>, a: nat)
    requires |x| <= 1 && |y| <= 1 && forall e :: e in x || e in y ==> e.address == a
    requires forall e :: e in more || e in rest ==> e.address != a
    ensures x + more == y + rest <==> x == y && more == rest
  {
    HeadIs(x, more, a);
    HeadIs(y, rest, a);
    if x + more == y + rest {
      assert x == (x + more)[..|x|] && y == (y + rest)[..|y|];
      assert more == (x + more)[|x|..] && rest == (y + rest)[|y|..];
    }
  }

  lemma HeadIs(x: seq<Event>, more: seq<Event>, a: nat)
    requires |x| <= 1 && (forall e :: e in x ==> e.address == a) && forall e :: e in more ==> e.address != a
    ensures |x| == if x + more != [] && (x + more)[0].address == a then 1 else 0
  {
    if x + more != [] { assert (x + more)[0] == if x == [] then more[0] else x[0]; }
  }

  /** A full poll reports exactly what happened since the last reports if and only if the notes are right. */
  lemma PollIsTrueIff(s: State, told: seq<u64>)
    requires Distinct(s.bps) && |told| == |s.bps|
    ensures AfterPoll(s, 0).1 == Due(s.bps, told) <==> Fresh(s, told)
  {
    PolledIsDue(s.bps, s.reported);
    DueDetermines(s.bps, Noted(s.bps, s.reported), told);
  }

  // ----- whole runs

  /** This step sets a breakpoint where an earlier one's hits are still noted as reported. */
  predicate SetsOverReport(s: State, step: Step) {
    && step.Setting? && Adds(s, step.p, step.addr, step.exec, step.size, step.attachOk, step.pokeOk)
    && ReportedIn(AfterTakeOver(s, step.p).reported, StripTag(step.addr)) != 0
  }

  /** No state of the run has one address active twice. */
  ghost predicate AlwaysDistinct(s: State, steps: seq<Step>)
    decreases |steps|
  {
    Distinct(s.bps) && (steps != [] ==> AlwaysDistinct(Apply(s, steps[0]), steps[1..]))
  }

  ghost predicate AlwaysFresh(s: State, told: seq<u64>, steps: seq<Step>)
    decreases |steps|
  {
    Fresh(s, told) && (steps != [] ==> AlwaysFresh(Apply(s, steps[0]), Told(s, told, steps[0]), steps[1..]))
  }

  predicate NeverOverReport(s: State, steps: seq<Step>)
    decreases |steps|
  {
    steps != [] ==> !SetsOverReport(s, steps[0]) && NeverOverReport(Apply(s, steps[0]), steps[1..])
  }

  /** Polling notes exactly the counters it looked at. */
  lemma {:induction false} PolledNotes(bps: seq<Breakpoint>, reported: map<nat, u64>, room: Option<nat>)
    requires Distinct(bps) && room != Some(0)
    ensures var (n, after) := (Reached(bps, reported, room), Polled(bps, reported, room).1);
      && (forall i :: 0 <= i < |bps| ==>
        ReportedIn(after, bps[i].address) == if i < n then bps[i].hits else ReportedIn(reported, bps[i].address))
      && (forall a :: (forall i :: 0 <= i < |bps| ==> bps[i].address != a) ==>
        ReportedIn(after, a) == ReportedIn(reported, a))
  {
    if bps != [] {
      DistinctTail(bps);
      var bp := bps[0];
      var moved := bp.hits != ReportedIn(reported, bp.address);
      var noted := if moved then reported[bp.address := bp.hits] else reported;
      var left := if !moved || room.None? then room else Some(room.value - 1);
      if left != Some(0) { PolledNotes(bps[1..], noted, left); }
      assert forall i :: 0 < i < |bps| ==> bps[i] == bps[1..][i - 1];
    }
  }

  /** One step keeps the notes right unless it sets a breakpoint over an old report. */
  lemma FreshStep(s: State, told: seq<u64>, step: Step)
    requires Fresh(s, told) && Distinct(s.bps)
    ensures Fresh(Apply(s, step), Told(s, told, step)) <==> !SetsOverReport(s, step)
  {
    hide StripTag, Restored, Mapped, Insn, Aligned, SetInsn;
    match step
    case Setting(_, _, _, _, _, _) => FreshSet(s, told, step);
    case Clearing(p, addr, size) => FreshClear(s, told, p, addr, size);
    case Stopping(trap) =>
    case Polling(limit) => PolledNotes(s.bps, s.reported, Room(limit));
    case ClearingAll =>
    case Exiting =>
  }

  /** What setting does to the list and to the notes. */
  lemma SetShape(s: State, step: Step)
    requires step.Setting?
    ensures var (t, next) := (AfterTakeOver(s, step.p), Apply(s, step));
      if !step.exec || !Aligned(StripTag(step.addr)) then next == s
      else if Adds(s, step.p, step.addr, step.exec, step.size, step.attachOk, step.pokeOk) then
        && next.reported == t.reported && |next.bps| == |t.bps| + 1 && next.bps[..|t.bps|] == t.bps
        && next.bps[|t.bps|].address == StripTag(step.addr)
      else next.reported == t.reported && next.bps == t.bps
  {
    hide StripTag, Restored, Mapped, Insn, Aligned, WriteIn;
  }

  lemma FreshAppend(t: State, kept: seq<u64>, next: State)
    requires Fresh(t, kept) && next.reported == t.reported && |next.bps| == |t.bps| + 1 && next.bps[..|t.bps|] == t.bps
    ensures Fresh(next, kept + [0]) <==> ReportedIn(t.reported, next.bps[|t.bps|].address) == 0
  {
    assert forall i :: 0 <= i < |t.bps| ==> next.bps[i] == t.bps[i] && (kept + [0])[i] == kept[i];
    assert (kept + [0])[|t.bps|] == 0;
  }

  lemma FreshSet(s: State, told: seq<u64>, step: Step)
    requires Fresh(s, told) && step.Setting?
    ensures Fresh(Apply(s, step), Told(s, told, step)) <==> !SetsOverReport(s, step)
  {
    hide StripTag, Restored, Adds, Aligned, AfterSet;
    SetShape(s, step);
    if step.exec && Aligned(StripTag(step.addr)) {
      var t := AfterTakeOver(s, step.p);
      var kept := if s.pid != 0 && s.pid != step.p then [] else told;
      assert Fresh(t, kept);
      if Adds(s, step.p, step.addr, step.exec, step.size, step.attachOk, step.pokeOk) {
        FreshAppend(t, kept, Apply(s, step));
      }
    } else {
      NotAdded(s, step);
    }
  }

  lemma NotAdded(s: State, step: Step)
    requires step.Setting? && (!step.exec || !Aligned(StripTag(step.addr)))
    ensures !SetsOverReport(s, step)
  {
  }

  lemma FreshClear(s: State, told: seq<u64>, p: nat, addr: u64, size: nat)
    requires Fresh(s, told)
    ensures Fresh(Apply(s, Clearing(p, addr, size)), Told(s, told, Clearing(p, addr, size)))
  {
    hide StripTag;
    var i := FindEntry(s.bps, StripTag(addr), ClampSize(size));
    if i < |s.bps| {
      forall k | 0 <= k < |s.bps| - 1
        ensures Erase(s.bps, i)[k] == s.bps[if k < i then k else k + 1]
          && EraseAt(told, i)[k] == told[if k < i then k else k + 1]
      {
      }
    }
  }

  /**
   The reports of a run: as long as no address is active twice, every full poll, at whatever point of the run it is
   made, is true if and only if no breakpoint is set over an old report.
   */
  lemma {:induction false} RunReportsTrulyIff(s: State, told: seq<u64>, steps: seq<Step>)
    requires Fresh(s, told) && AlwaysDistinct(s, steps)
    ensures AlwaysFresh(s, told, steps) <==> NeverOverReport(s, steps)
    decreases |steps|
  {
    hide Fresh, Told, Apply, Distinct;
    if steps != [] {
      var next, after := Apply(s, steps[0]), Told(s, told, steps[0]);
      FreshStep(s, told, steps[0]);
      if Fresh(next, after) {
        RunReportsTrulyIff(next, after, steps[1..]);
      } else {
        NotFresh(next, after, steps[1..]);
      }
    }
  }

  lemma NotFresh(s: State, told: seq<u64>, steps: seq<Step>)
    requires !Fresh(s, told)
    ensures !AlwaysFresh(s, told, steps)
  {
  }

  /** A limited poll reports the first so many of what a full one would. */
  lemma {:induction false} LimitedPoll(bps: seq<Breakpoint>, reported: map<nat, u64>, limit: nat)
    requires limit > 0
    ensures var all := Polled(bps, reported, None).0;
      Polled(bps, reported, Some(limit)).0 == all[..if limit < |all| then limit else |all|]
  {
    if bps != [] {
      var moved := bps[0].hits != ReportedIn(reported, bps[0].address);
      var noted := if moved then reported[bps[0].address := bps[0].hits] else reported;
      if !moved || limit > 1 { LimitedPoll(bps[1..], noted, if moved then limit - 1 else limit); }
    }
  }

  // ----- runs whose reports are wrong

  predicate Patchable(s: State, p: nat, a: nat) { a < TAG_LIMIT && Aligned(a) && p in s.texts && Mapped(s.texts[p], a) }

  function SettingOf(p: nat, a: u64): Step { Setting(p, a, true, 4, true, true) }

  lemma SetAdds(s: State, p: nat, a: u64)
    requires p != 0 && (s.pid == p || (s.pid == 0 && s.bps == [])) && Patchable(s, p, a) && Find(s.bps, a) == |s.bps|
    ensures var t := Apply(s, SettingOf(p, a));
      && t.pid == p && t.reported == s.reported && |t.bps| == |s.bps| + 1 && t.bps[..|s.bps|] == s.bps
      && t.bps[|s.bps|].address == a && t.bps[|s.bps|].size == 4 && t.bps[|s.bps|].hits == 0
    ensures Adds(s, p, a, true, 4, true, true)
    ensures forall q, b :: Patchable(s, q, b) ==> Patchable(Apply(s, SettingOf(p, a)), q, b)
    ensures forall told :: Told(s, told, SettingOf(p, a)) == told + [0]
  {
    hide Insn;
  }

  lemma StopCounts(s: State, a: u64)
    requires a < TAG_LIMIT && s.bps != [] && s.bps[0].address == a && s.bps[0].hits < U64_LIMIT - 1
    ensures var t := Apply(s, Stopping(a));
      t.pid == s.pid && t.reported == s.reported && t.bps == s.bps[0 := s.bps[0].(hits := s.bps[0].hits + 1)]
    ensures forall q, b :: Patchable(s, q, b) ==> Patchable(Apply(s, Stopping(a)), q, b)
    ensures forall told :: Told(s, told, Stopping(a)) == told
  {
    hide Insn;
  }

  lemma ClearErases(s: State, p: nat, a: u64)
    requires a < TAG_LIMIT && s.pid == p && |s.bps| == 2 && s.bps[0].address == a && s.bps[0].size == 4
    ensures var t := Apply(s, Clearing(p, a, 4)); t.pid == p && t.reported == s.reported && t.bps == [s.bps[1]]
    ensures forall q, b :: Patchable(s, q, b) ==> Patchable(Apply(s, Clearing(p, a, 4)), q, b)
    ensures forall told | |told| == 2 :: Told(s, told, Clearing(p, a, 4)) == [told[1]]
  {
    hide Insn;
    assert Erase(s.bps, 0) == [s.bps[1]];
  }

  /** The state and the ledger after some steps. */
  function After(s: State, told: seq<u64>, steps: seq<Step>): (State, seq<u64>) {
    if steps == [] then (s, told)
    else
      var (t, known) := After(s, told, steps[..|steps| - 1]);
      (Apply(t, steps[|steps| - 1]), Told(t, known, steps[|steps| - 1]))
  }

  lemma OneMore(s: State, run: seq<Step>, k: nat)
    requires k < |run|
    ensures var (t, told) := After(s, [], run[..k]);
      After(s, [], run[..k + 1]) == (Apply(t, run[k]), Told(t, told, run[k]))
    ensures After(s, [], run[..0]) == (s, []) && run[..|run|] == run
  {
    assert run[..k + 1][..k] == run[..k];
  }

  /** Only the first breakpoint has been hit, once, since it was set. */
  lemma PollNotesOne(s: State)
    requires s.bps != [] && s.bps[0].hits == 1 && ReportedIn(s.reported, s.bps[0].address) == 0
    requires |s.bps| == 1 || (|s.bps| == 2 && s.bps[1].hits == 0 && ReportedIn(s.reported, s.bps[1].address) == 0
      && s.bps[1].address != s.bps[0].address)
    ensures var t := Apply(s, Polling(0)); t == s.(reported := s.reported[s.bps[0].address := 1])
    ensures forall told | |told| == |s.bps| :: Told(s, told, Polling(0)) == Hits(s.bps)
  {
    var tail, noted := s.bps[1..], s.reported[s.bps[0].address := 1];
    if |s.bps| == 2 {
      assert tail[0] == s.bps[1] && tail[1..] == [];
      assert Polled(tail[1..], noted, None) == ([], noted);
    }
    assert Polled(tail, noted, None) == ([], noted);
    assert Reached(tail, noted, None) == |tail|;
  }

  function ReportingRun(p: nat, a: u64, b: u64): seq<Step> {
    [SettingOf(p, a), SettingOf(p, b), Stopping(a), Polling(0), Clearing(p, a, 4), SettingOf(p, a)]
  }

  /** After set a, set b, stop at a, poll, clear a, set a: nothing is due, and one hit of a is noted as reported. */
  lemma AfterReportingRun(texts: Texts, p: nat, a: u64, b: u64) returns (s: State)
    requires p != 0 && a != b && a < TAG_LIMIT && b < TAG_LIMIT
    requires Patchable(State(0, [], map[], texts), p, a) && Patchable(State(0, [], map[], texts), p, b)
    ensures After(State(0, [], map[], texts), [], ReportingRun(p, a, b)) == (s, [0, 0])
    ensures s.pid == p && |s.bps| == 2 && s.bps[0].address == b && s.bps[1].address == a && s.bps[1].size == 4
    ensures s.bps[0].hits == s.bps[1].hits == 0 && ReportedIn(s.reported, a) == 1 && ReportedIn(s.reported, b) == 0
  {
    hide Patchable, Apply, Told, Adds, After;
    var s0, run := State(0, [], map[], texts), ReportingRun(p, a, b);
    var zero: seq<u64> := [0];
    assert [] + zero == zero && zero + zero == [0, 0];
    SetAdds(s0, p, a);
    OneMore(s0, run, 0);
    var s1 := Apply(s0, SettingOf(p, a));
    SetAdds(s1, p, b);
    OneMore(s0, run, 1);
    var s2 := Apply(s1, SettingOf(p, b));
    assert s2.bps[..1][0] == s2.bps[0];
    StopCounts(s2, a);
    OneMore(s0, run, 2);
    var s3 := Apply(s2, Stopping(a));
    PollNotesOne(s3);
    PollKeepsPatchable(s3);
    assert Hits(s3.bps) == [1, 0];
    OneMore(s0, run, 3);
    var s4 := Apply(s3, Polling(0));
    assert s4.bps == s3.bps && s4.bps[1].address == b;
    ClearErases(s4, p, a);
    OneMore(s0, run, 4);
    var s5 := Apply(s4, Clearing(p, a, 4));
    assert s5.bps == [s4.bps[1]] && Find(s5.bps, a) == 1;
    SetAdds(s5, p, a);
    OneMore(s0, run, 5);
    s := Apply(s5, SettingOf(p, a));
    assert s.bps[..1][0] == s.bps[0];
  }

  lemma PollKeepsPatchable(s: State)
    ensures forall q, b :: Patchable(s, q, b) ==> Patchable(Apply(s, Polling(0)), q, b)
  {
  }

  /** The notes outlive a cleared breakpoint: polled after being set again, it reports hits it never had. */
  lemma StaleCounter(texts: Texts, p: nat, a: u64, b: u64)
    requires p != 0 && a != b && a < TAG_LIMIT && b < TAG_LIMIT
    requires Patchable(State(0, [], map[], texts), p, a) && Patchable(State(0, [], map[], texts), p, b)
    ensures var (s, told) := After(State(0, [], map[], texts), [], ReportingRun(p, a, b));
      |told| == |s.bps| && Due(s.bps, told) == [] && AfterPoll(s, 0).1 == [Event(a, 4, U64_LIMIT - 1)]
  {
    hide Patchable, After;
    var s := AfterReportingRun(texts, p, a, b);
    var rest := s.bps[1..];
    assert rest[0] == s.bps[1] && rest[1..] == [];
    assert Polled(rest[1..], s.reported[a := 0], None) == ([], s.reported[a := 0]);
    assert Polled(rest, s.reported, None).0 == [Event(a, 4, U64_LIMIT - 1)];
    assert Due(rest[1..], [0, 0][1..][1..]) == [];
    assert Due(rest, [0, 0][1..]) == [];
  }

  /** Hit once more instead, it reports nothing. */
  lemma LostHit(texts: Texts, p: nat, a: u64, b: u64)
    requires p != 0 && a != b && a < TAG_LIMIT && b < TAG_LIMIT
    requires Patchable(State(0, [], map[], texts), p, a) && Patchable(State(0, [], map[], texts), p, b)
    ensures var (s, told) := After(State(0, [], map[], texts), [], ReportingRun(p, a, b) + [Stopping(a)]);
      |told| == |s.bps| && Due(s.bps, told) == [Event(a, 4, 1)] && AfterPoll(s, 0).1 == []
  {
    hide Patchable, After, WriteIn;
    var s := AfterReportingRun(texts, p, a, b);
    var run := ReportingRun(p, a, b) + [Stopping(a)];
    assert run[..6] == ReportingRun(p, a, b);
    OneMore(State(0, [], map[], texts), run, 6);
    var t := Apply(s, Stopping(a));
    assert Find(s.bps, a) == 1;
    assert t.bps == [s.bps[0], s.bps[1].(hits := 1)] && t.reported == s.reported;
    var rest := t.bps[1..];
    assert rest[0] == t.bps[1] && rest[1..] == [];
    assert Polled(rest[1..], s.reported, None) == ([], s.reported);
    assert Polled(rest, s.reported, None).0 == [];
    assert Due(rest[1..], [0, 0][1..][1..]) == [];
    assert Due(rest, [0, 0][1..]) == [Event(a, 4, 1)];
  }

  /** The notes even reach the next process: when the last thread exits, only the breakpoints are forgotten. */
  lemma NextProcessInherits(texts: Texts, p: nat, q: nat, a: u64)
    requires p != 0 && q != 0 && p != q && a < TAG_LIMIT
    requires Patchable(State(0, [], map[], texts), p, a) && Patchable(State(0, [], map[], texts), q, a)
    ensures var (s, told) := After(State(0, [], map[], texts), [],
      [SettingOf(p, a), Stopping(a), Polling(0), Exiting, SettingOf(q, a)]);
      s.pid == q && |told| == |s.bps| && Due(s.bps, told) == [] && AfterPoll(s, 0).1 == [Event(a, 4, U64_LIMIT - 1)]
  {
    hide Patchable, Apply, Told, Adds, After;
    var s0, run := State(0, [], map[], texts), [SettingOf(p, a), Stopping(a), Polling(0), Exiting, SettingOf(q, a)];
    SetAdds(s0, p, a);
    OneMore(s0, run, 0);
    var s1 := Apply(s0, SettingOf(p, a));
    StopCounts(s1, a);
    OneMore(s0, run, 1);
    var s2 := Apply(s1, Stopping(a));
    PollNotesOne(s2);
    PollKeepsPatchable(s2);
    OneMore(s0, run, 2);
    var s3 := Apply(s2, Polling(0));
    ExitForgets(s3, q, a);
    OneMore(s0, run, 3);
    var s4 := Apply(s3, Exiting);
    SetAdds(s4, q, a);
    OneMore(s0, run, 4);
    var s5 := Apply(s4, SettingOf(q, a));
    var zero: seq<u64> := [0];
    assert [] + zero == zero;
    assert s5.bps[1..] == [];
    assert Polled(s5.bps[1..], s5.reported[a := 0], None) == ([], s5.reported[a := 0]);
    assert Due(s5.bps[1..], [0][1..]) == [];
  }

  lemma ExitForgets(s: State, q: nat, a: nat)
    requires s.pid != q
    ensures var t := Apply(s, Exiting); t.pid == 0 && t.bps == [] && t.reported == s.reported
    ensures Patchable(s, q, a) ==> Patchable(Apply(s, Exiting), q, a)
    ensures forall told :: Told(s, told, Exiting) == []
  {
  }

  // ----- the text over whole runs

  function Run(s: State, steps: seq<Step>): State
    decreases |steps|
  {
    if steps == [] then s else Run(Apply(s, steps[0]), steps[1..])
  }

  lemma RunFront(s: State, steps: seq<Step>, k: nat)
    requires 0 < k <= |steps|
    ensures Run(s, steps[..k]) == Run(Apply(s, steps[0]), steps[1..][..k - 1])
  {
    assert steps[..k][1..] == steps[1..][..k - 1];
  }

  /** What the conditions on runs say: something about each state the run comes through, or each step it takes. */
  lemma {:induction false} AlwaysDistinctIff(s: State, steps: seq<Step>)
    ensures AlwaysDistinct(s, steps) <==> forall k :: 0 <= k <= |steps| ==> Distinct(Run(s, steps[..k]).bps)
    decreases |steps|
  {
    hide Apply, Distinct;
    assert Run(s, steps[..0]) == s;
    if steps != [] {
      var next := Apply(s, steps[0]);
      AlwaysDistinctIff(next, steps[1..]);
      forall k | 0 < k <= |steps| ensures Run(s, steps[..k]) == Run(next, steps[1..][..k - 1]) {
        RunFront(s, steps, k);
      }
      if forall k :: 0 <= k <= |steps| ==> Distinct(Run(s, steps[..k]).bps) {
        forall k | 0 <= k <= |steps| - 1 ensures Distinct(Run(next, steps[1..][..k]).bps) {
          assert Run(s, steps[..k + 1]) == Run(next, steps[1..][..k]);
        }
      }
    }
  }

  lemma {:induction false} NeverOverReportIff(s: State, steps: seq<Step>)
    ensures NeverOverReport(s, steps) <==>
      forall k :: 0 <= k < |steps| ==> !SetsOverReport(Run(s, steps[..k]), steps[k])
    decreases |steps|
  {
    hide Apply, SetsOverReport;
    if steps != [] {
      var next := Apply(s, steps[0]);
      assert Run(s, steps[..0]) == s;
      NeverOverReportIff(next, steps[1..]);
      forall k | 0 < k <= |steps| ensures Run(s, steps[..k]) == Run(next, steps[1..][..k - 1]) {
        RunFront(s, steps, k);
      }
      if forall k :: 0 <= k < |steps| ==> !SetsOverReport(Run(s, steps[..k]), steps[k]) {
        forall k | 0 <= k < |steps| - 1 ensures !SetsOverReport(Run(next, steps[1..][..k]), steps[1..][k]) {
          assert !SetsOverReport(Run(s, steps[..k + 1]), steps[k + 1]);
        }
      }
    }
  }

  /** A set over an old report: a breakpoint is added where the notes kept so far are not zero. */
  lemma SetsOverReportIff(s: State, step: Step)
    requires step.Setting?
    ensures SetsOverReport(s, step) ==> Adds(s, step.p, step.addr, step.exec, step.size, step.attachOk, step.pokeOk)
    ensures Adds(s, step.p, step.addr, step.exec, step.size, step.attachOk, step.pokeOk) ==>
      var t := Apply(s, step);
      t.bps != [] &&
      var a := t.bps[|t.bps| - 1].address;
      SetsOverReport(s, step) <==> a in t.reported && t.reported[a] != 0
  {
    hide Insn, Restored, StripTag, Mapped, Aligned, WriteIn;
  }

  /** As long as no address is active twice, every text is always its original with BRK at the active addresses. */
  lemma {:induction false} RunKeepsText(s: State, originals: Texts, steps: seq<Step>)
    requires Good(s, originals) && AlwaysDistinct(s, steps)
    ensures Good(Run(s, steps), originals)
    decreases |steps|
  {
    hide Good, Apply, Distinct;
    if steps != [] {
      assert AlwaysDistinct(Apply(s, steps[0]), steps[1..]);
      DistinctNow(Apply(s, steps[0]), steps[1..]);
      GoodAfterStep(s, originals, steps[0]);
      RunKeepsText(Apply(s, steps[0]), originals, steps[1..]);
    }
  }

  lemma DistinctNow(s: State, steps: seq<Step>)
    requires AlwaysDistinct(s, steps)
    ensures Distinct(s.bps)
  {
  }

  lemma GoodAfterStep(s: State, originals: Texts, step: Step)
    requires Good(s, originals) && Distinct(Apply(s, step).bps)
    ensures Good(Apply(s, step), originals)
  {
    hide Good, Restored, StripTag, Mapped, Insn, Aligned, WriteIn;
    match step
    case Setting(p, addr, exec, size, attachOk, pokeOk) =>
      GoodSet(s, originals, p, addr, exec, size, attachOk, pokeOk);
      var t := AfterTakeOver(s, p);
      SetShape(s, step);
      if Adds(s, p, addr, exec, size, attachOk, pokeOk) { ActiveTwice(t.bps, Apply(s, step).bps, StripTag(addr)); }
    case Clearing(p, addr, size) => GoodClear(s, originals, p, addr, size);
    case Stopping(trap) => GoodStop(s, originals, trap);
    case Polling(limit) => GoodPoll(s, originals, limit);
    case ClearingAll => GoodClearAll(s, originals);
    case Exiting => GoodExit(s, originals);
  }

  lemma ActiveTwice(before: seq<Breakpoint>, after: seq<Breakpoint>, a: nat)
    requires |after| == |before| + 1 && after[..|before|] == before && after[|before|].address == a
    ensures a in Addresses(before) ==> !Distinct(after)
  {
    if a in Addresses(before) {
      var i :| 0 <= i < |before| && before[i].address == a;
      assert after[i].address == after[|before|].address;
    }
  }

  lemma GoodPoll(s: State, originals: Texts, limit: nat)
    requires Good(s, originals)
    ensures Good(AfterPoll(s, limit).0, originals)
  {
    hide PatchedAt, GoodText;
    var t := AfterPoll(s, limit).0;
    forall p | p in t.texts && p in originals ensures PatchedAt(t.texts[p], originals[p], ActiveIn(p, t)) {
      assert PatchedAt(s.texts[p], originals[p], ActiveIn(p, s));
    }
  }

  /**
   What the caller's own calls say about the text of one process: where BRK stands, and for each breakpoint whether
   none stood there when it was set.
   */
  datatype Marks = Marks(clean: seq<bool>, patched: set<nat>)

  function MarkOne(patched: set<nat>, a: nat, clean: bool): set<nat> { if clean then patched - {a} else patched + {a} }

  /** Writing everything back, entry by entry. */
  function Settled(bps: seq<Breakpoint>, m: Marks): set<nat>
    requires |m.clean| == |bps|
  {
    if bps == [] then m.patched
    else Settled(bps[1..], Marks(m.clean[1..], MarkOne(m.patched, bps[0].address, m.clean[0])))
  }

  function Marked(s: State, m: Marks, step: Step): Marks {
    match step
    case Setting(p, addr, exec, size, attachOk, pokeOk) =>
      var a := StripTag(addr);
      if Adds(s, p, addr, exec, size, attachOk, pokeOk) then Marks(m.clean + [a !in m.patched], m.patched + {a}) else m
    case Clearing(p, addr, size) =>
      var i := FindEntry(s.bps, StripTag(addr), ClampSize(size));
      if (s.pid != 0 && s.pid != p) || i >= |m.clean| || i == |s.bps| then m
      else Marks(m.clean[..i] + m.clean[i + 1..], MarkOne(m.patched, s.bps[i].address, m.clean[i]))
    case Stopping(trap) =>
      var i := HitIndex(s.bps, StripTag(trap));
      if i == |s.bps| then m else m.(patched := m.patched + {s.bps[i].address})
    case Polling(_) => m
    case ClearingAll => if |m.clean| == |s.bps| then Marks([], Settled(s.bps, m)) else m
    case Exiting => m
  }

  function RunMarks(s: State, m: Marks, steps: seq<Step>): Marks
    decreases |steps|
  {
    if steps == [] then m else RunMarks(Apply(s, steps[0]), Marked(s, m, steps[0]), steps[1..])
  }

  /** The calls concern one process, which stays alive. */
  predicate OnOne(p: nat, steps: seq<Step>) {
    forall i :: 0 <= i < |steps| ==> !steps[i].Exiting? && (steps[i].Setting? ==> steps[i].p == p)
  }

  /** The marks describe the text and what the breakpoints saved. */
  ghost predicate Describes(s: State, p: nat, m: Marks, original: Text) {
    && p != 0 && (s.pid == p || (s.pid == 0 && s.bps == [])) && p in s.texts
    && PatchedAt(s.texts[p], original, m.patched) && |m.clean| == |s.bps|
    && forall i :: 0 <= i < |s.bps| ==> SavedAs(s.bps[i], m.clean[i], original)
  }

  predicate SavedAs(bp: Breakpoint, clean: bool, original: Text) {
    Aligned(bp.address) && Mapped(original, bp.address) && bp.saved == if clean then Insn(original, bp.address) else BRK
  }

  /** Writing a saved instruction back marks its address as that instruction says. */
  lemma WriteMarks(text: Text, original: Text, patched: set<nat>, bp: Breakpoint, clean: bool)
    requires PatchedAt(text, original, patched) && SavedAs(bp, clean, original)
    ensures PatchedAt(Write(text, bp.address, bp.saved), original, MarkOne(patched, bp.address, clean))
    ensures PatchedAt(Write(text, bp.address, BRK), original, patched + {bp.address})
  {
    hide PatchedAt, SetInsn, Insn, Mapped, Aligned;
    WriteOne(text, original, patched, bp.address);
  }

  lemma {:induction false} RestoredMarks(texts: Texts, p: nat, bps: seq<Breakpoint>, m: Marks, original: Text)
    requires p in texts && PatchedAt(texts[p], original, m.patched) && |m.clean| == |bps|
    requires forall i :: 0 <= i < |bps| ==> SavedAs(bps[i], m.clean[i], original)
    ensures p in Restored(texts, p, bps) && PatchedAt(Restored(texts, p, bps)[p], original, Settled(bps, m))
    decreases |bps|
  {
    hide PatchedAt, SavedAs, Write;
    if bps != [] {
      WriteMarks(texts[p], original, m.patched, bps[0], m.clean[0]);
      RestoredMarks(WriteIn(texts, p, bps[0].address, bps[0].saved), p, bps[1..],
        Marks(m.clean[1..], MarkOne(m.patched, bps[0].address, m.clean[0])), original);
    }
  }

  lemma DescribesStep(s: State, p: nat, m: Marks, original: Text, step: Step)
    requires Describes(s, p, m, original) && !step.Exiting? && (step.Setting? ==> step.p == p)
    ensures Describes(Apply(s, step), p, Marked(s, m, step), original)
  {
    hide PatchedAt, SavedAs, Write, StripTag, Restored, SetInsn;
    match step
    case Setting(_, _, _, _, _, _) => DescribesSet(s, p, m, original, step);
    case Clearing(q, addr, size) => DescribesClear(s, p, m, original, q, addr, size);
    case Stopping(trap) =>
      var i := HitIndex(s.bps, StripTag(trap));
      if i < |s.bps| { DescribesStop(s, p, m, original, i); }
    case Polling(_) =>
    case ClearingAll => DescribesClearAll(s, p, m, original);
  }

  lemma DescribesClear(s: State, p: nat, m: Marks, original: Text, q: nat, addr: u64, size: nat)
    requires Describes(s, p, m, original)
    ensures Describes(AfterClear(s, q, addr, size).0, p, Marked(s, m, Clearing(q, addr, size)), original)
  {
    hide PatchedAt, SavedAs, Write, StripTag, FindEntry, Erase;
    var i := FindEntry(s.bps, StripTag(addr), ClampSize(size));
    if i < |s.bps| {
      WriteMarks(s.texts[p], original, m.patched, s.bps[i], m.clean[i]);
      SavedErase(s.bps, m.clean, i, original);
    }
  }

  lemma SavedErase(bps: seq<Breakpoint>, clean: seq<bool>, i: nat, original: Text)
    requires i < |bps| == |clean| && forall k :: 0 <= k < |bps| ==> SavedAs(bps[k], clean[k], original)
    ensures |Erase(bps, i)| == |bps| - 1
    ensures forall k :: 0 <= k < |bps| - 1 ==> SavedAs(Erase(bps, i)[k], (clean[..i] + clean[i + 1..])[k], original)
  {
    hide SavedAs;
    forall k | 0 <= k < |bps| - 1
      ensures Erase(bps, i)[k] == bps[if k < i then k else k + 1]
      ensures (clean[..i] + clean[i + 1..])[k] == clean[if k < i then k else k + 1]
    {
    }
  }

  lemma DescribesClearAll(s: State, p: nat, m: Marks, original: Text)
    requires Describes(s, p, m, original)
    ensures Describes(AfterClearAll(s), p, Marks([], Settled(s.bps, m)), original)
  {
    hide PatchedAt, SavedAs, Write;
    if s.bps == [] {
      assert Restored(s.texts, s.pid, s.bps) == s.texts;
    } else {
      RestoredMarks(s.texts, p, s.bps, m, original);
    }
  }

  lemma DescribesStop(s: State, p: nat, m: Marks, original: Text, i: nat)
    requires Describes(s, p, m, original) && i < |s.bps|
    ensures var hit := s.bps[i := s.bps[i].(hits := Add64(s.bps[i].hits, 1))];
      Describes(s.(bps := hit, texts := WriteIn(During(s, i), s.pid, s.bps[i].address, BRK)), p,
        m.(patched := m.patched + {s.bps[i].address}), original)
  {
    hide PatchedAt, Write, Insn, Mapped, Aligned;
    var bp := s.bps[i];
    var during := Write(s.texts[p], bp.address, bp.saved);
    WriteMarks(s.texts[p], original, m.patched, bp, m.clean[i]);
    WriteMarks(during, original, MarkOne(m.patched, bp.address, m.clean[i]), bp, m.clean[i]);
    assert MarkOne(m.patched, bp.address, m.clean[i]) + {bp.address} == m.patched + {bp.address};
    assert SavedAs(bp, m.clean[i], original);
  }

  lemma DescribesSet(s: State, p: nat, m: Marks, original: Text, step: Step)
    requires Describes(s, p, m, original) && step.Setting? && step.p == p
    ensures Describes(Apply(s, step), p, Marked(s, m, step), original)
  {
    hide PatchedAt, SetInsn, StripTag, Restored, Insn, Aligned, Mapped;
    if Adds(s, p, step.addr, step.exec, step.size, step.attachOk, step.pokeOk) {
      var a := StripTag(step.addr);
      PatchedKeys(s.texts[p], original, m.patched);
      WriteOne(s.texts[p], original, m.patched, a);
    }
  }

  lemma {:induction false} RunDescribes(s: State, p: nat, m: Marks, original: Text, steps: seq<Step>)
    requires Describes(s, p, m, original) && OnOne(p, steps)
    ensures Describes(Run(s, steps), p, RunMarks(s, m, steps), original)
    decreases |steps|
  {
    hide Describes, Apply, Marked;
    if steps != [] {
      DescribesStep(s, p, m, original, steps[0]);
      RunDescribes(Apply(s, steps[0]), p, Marked(s, m, steps[0]), original, steps[1..]);
    }
  }

  /**
   Over any run of sets, clears, stops and polls on one process, sizes repeated or not: clearing everything at the end
   gives the original text back if and only if the calls leave no BRK where the program had none.
   */
  lemma RunRestoresIff(s: State, p: nat, original: Text, steps: seq<Step>)
    requires p != 0 && s.pid == 0 && s.bps == [] && p in s.texts && s.texts[p] == original && GoodText(original)
    requires OnOne(p, steps)
    ensures var (t, m) := (Run(s, steps), RunMarks(s, Marks([], {}), steps));
      |m.clean| == |t.bps| && p in AfterClearAll(t).texts &&
      (AfterClearAll(t).texts[p] == original <==>
        forall a: nat :: a in Settled(t.bps, m) && Aligned(a) && Mapped(original, a) ==> Insn(original, a) == BRK)
  {
    hide Insn, SetInsn, Aligned, Mapped, Settled, Write;
    var m0 := Marks([], {});
    StartsUnmarked(original);
    assert Describes(s, p, m0, original);
    RunDescribes(s, p, m0, original, steps);
    var t, m := Run(s, steps), RunMarks(s, m0, steps);
    var last := Settled(t.bps, m);
    if t.bps == [] {
      NothingToSettle(t, m);
    } else {
      RestoredMarks(t.texts, p, t.bps, m, original);
    }
    PatchedIsOriginalIff(AfterClearAll(t).texts[p], original, last);
  }

  lemma StartsUnmarked(original: Text)
    ensures PatchedAt(original, original, {})
  {
  }

  lemma NothingToSettle(t: State, m: Marks)
    requires t.bps == [] && m.clean == []
    ensures Settled(t.bps, m) == m.patched && AfterClearAll(t).texts == t.texts
  {
  }

  lemma PatchedIsOriginalIff(text: Text, original: Text, patched: set<nat>)
    requires PatchedAt(text, original, patched) && GoodText(original)
    ensures text == original <==> forall a: nat :: a in patched && Aligned(a) && Mapped(original, a) ==>
      Insn(original, a) == BRK
  {
    hide Insn, Aligned;
    PatchedKeys(text, original, patched);
    if forall a: nat :: a in patched && Aligned(a) && Mapped(original, a) ==> Insn(original, a) == BRK {
      InsnsDetermine(text, original);
    }
  }

  /** Setting one address under two sizes leaves BRK behind: the second entry saved it and is restored last. */
  lemma TwoSizesLeaveBrk(original: Text, p: nat, a: u64)
    requires p != 0 && GoodText(original) && a < TAG_LIMIT && Aligned(a) && Mapped(original, a)
      && Insn(original, a) != BRK
    ensures var s := State(0, [], map[], map[p := original]);
      var t := AfterClearAll(Run(s, [Setting(p, a, true, 4, true, true), Setting(p, a, true, 8, true, true)]));
      p in t.texts && t.texts[p] != original
  {
    hide Insn, SetInsn, Aligned, Mapped, AfterClearAll, AfterSet, Adds;
    var s := State(0, [], map[], map[p := original]);
    var first, second := Setting(p, a, true, 4, true, true), Setting(p, a, true, 8, true, true);
    var steps := [first, second];
    var s1 := Apply(s, first);
    var s2 := Apply(s1, second);
    assert steps[1..] == [second] && steps[1..][1..] == [];
    TwoAdds(s, p, a);
    var m1 := Marked(s, Marks([], {}), first);
    var m2 := Marked(s1, m1, second);
    assert Run(s2, steps[1..][1..]) == s2 && RunMarks(s2, m2, steps[1..][1..]) == m2;
    assert Run(s1, steps[1..]) == s2 && RunMarks(s1, m1, steps[1..]) == m2;
    assert Run(s, steps) == s2 && RunMarks(s, Marks([], {}), steps) == m2;
    assert m1 == Marks([true], {a as nat}) && m2 == Marks([true, false], {a as nat});
    assert s2.bps[1..][0] == s2.bps[1] && s2.bps[1..][1..] == [] && m2.clean[1..] == [false]
      && m2.clean[1..][1..] == [];
    assert Settled(s2.bps[1..][1..], Marks([], {a as nat})) == {a as nat};
    RunRestoresIff(s, p, original, steps);
  }

  lemma TwoAdds(s: State, p: nat, a: u64)
    requires p != 0 && s.pid == 0 && s.bps == [] && p in s.texts && a < TAG_LIMIT && Aligned(a) && Mapped(s.texts[p], a)
    ensures Adds(s, p, a, true, 4, true, true)
    ensures var s1 := Apply(s, Setting(p, a, true, 4, true, true));
      && Adds(s1, p, a, true, 8, true, true)
      && var s2 := Apply(s1, Setting(p, a, true, 8, true, true));
        |s2.bps| == 2 && s2.bps[0].address == s2.bps[1].address == a
  {
    hide Insn, Aligned;
  }
}
