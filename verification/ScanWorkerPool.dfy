/**
 The barrier the pointer scan runs each level on: `Run` posts a task, wakes the workers and sleeps
 until the last of them has finished it. The protocol is a state machine whose steps are the critical
 sections of the mutex and the pieces of code between them; a thread blocked on a condition variable
 is asleep until somebody notifies it, or until it wakes for no reason at all.
 */
module ScanWorkerPool {
  import opened Machine

  /** Where the thread that owns the pool is. `Posted` and `StopPosted` have not yet called notify. */
  datatype Owner = Idle | Posted | Checking | Asleep | StopPosted | Joining | Joined

  datatype Phase = AtWait | Sleeping | InTask(task: nat) | Finishing | Exited

  /** `taken` counts the generations a worker has seen; the program keeps it modulo 2^64 in `seen`. */
  datatype Worker = Worker(phase: Phase, seen: u64, taken: nat, executed: seq<nat>)

  datatype State = State(
    owner: Owner, task: nat, generation: u64, pending: nat, stop: bool, runs: nat, workers: seq<Worker>)

  datatype Step =
    | Post | Notify | CheckDone | OwnerWakes | Shutdown | NotifyStop | Join
    | CheckTask(w: nat) | WorkerWakes(w: nat) | Execute(w: nat) | Finish(w: nat)

  /** A 64-bit counter bumped by one, and bumped `n` times from zero. */
  function Next(g: u64): u64 { if g + 1 == U64_LIMIT then 0 else g + 1 }
  function Wrap(n: nat): u64 { if n == 0 then 0 else Next(Wrap(n - 1)) }

  function Wake(w: Worker): Worker {
    if w.phase == Sleeping then w.(phase := AtWait) else w
  }

  function WakeAll(ws: seq<Worker>): (r: seq<Worker>)
    ensures |r| == |ws| && forall i :: 0 <= i < |ws| ==> r[i] == Wake(ws[i])
  {
    seq(|ws|, i requires 0 <= i < |ws| => Wake(ws[i]))
  }

  predicate Enabled(s: State, step: Step) {
    match step
    case Post => s.owner == Idle
    case Notify => s.owner == Posted
    case CheckDone => s.owner == Checking
    case OwnerWakes => s.owner == Asleep
    case Shutdown => s.owner == Idle
    case NotifyStop => s.owner == StopPosted
    case Join => s.owner == Joining && forall i :: 0 <= i < |s.workers| ==> s.workers[i].phase == Exited
    case CheckTask(w) => w < |s.workers| && s.workers[w].phase == AtWait
    case WorkerWakes(w) => w < |s.workers| && s.workers[w].phase == Sleeping
    case Execute(w) => w < |s.workers| && s.workers[w].phase.InTask?
    case Finish(w) => w < |s.workers| && s.workers[w].phase == Finishing
  }

  function Apply(s: State, step: Step): State
    requires Enabled(s, step)
  {
    match step
    case Post =>
      s.(owner := Posted, task := s.runs + 1, pending := |s.workers|,
         generation := Next(s.generation), runs := s.runs + 1)
    case Notify => s.(owner := Checking, workers := WakeAll(s.workers))
    case CheckDone => s.(owner := if s.pending == 0 then Idle else Asleep)
    case OwnerWakes => s.(owner := Checking)
    case Shutdown => s.(owner := StopPosted, stop := true)
    case NotifyStop => s.(owner := Joining, workers := WakeAll(s.workers))
    case Join => s.(owner := Joined)
    case CheckTask(w) =>
      var me := s.workers[w];
      var after :=
        if s.stop then me.(phase := Exited)
        else if s.generation != me.seen then
          me.(phase := InTask(s.task), seen := s.generation, taken := me.taken + 1)
        else me.(phase := Sleeping);
      s.(workers := s.workers[w := after])
    case WorkerWakes(w) => s.(workers := s.workers[w := s.workers[w].(phase := AtWait)])
    case Execute(w) =>
      var me := s.workers[w];
      s.(workers := s.workers[w := me.(phase := Finishing, executed := me.executed + [me.phase.task])])
    case Finish(w) =>
      var ws := s.workers[w := s.workers[w].(phase := AtWait)];
      if s.pending == 0 then s.(workers := ws)
      else if s.pending == 1 then
        s.(workers := ws, pending := 0, owner := if s.owner == Asleep then Checking else s.owner)
      else s.(workers := ws, pending := s.pending - 1)
  }

  function Start(count: nat): State {
    State(Idle, 0, 0, 0, false, 0, seq(count, _ => Worker(AtWait, 0, 0, [])))
  }

  /** A run of the pool: every state is reached from the one before by some thread's step. */
  ghost predicate IsRun(count: nat, states: seq<State>, steps: seq<Step>) {
    && |states| == |steps| + 1
    && states[0] == Start(count)
    && forall i :: 0 <= i < |steps| ==> Enabled(states[i], steps[i]) && states[i + 1] == Apply(states[i], steps[i])
  }

  /** The tasks of the first `n` calls of `Run`, in order. */
  function Tasks(n: nat): seq<nat> { seq(n, i => i + 1) }

  /** A worker that still owes the current call its share of work. */
  predicate Owes(w: Worker, runs: nat) {
    w.taken < runs || w.phase.InTask? || w.phase == Finishing
  }

  ghost function Owing(ws: seq<Worker>, runs: nat): nat {
    if ws == [] then 0 else (if Owes(ws[0], runs) then 1 else 0) + Owing(ws[1..], runs)
  }

  predicate Running(o: Owner) { o == Posted || o == Checking || o == Asleep }

  ghost predicate WorkerInv(w: Worker, s: State) {
    && w.taken <= s.runs <= w.taken + 1
    && w.seen == Wrap(w.taken)
    && (w.phase.InTask? ==> 0 < w.taken == s.runs == w.phase.task)
    && (w.phase == Finishing ==> w.taken == s.runs)
    && w.executed == Tasks(if w.phase.InTask? then w.taken - 1 else w.taken)
    && (w.phase == Exited ==> s.stop)
    && (w.phase == Sleeping && w.taken < s.runs ==> s.owner == Posted)
    && (w.phase == Sleeping && s.stop ==> s.owner == StopPosted)
  }

  ghost predicate Inv(s: State) {
    && s.task == s.runs
    && s.generation == Wrap(s.runs)
    && s.pending == Owing(s.workers, s.runs)
    && (s.pending > 0 ==> Running(s.owner))
    && (s.owner == Asleep ==> s.pending > 0)
    && (s.stop <==> s.owner == StopPosted || s.owner == Joining || s.owner == Joined)
    && (s.owner == Joined ==> forall i :: 0 <= i < |s.workers| ==> s.workers[i].phase == Exited)
    && forall i :: 0 <= i < |s.workers| ==> WorkerInv(s.workers[i], s)
  }

  lemma {:induction false} OwingUpdate(ws: seq<Worker>, i: nat, w: Worker, runs: nat)
    requires i < |ws|
    ensures Owing(ws[i := w], runs) + (if Owes(ws[i], runs) then 1 else 0)
         == Owing(ws, runs) + (if Owes(w, runs) then 1 else 0)
  {
    if i == 0 {
      assert ws[i := w][1..] == ws[1..];
    } else {
      assert ws[i := w][1..] == ws[1..][i - 1 := w];
      OwingUpdate(ws[1..], i - 1, w, runs);
    }
  }

  lemma {:induction false} OwingWakeAll(ws: seq<Worker>, runs: nat)
    ensures Owing(WakeAll(ws), runs) == Owing(ws, runs)
  {
    if ws != [] {
      assert WakeAll(ws)[1..] == WakeAll(ws[1..]);
      OwingWakeAll(ws[1..], runs);
    }
  }

  lemma {:induction false} OwingUniform(ws: seq<Worker>, runs: nat, all: bool)
    requires forall i :: 0 <= i < |ws| ==> Owes(ws[i], runs) == all
    ensures Owing(ws, runs) == if all then |ws| else 0
  {
    if ws != [] { OwingUniform(ws[1..], runs, all); }
  }

  lemma {:induction false} NobodyOwes(ws: seq<Worker>, runs: nat)
    ensures Owing(ws, runs) == 0 <==> forall i :: 0 <= i < |ws| ==> !Owes(ws[i], runs)
  {
    if ws != [] {
      NobodyOwes(ws[1..], runs);
      assert forall i :: 0 < i < |ws| ==> ws[i] == ws[1..][i - 1];
      assert forall i :: 0 <= i < |ws| - 1 ==> ws[1..][i] == ws[i + 1];
    }
  }

  lemma StartInv(count: nat)
    ensures Inv(Start(count))
  {
    OwingUniform(Start(count).workers, 0, false);
    assert Tasks(0) == [];
  }

  lemma PostInv(s: State)
    requires Inv(s) && s.owner == Idle
    ensures Inv(Apply(s, Post))
  {
    var t := Apply(s, Post);
    NobodyOwes(s.workers, s.runs);
    forall i | 0 <= i < |t.workers| ensures WorkerInv(t.workers[i], t) && Owes(t.workers[i], t.runs) {
      assert WorkerInv(s.workers[i], s) && !Owes(s.workers[i], s.runs);
    }
    OwingUniform(s.workers, s.runs + 1, true);
  }

  lemma OwnerStepInv(s: State, step: Step)
    requires Inv(s) && Enabled(s, step)
    requires step.Notify? || step.CheckDone? || step.OwnerWakes? || step.Shutdown? || step.NotifyStop? || step.Join?
    ensures Inv(Apply(s, step))
  {
    var t := Apply(s, step);
    OwingWakeAll(s.workers, s.runs);
    forall i | 0 <= i < |t.workers| ensures WorkerInv(t.workers[i], t) {
      assert WorkerInv(s.workers[i], s);
    }
  }

  lemma WorkerStepInv(s: State, step: Step)
    requires Inv(s) && Enabled(s, step)
    requires step.CheckTask? || step.WorkerWakes? || step.Execute? || step.Finish?
    ensures Inv(Apply(s, step))
  {
    var t := Apply(s, step);
    var me, after := s.workers[step.w], t.workers[step.w];
    assert t.workers == s.workers[step.w := after];
    OwingUpdate(s.workers, step.w, after, s.runs);
    NobodyOwes(s.workers, s.runs);
    WorkerStepSelf(s, step);
    WorkerStepOthers(s, step);
  }

  /** A worker's step leaves what holds of the others. */
  lemma WorkerStepOthers(s: State, step: Step)
    requires Inv(s) && Enabled(s, step)
    requires step.CheckTask? || step.WorkerWakes? || step.Execute? || step.Finish?
    ensures |Apply(s, step).workers| == |s.workers|
    ensures forall i :: 0 <= i < |s.workers| && i != step.w ==> WorkerInv(Apply(s, step).workers[i], Apply(s, step))
  {
    var t := Apply(s, step);
    forall i | 0 <= i < |s.workers| && i != step.w ensures WorkerInv(t.workers[i], t) {
      assert WorkerInv(s.workers[i], s);
    }
  }

  lemma WorkerStepSelf(s: State, step: Step)
    requires Inv(s) && Enabled(s, step)
    requires step.CheckTask? || step.WorkerWakes? || step.Execute? || step.Finish?
    ensures WorkerInv(Apply(s, step).workers[step.w], Apply(s, step))
  {
    var me := s.workers[step.w];
    assert WorkerInv(me, s);
    if step.Execute? {
      assert Tasks(me.taken) == Tasks(me.taken - 1) + [me.taken];
    }
  }

  lemma {:induction false} RunInv(count: nat, states: seq<State>, steps: seq<Step>, k: nat)
    requires IsRun(count, states, steps) && k < |states|
    ensures Inv(states[k]) && |states[k].workers| == count
  {
    if k == 0 {
      StartInv(count);
    } else {
      RunInv(count, states, steps, k - 1);
      var s, step := states[k - 1], steps[k - 1];
      assert Enabled(s, step) && states[k] == Apply(s, step);
      if step.CheckTask? || step.WorkerWakes? || step.Execute? || step.Finish? {
        WorkerStepInv(s, step);
      } else if step.Post? {
        PostInv(s);
      } else {
        OwnerStepInv(s, step);
      }
    }
  }

  /**
   The barrier: whenever no call of `Run` is in progress, every worker has executed the task of each
   call made so far exactly once and in order, and none is inside a task.
   */
  lemma RunIsABarrier(count: nat, states: seq<State>, steps: seq<Step>, k: nat, i: nat)
    requires IsRun(count, states, steps) && k < |states| && i < count
    requires !Running(states[k].owner)
    ensures |states[k].workers| == count && states[k].workers[i].executed == Tasks(states[k].runs)
    ensures !states[k].workers[i].phase.InTask? && states[k].workers[i].phase != Finishing
  {
    RunInv(count, states, steps, k);
    NobodyOwes(states[k].workers, states[k].runs);
    assert WorkerInv(states[k].workers[i], states[k]) && !Owes(states[k].workers[i], states[k].runs);
  }

  /** A worker only ever executes the task of the call in progress, and the countdown never underflows. */
  lemma TaskIsCurrent(count: nat, states: seq<State>, steps: seq<Step>, k: nat)
    requires IsRun(count, states, steps) && k < |steps|
    ensures steps[k].Execute? ==>
      && Running(states[k].owner) && states[k].runs > 0
      && states[k].workers[steps[k].w].phase.task == states[k].runs
      && states[k].workers[steps[k].w].executed == Tasks(states[k].runs - 1)
    ensures steps[k].Finish? ==> states[k].pending > 0
  {
    RunInv(count, states, steps, k);
    var s, step := states[k], steps[k];
    assert Enabled(s, step);
    if step.Execute? || step.Finish? {
      assert WorkerInv(s.workers[step.w], s) && Owes(s.workers[step.w], s.runs);
      NobodyOwes(s.workers, s.runs);
    }
  }

  /** The destructor returns when no worker is left. */
  lemma JoinedMeansGone(count: nat, states: seq<State>, steps: seq<Step>, k: nat, i: nat)
    requires IsRun(count, states, steps) && k < |states| && i < count && states[k].owner == Joined
    ensures |states[k].workers| == count && states[k].workers[i].phase == Exited
  {
    RunInv(count, states, steps, k);
  }

  /** The counter is the number of calls, kept in 64 bits. */
  lemma {:induction false} WrapIs(n: nat)
    ensures Wrap(n) == n % 0x1_0000_0000_0000_0000
  {
    if n > 0 { WrapIs(n - 1); }
  }

  predicate Spurious(step: Step) { step.OwnerWakes? || step.WorkerWakes? }

  /** While the owner sleeps, a worker that still owes the call can move. */
  lemma OwingWorkerMoves(s: State, i: nat)
    requires Inv(s) && i < |s.workers| && Owes(s.workers[i], s.runs) && s.owner == Asleep
    ensures Enabled(s, CheckTask(i)) || Enabled(s, Execute(i)) || Enabled(s, Finish(i))
  {
    hide Wrap, Tasks;
    assert WorkerInv(s.workers[i], s);
  }

  /** During the shutdown a worker that has not left yet can move. */
  lemma StoppedWorkerMoves(s: State, i: nat)
    requires Inv(s) && i < |s.workers| && s.owner == Joining && s.workers[i].phase != Exited
    ensures Enabled(s, CheckTask(i))
  {
    hide Wrap, Tasks;
    NobodyOwes(s.workers, s.runs);
    assert WorkerInv(s.workers[i], s) && !Owes(s.workers[i], s.runs);
  }

  /** No wake-up is lost: while a call or the shutdown is under way some thread can move on its own. */
  lemma NeverStuck(count: nat, states: seq<State>, steps: seq<Step>, k: nat)
    requires IsRun(count, states, steps) && k < |states|
    requires states[k].owner != Idle && states[k].owner != Joined
    ensures exists step :: Enabled(states[k], step) && !Spurious(step)
  {
    hide IsRun, WorkerInv, Owes;
    var s := states[k];
    RunInv(count, states, steps, k);
    match s.owner
    case Posted => assert Enabled(s, Notify);
    case Checking => assert Enabled(s, CheckDone);
    case StopPosted => assert Enabled(s, NotifyStop);
    case Asleep =>
      NobodyOwes(s.workers, s.runs);
      var i :| 0 <= i < |s.workers| && Owes(s.workers[i], s.runs);
      OwingWorkerMoves(s, i);
    case Joining =>
      if forall i :: 0 <= i < |s.workers| ==> s.workers[i].phase == Exited {
        assert Enabled(s, Join);
      } else {
        var i :| 0 <= i < |s.workers| && s.workers[i].phase != Exited;
        StoppedWorkerMoves(s, i);
      }
  }

  function Weight(w: Worker, runs: nat): nat {
    match w.phase
    case AtWait => if w.taken < runs then 5 else 1
    case Sleeping => if w.taken < runs then 6 else 0
    case InTask(_) => 4
    case Finishing => 3
    case Exited => 0
  }

  function Weights(ws: seq<Worker>, runs: nat): nat {
    if ws == [] then 0 else Weight(ws[0], runs) + Weights(ws[1..], runs)
  }

  function OwnerWeight(o: Owner, count: nat): nat {
    match o
    case Idle => 0
    case Posted => count + 3
    case Checking => 2
    case Asleep => 1
    case StopPosted => count + 3
    case Joining => 2
    case Joined => 0
  }

  function Potential(s: State): nat { OwnerWeight(s.owner, |s.workers|) + Weights(s.workers, s.runs) }

  lemma {:induction false} WeightsUpdate(ws: seq<Worker>, i: nat, w: Worker, runs: nat)
    requires i < |ws|
    ensures Weights(ws[i := w], runs) + Weight(ws[i], runs) == Weights(ws, runs) + Weight(w, runs)
  {
    if i == 0 {
      assert ws[i := w][1..] == ws[1..];
    } else {
      assert ws[i := w][1..] == ws[1..][i - 1 := w];
      WeightsUpdate(ws[1..], i - 1, w, runs);
    }
  }

  lemma {:induction false} WeightsWakeAll(ws: seq<Worker>, runs: nat)
    ensures Weights(WakeAll(ws), runs) <= Weights(ws, runs) + |ws|
  {
    if ws != [] {
      assert WakeAll(ws)[1..] == WakeAll(ws[1..]);
      WeightsWakeAll(ws[1..], runs);
    }
  }

  /**
   Every step that is neither a new call, the start of the shutdown nor a spurious wake-up brings the
   pool closer to rest, so `Run` and the destructor return under every scheduler that does not wake
   threads for nothing for ever.
   */
  lemma StepsRunOut(count: nat, states: seq<State>, steps: seq<Step>, k: nat)
    requires IsRun(count, states, steps) && k < |steps|
    requires !Spurious(steps[k]) && !steps[k].Post? && !steps[k].Shutdown?
    ensures Potential(states[k + 1]) < Potential(states[k])
  {
    hide Inv, Apply, Enabled, Potential;
    RunInv(count, states, steps, k);
    StepLowers(states[k], steps[k]);
  }

  lemma StepLowers(s: State, step: Step)
    requires Inv(s) && Enabled(s, step) && !Spurious(step) && !step.Post? && !step.Shutdown?
    ensures Potential(Apply(s, step)) < Potential(s)
  {
    hide Owing, Tasks, Weights;
    if step.Notify? || step.NotifyStop? {
      WeightsWakeAll(s.workers, s.runs);
    } else if step.CheckTask? || step.Execute? || step.Finish? {
      assert WorkerInv(s.workers[step.w], s);
      WeightsUpdate(s.workers, step.w, Apply(s, step).workers[step.w], s.runs);
    }
  }
}
