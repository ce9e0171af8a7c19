/**
 Worker threads that share one atomic cursor over a list of work items, append what they find to
 vectors of their own and raise one stop flag. The value scanner, the pointer scan, the next scan and
 the chain verifier all have this shape; they differ in what an item produces and in how many items
 one `fetch_add` claims.
 */
module ClaimQueue {

  /** What working through an item does to shared state: one counted match, or a fatal read error. */
  datatype Event<+T> = Emit(value: T) | Fail

  /** `todo` is what is left of the claimed items, `local` the thread's own result vector. */
  datatype Worker<+T> = Worker(todo: seq<Event<T>>, local: seq<T>, exited: bool)

  function Emits<T>(s: seq<T>): (r: seq<Event<T>>)
    ensures |r| == |s| && forall i :: 0 <= i < |s| ==> r[i] == Emit(s[i])
  {
    seq(|s|, i requires 0 <= i < |s| => Emit(s[i]))
  }

  function Flat<T>(items: seq<seq<T>>): seq<T> {
    if items == [] then [] else items[0] + Flat(items[1..])
  }

  /** The per-thread vectors, appended in thread order. */
  function Gather<T>(ws: seq<Worker<T>>): seq<T> {
    if ws == [] then [] else ws[0].local + Gather(ws[1..])
  }

  ghost function Count<T>(s: seq<Event<T>>, e: Event<T>): nat { multiset(s)[e] }

  /** How many events equal to `e` the threads have recorded or still hold. */
  ghost function Held<T>(ws: seq<Worker<T>>, e: Event<T>): nat {
    if ws == [] then 0 else Count(Emits(ws[0].local), e) + Count(ws[0].todo, e) + Held(ws[1..], e)
  }

  ghost function Found<T>(ws: seq<Worker<T>>): nat {
    if ws == [] then 0 else |ws[0].local| + Found(ws[1..])
  }

  /** How many events of a list are matches. */
  function Emitted<T>(s: seq<Event<T>>): (n: nat)
    ensures n <= |s|
  {
    if s == [] then 0 else (if s[0].Emit? then 1 else 0) + Emitted(s[1..])
  }

  lemma {:induction false} EmittedSplit<T>(a: seq<Event<T>>, b: seq<Event<T>>)
    ensures Emitted(a + b) == Emitted(a) + Emitted(b)
  {
    if a == [] {
      assert a + b == b;
    } else {
      assert (a + b)[1..] == a[1..] + b;
      EmittedSplit(a[1..], b);
    }
  }

  lemma {:induction false} EmittedAll<T>(s: seq<T>)
    ensures Emitted(Emits(s)) == |s|
  {
    if s != [] {
      assert Emits(s)[1..] == Emits(s[1..]);
      EmittedAll(s[1..]);
    }
  }

  ghost function EmitTodo<T>(ws: seq<Worker<T>>): nat {
    if ws == [] then 0 else Emitted(ws[0].todo) + EmitTodo(ws[1..])
  }

  ghost function Todo<T>(ws: seq<Worker<T>>): nat {
    if ws == [] then 0 else |ws[0].todo| + Todo(ws[1..])
  }

  ghost function Live<T>(ws: seq<Worker<T>>): nat {
    if ws == [] then 0 else (if ws[0].exited then 0 else 1) + Live(ws[1..])
  }

  /** Occurrences of `e`: recorded, still held by a thread, or not yet claimed. */
  ghost function Ledger<T>(items: seq<seq<Event<T>>>, next: nat, ws: seq<Worker<T>>, e: Event<T>): nat
    requires next <= |items|
  {
    Held(ws, e) + Count(Flat(items[next..]), e)
  }

  ghost function Size<T>(items: seq<seq<Event<T>>>, next: nat, ws: seq<Worker<T>>): nat
    requires next <= |items|
  {
    Found(ws) + EmitTodo(ws) + Emitted(Flat(items[next..]))
  }

  lemma {:induction false} FlatConcat<T>(a: seq<seq<T>>, b: seq<seq<T>>)
    ensures Flat(a + b) == Flat(a) + Flat(b)
  {
    if a == [] {
      assert a + b == b;
    } else {
      assert (a + b)[1..] == a[1..] + b;
      FlatConcat(a[1..], b);
    }
  }

  lemma {:induction false} EmitsCount<T>(s: seq<T>, x: T)
    ensures multiset(Emits(s))[Emit(x)] == multiset(s)[x]
    ensures Fail !in multiset(Emits(s))
  {
    if s != [] {
      var head, tail := [s[0]], s[1..];
      EmitsCount(tail, x);
      assert s == head + tail;
      EmitsSplit(head, tail);
      assert Emits(head) == [Emit(s[0])];
      assert multiset(s)[x] == multiset(head)[x] + multiset(tail)[x];
      assert multiset(Emits(s))[Emit(x)] == multiset(Emits(head))[Emit(x)] + multiset(Emits(tail))[Emit(x)];
    }
  }

  lemma EmitsSplit<T>(a: seq<T>, b: seq<T>)
    ensures Emits(a + b) == Emits(a) + Emits(b)
  {
  }

  /** Counting emitted events is counting the values. */
  lemma EmitsInjective<T(!new)>(a: seq<T>, b: seq<T>)
    requires multiset(Emits(a)) == multiset(Emits(b))
    ensures multiset(a) == multiset(b)
  {
    forall x: T ensures multiset(a)[x] == multiset(b)[x] {
      EmitsCount(a, x);
      EmitsCount(b, x);
    }
  }

  lemma {:induction false} UpdateWorker<T>(ws: seq<Worker<T>>, i: nat, w: Worker<T>)
    requires i < |ws|
    ensures Todo(ws[i := w]) + |ws[i].todo| == Todo(ws) + |w.todo|
    ensures EmitTodo(ws[i := w]) + Emitted(ws[i].todo) == EmitTodo(ws) + Emitted(w.todo)
    ensures Found(ws[i := w]) + |ws[i].local| == Found(ws) + |w.local|
    ensures Live(ws[i := w]) + (if ws[i].exited then 0 else 1) == Live(ws) + (if w.exited then 0 else 1)
  {
    if i == 0 {
      assert ws[i := w][1..] == ws[1..];
    } else {
      assert ws[i := w][1..] == ws[1..][i - 1 := w];
      UpdateWorker(ws[1..], i - 1, w);
    }
  }

  lemma {:induction false} UpdateHeld<T>(ws: seq<Worker<T>>, i: nat, w: Worker<T>, e: Event<T>)
    requires i < |ws|
    ensures Held(ws[i := w], e) + Count(Emits(ws[i].local), e) + Count(ws[i].todo, e)
         == Held(ws, e) + Count(Emits(w.local), e) + Count(w.todo, e)
  {
    if i == 0 {
      assert ws[i := w][1..] == ws[1..];
    } else {
      assert ws[i := w][1..] == ws[1..][i - 1 := w];
      UpdateHeld(ws[1..], i - 1, w, e);
    }
  }

  lemma {:induction false} HeldByOne<T>(ws: seq<Worker<T>>, i: nat, e: Event<T>)
    requires i < |ws|
    ensures Count(ws[i].todo, e) <= Held(ws, e) && Emitted(ws[i].todo) <= EmitTodo(ws)
  {
    if i > 0 { HeldByOne(ws[1..], i - 1, e); }
  }

  lemma {:induction false} FreshWorkers<T>(ws: seq<Worker<T>>, e: Event<T>)
    requires forall w :: w in ws ==> w == Worker([], [], false)
    ensures EmitTodo(ws) == Found(ws) == Held(ws, e) == 0
  {
    if ws != [] {
      assert ws[0] in ws && forall w :: w in ws[1..] ==> w in ws;
      FreshWorkers(ws[1..], e);
    }
  }

  /** Once every thread has left with nothing in hand, the result vectors hold all there is. */
  lemma {:induction false} HeldIsGathered<T>(ws: seq<Worker<T>>, e: Event<T>)
    requires forall i :: 0 <= i < |ws| ==> ws[i].todo == []
    ensures Held(ws, e) == Count(Emits(Gather(ws)), e) && EmitTodo(ws) == 0
  {
    if ws != [] {
      HeldIsGathered(ws[1..], e);
      assert Emits(Gather(ws)) == Emits(ws[0].local) + Emits(Gather(ws[1..]));
    }
  }

  lemma {:induction false} FoundIsGathered<T>(ws: seq<Worker<T>>)
    ensures Found(ws) == |Gather(ws)|
  {
    if ws != [] { FoundIsGathered(ws[1..]); }
  }

  /**
   Nothing is invented: no event occurs more often in the books than in the items. While no thread has
   been told to stop (`exact`) nothing is lost either.
   */
  ghost predicate Conserved<T(!new)>(items: seq<seq<Event<T>>>, next: nat, ws: seq<Worker<T>>, exact: bool) {
    && next <= |items|
    && (forall e :: Ledger(items, next, ws, e) <= Count(Flat(items), e))
    && Size(items, next, ws) <= Emitted(Flat(items))
    && (exact ==>
      && (forall e :: Ledger(items, next, ws, e) == Count(Flat(items), e))
      && Size(items, next, ws) == Emitted(Flat(items)))
  }

  ghost function Measure<T>(items: seq<seq<Event<T>>>, next: nat, ws: seq<Worker<T>>): nat
    requires next <= |items|
  {
    Todo(ws) + |Flat(items[next..])| + (|items| - next) + Live(ws)
  }

  lemma StartConserved<T(!new)>(items: seq<seq<Event<T>>>, ws: seq<Worker<T>>)
    requires forall w :: w in ws ==> w == Worker([], [], false)
    ensures Conserved(items, 0, ws, true) && Found(ws) == 0
  {
    assert items[0..] == items;
    forall e ensures Ledger(items, 0, ws, e) == Count(Flat(items), e) {
      FreshWorkers(ws, e);
    }
    FreshWorkers(ws, Fail);
  }

  /** A claim moves events from the unclaimed items to a thread. */
  lemma ClaimConserves<T(!new)>(items: seq<seq<Event<T>>>, next: nat, end: nat, ws: seq<Worker<T>>, w: nat,
                                exact: bool)
    requires next < end <= |items| && w < |ws| && ws[w].todo == []
    requires Conserved(items, next, ws, exact)
    ensures var after := ws[w := Worker(Flat(items[next..end]), ws[w].local, ws[w].exited)];
      && Conserved(items, end, after, exact)
      && Found(after) == Found(ws) && Measure(items, end, after) < Measure(items, next, ws)
  {
    assert items[next..] == items[next..end] + items[end..];
    FlatConcat(items[next..end], items[end..]);
    EmittedSplit(Flat(items[next..end]), Flat(items[end..]));
    var worker := Worker(Flat(items[next..end]), ws[w].local, ws[w].exited);
    UpdateWorker(ws, w, worker);
    forall e ensures Ledger(items, end, ws[w := worker], e) == Ledger(items, next, ws, e) {
      UpdateHeld(ws, w, worker, e);
    }
  }

  /** Counting a match moves it from the thread's work to its result vector. */
  lemma EmitConserves<T(!new)>(items: seq<seq<Event<T>>>, next: nat, ws: seq<Worker<T>>, w: nat, exact: bool)
    requires w < |ws| && ws[w].todo != [] && ws[w].todo[0].Emit?
    requires Conserved(items, next, ws, exact)
    ensures var after := ws[w := Worker(ws[w].todo[1..], ws[w].local + [ws[w].todo[0].value], ws[w].exited)];
      && Conserved(items, next, after, exact)
      && Found(after) == Found(ws) + 1 && Measure(items, next, after) < Measure(items, next, ws)
  {
    var event := ws[w].todo[0];
    var worker := Worker(ws[w].todo[1..], ws[w].local + [event.value], ws[w].exited);
    assert ws[w].todo == [event] + worker.todo;
    assert Emits(worker.local) == Emits(ws[w].local) + [event];
    UpdateWorker(ws, w, worker);
    forall e ensures Ledger(items, next, ws[w := worker], e) == Ledger(items, next, ws, e) {
      UpdateHeld(ws, w, worker, e);
    }
  }

  /** A thread that leaves drops the work it still holds, and nothing else. */
  lemma ExitDrops<T(!new)>(items: seq<seq<Event<T>>>, next: nat, ws: seq<Worker<T>>, w: nat, exact: bool)
    requires w < |ws| && !ws[w].exited
    requires Conserved(items, next, ws, exact)
    ensures var after := ws[w := Worker([], ws[w].local, true)];
      && Conserved(items, next, after, exact && ws[w].todo == [])
      && Found(after) == Found(ws) && Measure(items, next, after) < Measure(items, next, ws)
  {
    var worker := Worker([], ws[w].local, true);
    UpdateWorker(ws, w, worker);
    forall e ensures Ledger(items, next, ws[w := worker], e) + Count(ws[w].todo, e) == Ledger(items, next, ws, e) {
      UpdateHeld(ws, w, worker, e);
    }
  }

  /** What a thread is about to do is one of the items' events, and it has not been counted yet. */
  lemma HeadIsPending<T(!new)>(items: seq<seq<Event<T>>>, next: nat, ws: seq<Worker<T>>, w: nat, exact: bool)
    requires w < |ws| && ws[w].todo != []
    requires Conserved(items, next, ws, exact)
    ensures ws[w].todo[0] in Flat(items) && (ws[w].todo[0].Emit? ==> Found(ws) < Emitted(Flat(items)))
  {
    var event := ws[w].todo[0];
    HeldByOne(ws, w, event);
    assert Ledger(items, next, ws, event) <= Count(Flat(items), event);
  }

  lemma EndConserved<T(!new)>(items: seq<seq<Event<T>>>, ws: seq<Worker<T>>)
    requires Conserved(items, |items|, ws, true)
    requires forall i :: 0 <= i < |ws| ==> ws[i].todo == []
    ensures multiset(Emits(Gather(ws))) == multiset(Flat(items))
    ensures Found(ws) == |Gather(ws)| == |Flat(items)|
    ensures Emitted(Flat(items)) == |Flat(items)|
  {
    FoundIsGathered(ws);
    forall e ensures Count(Emits(Gather(ws)), e) == Count(Flat(items), e) {
      HeldIsGathered(ws, e);
      assert Ledger(items, |items|, ws, e) == Count(Flat(items), e);
    }
    HeldIsGathered(ws, Fail);
    assert forall e :: multiset(Emits(Gather(ws)))[e] == Count(Emits(Gather(ws)), e);
  }

  /**
   Runs `threads` workers over `items` under an arbitrary scheduler: each turn of the loop lets any
   live worker take one atomic step, and a claim takes any positive number of items. The match that
   would exceed `cap` and every fatal event raise the stop flag, which a worker may notice at any
   later step.
   */
  method RunWorkers<T(!new)>(items: seq<seq<Event<T>>>, cap: nat, threads: nat)
    returns (locals: seq<Worker<T>>, total: nat, failed: bool, overflow: bool)
    requires threads > 0
    ensures |locals| == threads
    ensures !failed && !overflow ==>
      && multiset(Emits(Gather(locals))) == multiset(Flat(items))
      && total == |Gather(locals)| == |Flat(items)| == Emitted(Flat(items)) <= cap
    ensures failed ==> Fail in Flat(items)
    ensures overflow ==> Emitted(Flat(items)) > cap
  {
    hide Ledger, Size, Held, Found, Gather, Flat, Count, Emitted;
    var next, stop := 0, false;
    total, failed, overflow := 0, false, false;
    locals := seq(threads, _ => Worker([], [], false));
    StartConserved(items, locals);
    while exists w :: 0 <= w < threads && !locals[w].exited
      invariant |locals| == threads
      invariant stop <==> failed || overflow
      invariant Conserved(items, next, locals, !stop)
      invariant !overflow ==> total == Found(locals) <= cap
      invariant failed ==> Fail in Flat(items)
      invariant overflow ==> Emitted(Flat(items)) > cap
      invariant forall i :: 0 <= i < threads && locals[i].exited ==>
        locals[i].todo == [] && (stop || next == |items|)
      decreases Measure(items, next, locals)
    {
      var w :| 0 <= w < threads && !locals[w].exited;
      var me := locals[w];
      var noticed: bool := *;
      if (stop && noticed) || (me.todo == [] && next == |items|) {
        ExitDrops(items, next, locals, w, !stop);
        locals := locals[w := Worker([], me.local, true)];
      } else if me.todo == [] {
        var span: nat :| 1 <= span;
        var end := if next + span < |items| then next + span else |items|;
        ClaimConserves(items, next, end, locals, w, !stop);
        locals, next := locals[w := Worker(Flat(items[next..end]), me.local, me.exited)], end;
      } else {
        HeadIsPending(items, next, locals, w, !stop);
        if me.todo[0].Fail? {
          ExitDrops(items, next, locals, w, !stop);
          locals := locals[w := Worker([], me.local, true)];
          failed, stop := true, true;
        } else if total >= cap {
          ExitDrops(items, next, locals, w, !stop);
          locals := locals[w := Worker([], me.local, true)];
          total, overflow, stop := total + 1, true, true;
        } else {
          EmitConserves(items, next, locals, w, !stop);
          locals := locals[w := Worker(me.todo[1..], me.local + [me.todo[0].value], me.exited)];
          total := total + 1;
        }
      }
    }
    if !stop {
      assert locals[0].exited;
      EndConserved(items, locals);
    }
  }
}
