/** What every interleaving of accept thread, workers and shutdown keeps, and what follows for whole runs. */
module PipelineResults {
  import opened Bytes
  import opened WorkQueue
  import opened Pipeline

  // ---- The accept thread ----

  lemma RejectPlaces(maxClients: nat, st: State, t: Token)
    requires Placed(st, t) && st.acceptor.Rejecting?
    ensures Placed(DoAcceptor(maxClients, st, Reject), t)
  {
    hide Count;
    CloseCount(st.closed, st.acceptor.t, t);
  }

  lemma EnqueuePlaces(maxClients: nat, st: State, t: Token)
    requires Placed(st, t) && st.acceptor.Counted?
    ensures Placed(DoAcceptor(maxClients, st, Enqueue), t)
  {
    hide Count;
    if st.queue.stopped {
      CloseCount(st.closed, st.acceptor.t, t);
    } else {
      CloseCount(st.queue.items, st.acceptor.t, t);
    }
  }

  lemma NotifyOnePlaces(maxClients: nat, st: State, w: nat, t: Token)
    requires Placed(st, t) && AcceptorEnabled(st, NotifyOne(w))
    ensures Placed(DoAcceptor(maxClients, st, NotifyOne(w)), t)
  {
    if Is(st, w, Sleeping) {
      CountUpdate(st.workers, w, Woken, Serving(t));
    }
  }

  lemma AcceptorPlaces(maxClients: nat, st: State, a: AcceptorAction, t: Token)
    requires Placed(st, t) && AcceptorEnabled(st, a)
    ensures Placed(DoAcceptor(maxClients, st, a), t)
  {
    match a
    case Reject => RejectPlaces(maxClients, st, t);
    case Enqueue => EnqueuePlaces(maxClients, st, t);
    case NotifyOne(w) => NotifyOnePlaces(maxClients, st, w, t);
    case _ =>
  }

  lemma CloseCount(closed: seq<Token>, x: Token, t: Token)
    ensures Count(closed + [x], t) == if x == t then Count(closed, t) + 1 else Count(closed, t)
  {
    CountAppend(closed, [x], t);
    CountOne(x, t);
  }

  /** Only this thread increments, and it read the counter below the limit before. */
  lemma AcceptorCounter(maxClients: nat, st: State, a: AcceptorAction)
    requires CounterExact(st) && WithinCapacity(maxClients, st) && maxClients < TWO32 && AcceptorEnabled(st, a)
    ensures CounterExact(DoAcceptor(maxClients, st, a)) && WithinCapacity(maxClients, DoAcceptor(maxClients, st, a))
  {
    if a.NotifyOne? && Is(st, a.w, Sleeping) {
      BusyUpdate(st.workers, a.w, Woken);
    }
  }

  lemma AcceptorWakeups(maxClients: nat, st: State, a: AcceptorAction)
    requires NoLostWakeup(st) && StopSeen(st) && AcceptorEnabled(st, a)
    ensures NoLostWakeup(DoAcceptor(maxClients, st, a)) && StopSeen(DoAcceptor(maxClients, st, a))
  {
    if a.NotifyOne? && Is(st, a.w, Sleeping) {
      CountUpdate(st.workers, a.w, Woken, Woken);
    }
  }

  lemma AcceptorOrder(maxClients: nat, st: State, a: AcceptorAction)
    requires InOrder(st) && AcceptOrder(st) && StopSeen(st) && AcceptorEnabled(st, a)
    ensures InOrder(DoAcceptor(maxClients, st, a)) && AcceptOrder(DoAcceptor(maxClients, st, a))
  {
    if a.Enqueue? {
      EnqueueOrder(maxClients, st);
    } else if a.LoadCounter? || a.Increment? {
      assert InHand(st.acceptor, st.acceptor.t);
    }
  }

  lemma EnqueueOrder(maxClients: nat, st: State)
    requires InOrder(st) && AcceptOrder(st) && StopSeen(st) && st.acceptor.Counted?
    ensures InOrder(DoAcceptor(maxClients, st, Enqueue)) && AcceptOrder(DoAcceptor(maxClients, st, Enqueue))
  {
    var t := st.acceptor.t;
    assert InHand(st.acceptor, t);
    assert st.dequeued + st.drained + (st.queue.items + [t]) == (st.dequeued + st.drained + st.queue.items) + [t];
  }

  // ---- A worker ----

  lemma WorkerPlaces(st: State, w: nat, a: WorkerAction, t: Token)
    requires Placed(st, t) && w < |st.workers| && WorkerEnabled(st.workers[w], a)
    ensures Placed(DoWorker(st, w, a), t)
  {
    CountUpdate(st.workers, w, NextPc(st, st.workers[w], a), Serving(t));
    if a.Dequeue? && st.queue.items != [] {
      CountPop(st.queue.items, t);
    }
    if a.CloseSocket? {
      CloseCount(st.closed, st.workers[w].t, t);
    }
  }

  /** A worker that decrements was counted, so the counter is not zero. */
  lemma WorkerCounter(maxClients: nat, st: State, w: nat, a: WorkerAction)
    requires CounterExact(st) && WithinCapacity(maxClients, st) && maxClients < TWO32
    requires w < |st.workers| && WorkerEnabled(st.workers[w], a)
    ensures CounterExact(DoWorker(st, w, a)) && WithinCapacity(maxClients, DoWorker(st, w, a))
    ensures a.Decrement? ==> st.active > 0
  {
    BusyUpdate(st.workers, w, NextPc(st, st.workers[w], a));
  }

  lemma WorkerWakeups(st: State, w: nat, a: WorkerAction)
    requires NoLostWakeup(st) && StopSeen(st) && w < |st.workers| && WorkerEnabled(st.workers[w], a)
    ensures NoLostWakeup(DoWorker(st, w, a)) && StopSeen(DoWorker(st, w, a))
  {
    CountUpdate(st.workers, w, NextPc(st, st.workers[w], a), Woken);
  }

  lemma WorkerOrder(st: State, w: nat, a: WorkerAction)
    requires InOrder(st) && AcceptOrder(st) && StopSeen(st) && w < |st.workers| && WorkerEnabled(st.workers[w], a)
    ensures InOrder(DoWorker(st, w, a)) && AcceptOrder(DoWorker(st, w, a))
  {
    if a.Dequeue? && st.queue.items != [] {
      assert st.queue.items == [st.queue.items[0]] + st.queue.items[1..];
    }
  }

  // ---- Shutdown ----

  lemma MainPlaces(st: State, a: MainAction, t: Token)
    requires Placed(st, t) && StopSeen(st) && MainEnabled(st, a)
    ensures Placed(DoMain(st, a), t)
  {
    CountAppend(st.closed, st.queue.items, t);
    if a.NotifyAll? {
      WakeAllServing(st.workers, t);
    }
  }

  lemma MainRest(maxClients: nat, st: State, a: MainAction)
    requires Inv(maxClients, st) && MainEnabled(st, a)
    ensures var st' := DoMain(st, a);
            && CounterExact(st') && WithinCapacity(maxClients, st')
            && NoLostWakeup(st') && StopSeen(st') && InOrder(st') && AcceptOrder(st')
  {
    if a.NotifyAll? {
      WakeAllBusy(st.workers);
    }
  }

  // ---- Every reachable state ----

  lemma StepInv(maxClients: nat, st: State, a: Action)
    requires Inv(maxClients, st) && Enabled(st, a) && maxClients < TWO32
    ensures Inv(maxClients, Do(maxClients, st, a))
  {
    match a
    case OfAcceptor(x) =>
      forall t: Token { AcceptorPlaces(maxClients, st, x, t); }
      AcceptorCounter(maxClients, st, x);
      AcceptorWakeups(maxClients, st, x);
      AcceptorOrder(maxClients, st, x);
    case OfWorker(w, x) =>
      forall t: Token { WorkerPlaces(st, w, x, t); }
      WorkerCounter(maxClients, st, w, x);
      WorkerWakeups(st, w, x);
      WorkerOrder(st, w, x);
    case OfMain(x) =>
      forall t: Token { MainPlaces(st, x, t); }
      MainRest(maxClients, st, x);
  }

  lemma {:induction false} CountIdle(n: nat, pc: Worker)
    ensures Busy(Idle(n)) == 0
    ensures pc != Entering ==> Count(Idle(n), pc) == 0
  {
    if n > 0 {
      CountIdle(n - 1, pc);
      assert Idle(n)[..|Idle(n)| - 1] == Idle(n - 1);
    }
  }

  lemma InitInv(maxClients: nat, poolSize: nat)
    ensures Inv(maxClients, Init(poolSize))
  {
    forall t: Token ensures Placed(Init(poolSize), t) {
      CountIdle(poolSize, Serving(t));
    }
    CountIdle(poolSize, Sleeping);
  }

  /** In every state that any interleaving reaches: each socket is in one place, the counter is exact up to dropped
      sockets and within capacity, no wakeup is lost, and the queue is first in, first out. */
  lemma {:induction false} RunInv(maxClients: nat, poolSize: nat, acts: seq<Action>)
    requires Run(maxClients, poolSize, acts).At? && maxClients < TWO32
    ensures Inv(maxClients, Run(maxClients, poolSize, acts).st)
  {
    if acts == [] {
      InitInv(maxClients, poolSize);
    } else {
      RunInv(maxClients, poolSize, acts[..|acts| - 1]);
      StepInv(maxClients, Run(maxClients, poolSize, acts[..|acts| - 1]).st, acts[|acts| - 1]);
    }
  }

  // ---- Consequences ----

  /** No socket is ever closed twice or closed while it is queued, held or served; an accepted one that is none of
      these is closed. */
  lemma ClosedExactlyOnce(maxClients: nat, poolSize: nat, acts: seq<Action>, t: Token)
    requires Run(maxClients, poolSize, acts).At? && maxClients < TWO32
    ensures var st := Run(maxClients, poolSize, acts).st;
            && Count(st.closed, t) <= 1
            && (Count(st.closed, t) == 1 <==>
                t < st.next && !InHand(st.acceptor, t) && t !in st.queue.items && Serving(t) !in st.workers)
  {
    var st := Run(maxClients, poolSize, acts).st;
    RunInv(maxClients, poolSize, acts);
    assert Placed(st, t);
    CountPositive(st.queue.items, t);
    CountPositive(st.workers, Serving(t));
  }

  /** No two workers ever serve the same socket. */
  lemma ServedByOneWorker(maxClients: nat, poolSize: nat, acts: seq<Action>, v: nat, w: nat)
    requires Run(maxClients, poolSize, acts).At? && maxClients < TWO32
    requires var ws := Run(maxClients, poolSize, acts).st.workers;
             v < |ws| && w < |ws| && ws[v].Serving? && ws[v] == ws[w]
    ensures v == w
  {
    var st := Run(maxClients, poolSize, acts).st;
    var pc := st.workers[v];
    RunInv(maxClients, poolSize, acts);
    assert Placed(st, pc.t);
    if v != w {
      CountTwice(st.workers, v, w);
    }
  }

  lemma CountTwice<T>(s: seq<T>, i: nat, j: nat)
    requires i < |s| && j < |s| && i != j && s[i] == s[j]
    ensures Count(s, s[i]) >= 2
  {
    var lo, hi := if i < j then i else j, if i < j then j else i;
    var x, a, b := s[i], s[..hi], s[hi..];
    assert s == a + b;
    CountAppend(a, b, x);
    assert a[lo] == x && b[0] == x;
    CountPositive(a, x);
    CountPositive(b, x);
  }

  /** The capacity limit holds although testing and incrementing are separate steps, and until `stop` the counter is
      exactly the number of admitted sockets not yet released. */
  lemma CapacityNeverExceeded(maxClients: nat, poolSize: nat, acts: seq<Action>)
    requires Run(maxClients, poolSize, acts).At? && maxClients < TWO32
    ensures var st := Run(maxClients, poolSize, acts).st;
            && st.active <= maxClients
            && CountedInHand(st) + |st.queue.items| + Busy(st.workers) <= maxClients
            && (!st.queue.stopped ==> st.active == CountedInHand(st) + |st.queue.items| + Busy(st.workers))
  {
    RunInv(maxClients, poolSize, acts);
  }

  /** An accepted socket is admitted if and only if fewer than `maxClients` sockets are counted: those queued, those
      with a worker, and those that `stop` has dropped. Otherwise it is turned away. */
  lemma AdmittedIff(maxClients: nat, poolSize: nat, acts: seq<Action>)
    requires Run(maxClients, poolSize, acts).At? && maxClients < TWO32
    requires Run(maxClients, poolSize, acts).st.acceptor.Holding?
    ensures var st := Run(maxClients, poolSize, acts).st;
            var t, counted := st.acceptor.t, |st.queue.items| + Busy(st.workers) + |st.drained| + |st.refused|;
            Do(maxClients, st, OfAcceptor(LoadCounter)).acceptor ==
            if counted < maxClients then Admitted(t) else Rejecting(t)
  {
    RunInv(maxClients, poolSize, acts);
  }

  /** So with a limit above zero a socket that arrives when nothing is counted gets in, and the limit can be reached. */
  lemma LimitIsReached(maxClients: nat, poolSize: nat, acts: seq<Action>)
    requires Run(maxClients, poolSize, acts).At? && maxClients < TWO32
    requires var st := Run(maxClients, poolSize, acts).st; st.acceptor.Holding? && st.active < maxClients
    ensures var st := Run(maxClients, poolSize, acts).st;
            var loaded := Do(maxClients, st, OfAcceptor(LoadCounter));
            && Enabled(loaded, OfAcceptor(Increment))
            && Do(maxClients, loaded, OfAcceptor(Increment)).active == st.active + 1
  {
    RunInv(maxClients, poolSize, acts);
    var st := Run(maxClients, poolSize, acts).st;
    StepNeverWraps(maxClients, st, OfAcceptor(LoadCounter));
    AcceptorCounter(maxClients, st, LoadCounter);
    StepNeverWraps(maxClients, Do(maxClients, st, OfAcceptor(LoadCounter)), OfAcceptor(Increment));
  }

  /** The accept thread ends if and only if it sees the stop flag, or accept fails for another reason than a signal. */
  lemma AcceptorEndsIff(maxClients: nat, st: State, a: AcceptorAction)
    requires AcceptorEnabled(st, a)
    ensures DoAcceptor(maxClients, st, a).acceptor.AcceptorDone? <==>
            || (a.TestStopFlag? && st.stopFlag)
            || (a.AcceptFails? && (st.stopFlag || !a.interrupted))
  {
  }

  /** Workers that have a socket open. */
  function Open(ws: seq<Worker>): nat {
    if ws == [] then 0 else Open(ws[..|ws| - 1]) + if ws[|ws| - 1].Serving? then 1 else 0
  }

  lemma {:induction false} OpenIsBusy(ws: seq<Worker>)
    ensures Open(ws) <= Busy(ws)
  {
    if ws != [] {
      OpenIsBusy(ws[..|ws| - 1]);
    }
  }

  /** A socket is closed before it stops being counted, so there are never more open admitted sockets than the counter
      says, let alone than the limit allows. */
  lemma OpenSocketsAreCounted(maxClients: nat, poolSize: nat, acts: seq<Action>)
    requires Run(maxClients, poolSize, acts).At? && maxClients < TWO32
    ensures var st := Run(maxClients, poolSize, acts).st;
            CountedInHand(st) + |st.queue.items| + Open(st.workers) <= st.active <= maxClients
  {
    RunInv(maxClients, poolSize, acts);
    OpenIsBusy(Run(maxClients, poolSize, acts).st.workers);
  }

  /** The unsigned counter is never decremented below zero nor incremented past the limit. */
  lemma CounterNeverWraps(maxClients: nat, poolSize: nat, acts: seq<Action>, a: Action)
    requires Run(maxClients, poolSize, acts).At? && maxClients < TWO32
    requires Enabled(Run(maxClients, poolSize, acts).st, a)
    ensures var st := Run(maxClients, poolSize, acts).st;
            Do(maxClients, st, a).active ==
            st.active + (if a == OfAcceptor(Increment) then 1 else 0)
            - (if a.OfWorker? && a.worker == Decrement then 1 else 0)
  {
    RunInv(maxClients, poolSize, acts);
    StepNeverWraps(maxClients, Run(maxClients, poolSize, acts).st, a);
  }

  lemma StepNeverWraps(maxClients: nat, st: State, a: Action)
    requires CounterExact(st) && WithinCapacity(maxClients, st) && maxClients < TWO32 && Enabled(st, a)
    ensures Do(maxClients, st, a).active ==
            st.active + (if a == OfAcceptor(Increment) then 1 else 0)
            - (if a.OfWorker? && a.worker == Decrement then 1 else 0)
  {
    if a.OfWorker? {
      WorkerCounter(maxClients, st, a.w, a.worker);
    }
  }

  /** A socket never waits in the queue while a worker sleeps and nobody is on the way to take it. */
  lemma NoStrandedSocket(maxClients: nat, poolSize: nat, acts: seq<Action>)
    requires Run(maxClients, poolSize, acts).At? && maxClients < TWO32
    requires var st := Run(maxClients, poolSize, acts).st; st.queue.items != [] && Sleeping in st.workers
    ensures var st := Run(maxClients, poolSize, acts).st; Woken in st.workers || st.acceptor.Notifying?
  {
    RunInv(maxClients, poolSize, acts);
    CountPositive(Run(maxClients, poolSize, acts).st.workers, Woken);
  }

  /** Workers get the sockets in the order of their acceptance, each once. */
  lemma ServedInAcceptOrder(maxClients: nat, poolSize: nat, acts: seq<Action>)
    requires Run(maxClients, poolSize, acts).At? && maxClients < TWO32
    ensures var st := Run(maxClients, poolSize, acts).st;
            && st.enqueued == st.dequeued + st.drained + st.queue.items
            && Ascending(st.dequeued)
            && (!st.queue.stopped ==> st.drained == [])
  {
    var st := Run(maxClients, poolSize, acts).st;
    RunInv(maxClients, poolSize, acts);
    assert forall i :: 0 <= i < |st.dequeued| ==> st.dequeued[i] == st.enqueued[i];
  }

  // ---- Shutdown ----

  predicate Quiescent(st: State) {
    st.acceptor.AcceptorDone? && st.queue.stopped && forall w <- st.workers :: w.WorkerDone?
  }

  /** When all threads have ended every accepted socket has been closed once, and the counter has come back to zero if
      and only if `stop` found the queue empty and no socket was enqueued after it. */
  lemma ShutdownReleasesEverything(maxClients: nat, poolSize: nat, acts: seq<Action>)
    requires Run(maxClients, poolSize, acts).At? && maxClients < TWO32
    requires Quiescent(Run(maxClients, poolSize, acts).st)
    ensures var st := Run(maxClients, poolSize, acts).st;
            && (forall t: Token :: t < st.next ==> Count(st.closed, t) == 1)
            && st.active == |st.drained| + |st.refused|
            && (st.active == 0 <==> st.drained == [] && st.refused == [])
  {
    var st := Run(maxClients, poolSize, acts).st;
    RunInv(maxClients, poolSize, acts);
    forall t: Token | t < st.next ensures Count(st.closed, t) == 1 {
      ClosedExactlyOnce(maxClients, poolSize, acts, t);
    }
    AllDoneNotBusy(st.workers);
  }

  lemma {:induction false} AllDoneNotBusy(ws: seq<Worker>)
    requires forall w <- ws :: w.WorkerDone?
    ensures Busy(ws) == 0
  {
    if ws != [] {
      AllDoneNotBusy(ws[..|ws| - 1]);
      assert ws[|ws| - 1] in ws;
    }
  }

  lemma RunNext(maxClients: nat, poolSize: nat, acts: seq<Action>, a: Action)
    requires Run(maxClients, poolSize, acts).At? && Enabled(Run(maxClients, poolSize, acts).st, a)
    ensures Run(maxClients, poolSize, acts + [a]) == At(Do(maxClients, Run(maxClients, poolSize, acts).st, a))
  {
    assert (acts + [a])[..|acts + [a]| - 1] == acts;
  }

  /** Shutdown as `main` orders it: the accept thread has been joined before the queue is stopped. */
  ghost predicate MainOrder(maxClients: nat, poolSize: nat, acts: seq<Action>) {
    forall k :: 0 <= k < |acts| && acts[k] == OfMain(StopQueue) ==>
      Run(maxClients, poolSize, acts[..k]).At? && Run(maxClients, poolSize, acts[..k]).st.acceptor.AcceptorDone?
  }

  /** In that order nothing is enqueued after `stop`, so all that can be dropped is what was still waiting. */
  lemma {:induction false} MainOrderRefusesNothing(maxClients: nat, poolSize: nat, acts: seq<Action>)
    requires Run(maxClients, poolSize, acts).At? && maxClients < TWO32 && MainOrder(maxClients, poolSize, acts)
    ensures var st := Run(maxClients, poolSize, acts).st;
            st.refused == [] && (st.queue.stopped ==> st.acceptor.AcceptorDone?)
  {
    if acts != [] {
      var fewer := acts[..|acts| - 1];
      forall k | 0 <= k < |fewer| && fewer[k] == OfMain(StopQueue)
        ensures Run(maxClients, poolSize, fewer[..k]).At?
        ensures Run(maxClients, poolSize, fewer[..k]).st.acceptor.AcceptorDone?
      {
        assert fewer[..k] == acts[..k] && acts[k] == fewer[k];
      }
      MainOrderRefusesNothing(maxClients, poolSize, fewer);
      StepRefusesNothing(maxClients, Run(maxClients, poolSize, fewer).st, acts[|acts| - 1]);
    }
  }

  lemma StepRefusesNothing(maxClients: nat, st: State, a: Action)
    requires Enabled(st, a) && st.refused == [] && (st.queue.stopped ==> st.acceptor.AcceptorDone?)
    requires a == OfMain(StopQueue) ==> st.acceptor.AcceptorDone?
    ensures var st' := Do(maxClients, st, a); st'.refused == [] && (st'.queue.stopped ==> st'.acceptor.AcceptorDone?)
  {
  }

  lemma MainOrderNext(maxClients: nat, poolSize: nat, acts: seq<Action>, a: Action)
    requires MainOrder(maxClients, poolSize, acts) && Run(maxClients, poolSize, acts).At?
    requires a == OfMain(StopQueue) ==> Run(maxClients, poolSize, acts).st.acceptor.AcceptorDone?
    ensures MainOrder(maxClients, poolSize, acts + [a])
  {
    hide Run;
    var all := acts + [a];
    forall k | 0 <= k < |all| && all[k] == OfMain(StopQueue)
      ensures Run(maxClients, poolSize, all[..k]).At?
      ensures Run(maxClients, poolSize, all[..k]).st.acceptor.AcceptorDone?
    {
      if k < |acts| {
        assert all[..k] == acts[..k];
      } else {
        assert all[..k] == acts;
      }
    }
  }

  /** Even then the counter need not come back to zero: a socket still queued at shutdown stays counted for good. */
  lemma DroppedSocketStaysCounted() returns (acts: seq<Action>)
    ensures Run(1, 1, acts).At? && MainOrder(1, 1, acts)
    ensures var st := Run(1, 1, acts).st;
            && Quiescent(st) && st.stopper.NotifiedAll?
            && st.active == 1 && st.refused == [] && st.closed == [0]
  {
    hide Run, MainOrder;
    acts := QueuedRun();
    acts := Then(1, 1, acts, OfMain(StopAcceptor));
    acts := Then(1, 1, acts, OfAcceptor(TestStopFlag));
    acts := Then(1, 1, acts, OfMain(StopQueue));
    assert Run(1, 1, acts).st.workers == [Entering];
    acts := Then(1, 1, acts, OfMain(NotifyAll));
    assert [Entering][..0] == [] && WakeAll([Entering]) == [Entering];
    acts := Then(1, 1, acts, OfWorker(0, Dequeue));
  }

  /** One more step of a run in main's order. */
  lemma Then(maxClients: nat, poolSize: nat, acts: seq<Action>, a: Action) returns (more: seq<Action>)
    requires Run(maxClients, poolSize, acts).At? && Enabled(Run(maxClients, poolSize, acts).st, a)
    requires MainOrder(maxClients, poolSize, acts)
    requires a == OfMain(StopQueue) ==> Run(maxClients, poolSize, acts).st.acceptor.AcceptorDone?
    ensures more == acts + [a] && MainOrder(maxClients, poolSize, more)
    ensures Run(maxClients, poolSize, more) == At(Do(maxClients, Run(maxClients, poolSize, acts).st, a))
  {
    hide MainOrder;
    more := acts + [a];
    RunNext(maxClients, poolSize, acts, a);
    MainOrderNext(maxClients, poolSize, acts, a);
  }

  /** One socket accepted, counted and queued; the only worker has not run yet. */
  lemma QueuedRun() returns (acts: seq<Action>)
    ensures Run(1, 1, acts).At? && MainOrder(1, 1, acts)
    ensures Run(1, 1, acts).st ==
            State(QueueState([0], false), Looping, [Entering], false, NotStopping, 1, 1, [], [0], [], [], [])
  {
    hide Run, MainOrder;
    acts := HeldRun();
    acts := Then(1, 1, acts, OfAcceptor(LoadCounter));
    acts := Then(1, 1, acts, OfAcceptor(Increment));
    acts := Then(1, 1, acts, OfAcceptor(Enqueue));
    var st := Run(1, 1, acts).st;
    assert st.queue.items == [] + [0] == [0] && st.enqueued == [] + [0] == [0];
    acts := Then(1, 1, acts, OfAcceptor(NotifyOne(0)));
  }

  /** One socket accepted. */
  lemma HeldRun() returns (acts: seq<Action>)
    ensures Run(1, 1, acts).At? && MainOrder(1, 1, acts)
    ensures Run(1, 1, acts).st ==
            State(QueueState([], false), Holding(0), [Entering], false, NotStopping, 0, 1, [], [], [], [], [])
  {
    acts := [];
    assert Run(1, 1, acts) == At(Init(1)) && Idle(1) == [Entering];
    hide Run, MainOrder;
    acts := Then(1, 1, acts, OfAcceptor(TestStopFlag));
    acts := Then(1, 1, acts, OfAcceptor(Accept));
  }

  // ---- Shutdown ends ----

  /** Steps a worker still takes once the queue is stopped and everybody has been notified. */
  function StepsLeft(pc: Worker): nat {
    match pc
    case Serving(_) => 3
    case Released(_) => 2
    case Entering => 1
    case Woken => 1
    case Sleeping => 1
    case WorkerDone => 0
  }

  function AllStepsLeft(ws: seq<Worker>): (n: nat)
    ensures n <= 3 * |ws|
  {
    if ws == [] then 0 else AllStepsLeft(ws[..|ws| - 1]) + StepsLeft(ws[|ws| - 1])
  }

  lemma {:induction false} StepsLeftUpdate(ws: seq<Worker>, w: nat, pc: Worker)
    requires w < |ws|
    ensures AllStepsLeft(ws[w := pc]) + StepsLeft(ws[w]) == AllStepsLeft(ws) + StepsLeft(pc)
  {
    var last := |ws| - 1;
    if w == last {
      assert ws[w := pc][..last] == ws[..last];
    } else {
      assert ws[w := pc][..last] == ws[..last][w := pc];
      StepsLeftUpdate(ws[..last], w, pc);
    }
  }

  function WorkerSteps(acts: seq<Action>): nat {
    if acts == [] then 0 else WorkerSteps(acts[..|acts| - 1]) + if acts[|acts| - 1].OfWorker? then 1 else 0
  }

  lemma WorkerShutdownStep(st: State, w: nat, a: WorkerAction)
    requires StopSeen(st) && st.stopper.NotifiedAll? && w < |st.workers| && WorkerEnabled(st.workers[w], a)
    ensures AllStepsLeft(DoWorker(st, w, a).workers) == AllStepsLeft(st.workers) - 1
  {
    hide AllStepsLeft;
    assert st.workers[w] in st.workers;
    StepsLeftUpdate(st.workers, w, NextPc(st, st.workers[w], a));
  }

  lemma ShutdownStep(maxClients: nat, st: State, a: Action)
    requires Inv(maxClients, st) && Enabled(st, a) && st.stopper.NotifiedAll?
    ensures var st' := Do(maxClients, st, a);
            && st'.stopper.NotifiedAll?
            && AllStepsLeft(st'.workers) == AllStepsLeft(st.workers) - if a.OfWorker? then 1 else 0
  {
    hide OnePlaceEach, AcceptOrder, CounterExact, InOrder, WithinCapacity, NoLostWakeup, AllStepsLeft;
    if a.OfWorker? {
      WorkerShutdownStep(st, a.w, a.worker);
    }
  }

  /** From the moment `notify_all` has run, whatever the other threads do, the workers together take a bounded number
      of steps, and one that is not done always has a step to take: joining them cannot hang on the queue. */
  lemma {:induction false} ShutdownTerminates(maxClients: nat, poolSize: nat, acts: seq<Action>, more: seq<Action>)
    requires maxClients < TWO32 && Run(maxClients, poolSize, acts + more).At?
    requires Run(maxClients, poolSize, acts).At? && Run(maxClients, poolSize, acts).st.stopper.NotifiedAll?
    ensures var st := Run(maxClients, poolSize, acts + more).st;
            && st.stopper.NotifiedAll?
            && WorkerSteps(more) + AllStepsLeft(st.workers) == AllStepsLeft(Run(maxClients, poolSize, acts).st.workers)
            && forall w :: 0 <= w < |st.workers| && !st.workers[w].WorkerDone? ==>
                 exists a :: Enabled(st, OfWorker(w, a))
  {
    hide Inv, Do, Enabled, AllStepsLeft;
    if more == [] {
      assert acts + more == acts;
    } else {
      var all, fewer := acts + more, more[..|more| - 1];
      assert all[..|all| - 1] == acts + fewer;
      ShutdownTerminates(maxClients, poolSize, acts, fewer);
      RunInv(maxClients, poolSize, acts + fewer);
      ShutdownStep(maxClients, Run(maxClients, poolSize, acts + fewer).st, all[|all| - 1]);
    }
    RunInv(maxClients, poolSize, acts + more);
    AwakeWorkersCanMove(maxClients, Run(maxClients, poolSize, acts + more).st);
  }

  lemma AwakeWorkersCanMove(maxClients: nat, st: State)
    requires Inv(maxClients, st) && st.stopper.NotifiedAll?
    ensures forall w :: 0 <= w < |st.workers| && !st.workers[w].WorkerDone? ==> exists a :: Enabled(st, OfWorker(w, a))
  {
    hide OnePlaceEach, AcceptOrder, CounterExact;
    forall w | 0 <= w < |st.workers| && !st.workers[w].WorkerDone?
      ensures exists a :: Enabled(st, OfWorker(w, a))
    {
      var pc := st.workers[w];
      assert pc in st.workers;
      var a := if pc.Serving? then CloseSocket else if pc.Released? then Decrement else Dequeue;
      assert Enabled(st, OfWorker(w, a));
    }
  }
}
