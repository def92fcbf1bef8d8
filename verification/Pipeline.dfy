/**
 The path of a connection through the server: the accept thread (`socketAcceptor.cpp`), the
 `onAccept` callback and shutdown (`main.cpp`), the work queue with its condition variable
 (`workQueue.cpp`) and the worker threads (`threadPool.cpp`, `connectionWorker.hpp`).
 One action is one atomic operation of one thread: a critical section, an operation on the
 atomic counter, a notification, a system call. Every interleaving is a list of actions.
 */
module Pipeline {
  import opened Bytes
  import opened WorkQueue

  datatype Acceptor =
    | Looping              // about to test the stop flag
    | Accepting            // in accept()
    | Holding(t: Token)    // accepted, counter not read yet
    | Admitted(t: Token)   // counter was below the limit
    | Rejecting(t: Token)  // counter was at the limit
    | Counted(t: Token)    // counter incremented, not enqueued yet
    | Notifying            // enqueued, lock released, notify_one pending
    | AcceptorDone

  datatype Worker =
    | Entering             // about to lock the queue
    | Sleeping             // waiting on the condition variable
    | Woken                // notified, or awake spuriously; must lock and look again
    | Serving(t: Token)    // welcome handshake and session
    | Released(t: Token)   // socket closed, counter not decremented yet
    | WorkerDone

  datatype Stopper = NotStopping | NotifyAllPending | NotifiedAll

  datatype State = State(
    queue: QueueState, acceptor: Acceptor, workers: seq<Worker>, stopFlag: bool, stopper: Stopper,
    active: nat,            // the atomic uint32_t
    next: Token,            // sockets accepted so far
    closed: seq<Token>,     // every close() in order
    enqueued: seq<Token>, dequeued: seq<Token>,
    drained: seq<Token>,    // closed by stop()
    refused: seq<Token>)    // closed by an enqueue() after stop()

  datatype AcceptorAction =
    | TestStopFlag
    | Accept
    | AcceptFails(interrupted: bool)
    | LoadCounter
    | Reject
    | Increment
    | Enqueue
    | NotifyOne(w: nat)

  datatype WorkerAction = Dequeue | WakeSpuriously | CloseSocket | Decrement

  datatype MainAction = StopAcceptor | StopQueue | NotifyAll

  datatype Action =
    | OfAcceptor(acceptor: AcceptorAction)
    | OfWorker(w: nat, worker: WorkerAction)
    | OfMain(main: MainAction)

  predicate Is(st: State, w: nat, pc: Worker) {
    w < |st.workers| && st.workers[w] == pc
  }

  predicate AcceptorEnabled(st: State, a: AcceptorAction) {
    match a
    case TestStopFlag => st.acceptor.Looping?
    case Accept => st.acceptor.Accepting?
    case AcceptFails(_) => st.acceptor.Accepting?
    case LoadCounter => st.acceptor.Holding?
    case Reject => st.acceptor.Rejecting?
    case Increment => st.acceptor.Admitted?
    case Enqueue => st.acceptor.Counted?
    case NotifyOne(w) => st.acceptor.Notifying? && (Is(st, w, Sleeping) || Sleeping !in st.workers)
  }

  predicate WorkerEnabled(pc: Worker, a: WorkerAction) {
    match a
    case Dequeue => pc.Entering? || pc.Woken?
    case WakeSpuriously => pc.Sleeping?
    case CloseSocket => pc.Serving?
    case Decrement => pc.Released?
  }

  predicate MainEnabled(st: State, a: MainAction) {
    match a
    case StopAcceptor => true
    case StopQueue => st.stopper.NotStopping?
    case NotifyAll => st.stopper.NotifyAllPending?
  }

  predicate Enabled(st: State, a: Action) {
    match a
    case OfAcceptor(x) => AcceptorEnabled(st, x)
    case OfWorker(w, x) => w < |st.workers| && WorkerEnabled(st.workers[w], x)
    case OfMain(x) => MainEnabled(st, x)
  }

  function DoAcceptor(maxClients: nat, st: State, a: AcceptorAction): State
    requires AcceptorEnabled(st, a)
  {
    match a
    case TestStopFlag => st.(acceptor := if st.stopFlag then AcceptorDone else Accepting)
    case Accept => st.(acceptor := Holding(st.next), next := st.next + 1)
    case AcceptFails(interrupted) =>
      st.(acceptor := if !st.stopFlag && interrupted then Looping else AcceptorDone)
    case LoadCounter =>
      var t := st.acceptor.t;
      st.(acceptor := if st.active >= maxClients then Rejecting(t) else Admitted(t))
    case Reject => st.(acceptor := Looping, closed := st.closed + [st.acceptor.t])
    case Increment => st.(acceptor := Counted(st.acceptor.t), active := (st.active + 1) % TWO32)
    case Enqueue =>
      var t := st.acceptor.t;
      if st.queue.stopped
      then st.(acceptor := Looping, closed := st.closed + [t], refused := st.refused + [t])
      else st.(acceptor := Notifying, queue := AfterEnqueue(st.queue, t), enqueued := st.enqueued + [t])
    case NotifyOne(w) =>
      st.(acceptor := Looping, workers := if Is(st, w, Sleeping) then st.workers[w := Woken] else st.workers)
  }

  /** Where a worker goes next. */
  function NextPc(st: State, pc: Worker, a: WorkerAction): Worker
    requires WorkerEnabled(pc, a)
  {
    match a
    case Dequeue => (match LookAt(st.queue) case Take(t) => Serving(t) case Finish => WorkerDone case Sleep => Sleeping)
    case WakeSpuriously => Woken
    case CloseSocket => Released(pc.t)
    case Decrement => Entering
  }

  function DoWorker(st: State, w: nat, a: WorkerAction): State
    requires w < |st.workers| && WorkerEnabled(st.workers[w], a)
  {
    var pc := st.workers[w];
    var st' := st.(workers := st.workers[w := NextPc(st, pc, a)]);
    match a
    case Dequeue =>
      st'.(queue := AfterLook(st.queue),
           dequeued := st.dequeued + if st.queue.items == [] then [] else [st.queue.items[0]])
    case WakeSpuriously => st'
    case CloseSocket => st'.(closed := st.closed + [pc.t])
    case Decrement => st'.(active := (st.active + TWO32 - 1) % TWO32)
  }

  function Wake(pc: Worker): Worker {
    if pc.Sleeping? then Woken else pc
  }

  function WakeAll(ws: seq<Worker>): seq<Worker> {
    if ws == [] then [] else WakeAll(ws[..|ws| - 1]) + [Wake(ws[|ws| - 1])]
  }

  function DoMain(st: State, a: MainAction): State
    requires MainEnabled(st, a)
  {
    match a
    case StopAcceptor => st.(stopFlag := true)
    case StopQueue =>
      st.(queue := AfterStop(st.queue), stopper := NotifyAllPending,
          closed := st.closed + st.queue.items, drained := st.queue.items)
    case NotifyAll => st.(workers := WakeAll(st.workers), stopper := NotifiedAll)
  }

  function Do(maxClients: nat, st: State, a: Action): State
    requires Enabled(st, a)
  {
    match a
    case OfAcceptor(x) => DoAcceptor(maxClients, st, x)
    case OfWorker(w, x) => DoWorker(st, w, x)
    case OfMain(x) => DoMain(st, x)
  }

  function Idle(poolSize: nat): seq<Worker> {
    seq(poolSize, _ => Entering)
  }

  function Init(poolSize: nat): State {
    State(QueueState([], false), Looping, Idle(poolSize), false, NotStopping, 0, 0, [], [], [], [], [])
  }

  datatype Outcome = At(st: State) | Impossible

  function Run(maxClients: nat, poolSize: nat, acts: seq<Action>): Outcome {
    if acts == [] then At(Init(poolSize))
    else
      var before := Run(maxClients, poolSize, acts[..|acts| - 1]);
      if before.At? && Enabled(before.st, acts[|acts| - 1])
      then At(Do(maxClients, before.st, acts[|acts| - 1]))
      else Impossible
  }

  // ---- Counting ----

  function Same<T(==)>(a: T, b: T): nat {
    if a == b then 1 else 0
  }

  /** How often `x` occurs. */
  function Count<T(==)>(s: seq<T>, x: T): nat {
    if s == [] then 0 else Count(s[..|s| - 1], x) + Same(s[|s| - 1], x)
  }

  lemma {:induction false} CountAppend<T>(a: seq<T>, b: seq<T>, x: T)
    ensures Count(a + b, x) == Count(a, x) + Count(b, x)
  {
    if b == [] {
      assert a + b == a;
    } else {
      assert (a + b)[..|a + b| - 1] == a + b[..|b| - 1];
      CountAppend(a, b[..|b| - 1], x);
    }
  }

  lemma CountOne<T>(x: T, y: T)
    ensures Count([x], y) == Same(x, y)
  {
    assert [x][..0] == [];
  }

  lemma CountUpdate<T>(s: seq<T>, i: nat, x: T, y: T)
    requires i < |s|
    ensures Count(s[i := x], y) + Same(s[i], y) == Count(s, y) + Same(x, y)
  {
    var a, b := s[..i], s[i + 1..];
    assert s == a + [s[i]] + b && s[i := x] == a + [x] + b;
    CountAppend(a, [s[i]], y);
    CountAppend(a + [s[i]], b, y);
    CountAppend(a, [x], y);
    CountAppend(a + [x], b, y);
    CountOne(s[i], y);
    CountOne(x, y);
  }

  lemma CountPop<T>(s: seq<T>, x: T)
    requires s != []
    ensures Count(s, x) == Same(s[0], x) + Count(s[1..], x)
  {
    assert s == [s[0]] + s[1..];
    CountAppend([s[0]], s[1..], x);
    CountOne(s[0], x);
  }

  lemma {:induction false} CountPositive<T>(s: seq<T>, x: T)
    ensures x in s <==> Count(s, x) > 0
  {
    if s != [] {
      CountPositive(s[..|s| - 1], x);
    }
  }

  function BusyOne(pc: Worker): nat {
    if pc.Serving? || pc.Released? then 1 else 0
  }

  /** Workers that still owe the counter a decrement. */
  function Busy(ws: seq<Worker>): nat {
    if ws == [] then 0 else Busy(ws[..|ws| - 1]) + BusyOne(ws[|ws| - 1])
  }

  lemma {:induction false} BusyUpdate(ws: seq<Worker>, w: nat, pc: Worker)
    requires w < |ws|
    ensures Busy(ws[w := pc]) + BusyOne(ws[w]) == Busy(ws) + BusyOne(pc)
  {
    var last := |ws| - 1;
    if w == last {
      assert ws[w := pc][..last] == ws[..last];
    } else {
      assert ws[w := pc][..last] == ws[..last][w := pc];
      BusyUpdate(ws[..last], w, pc);
    }
  }

  lemma {:induction false} WakeAllBusy(ws: seq<Worker>)
    ensures |WakeAll(ws)| == |ws| && Busy(WakeAll(ws)) == Busy(ws)
    ensures Sleeping !in WakeAll(ws)
  {
    if ws != [] {
      var rest := ws[..|ws| - 1];
      WakeAllBusy(rest);
      assert WakeAll(ws)[..|rest|] == WakeAll(rest);
    }
  }

  lemma {:induction false} WakeAllServing(ws: seq<Worker>, t: Token)
    ensures Count(WakeAll(ws), Serving(t)) == Count(ws, Serving(t))
  {
    if ws != [] {
      var rest := ws[..|ws| - 1];
      WakeAllServing(rest, t);
      assert WakeAll(ws)[..|WakeAll(ws)| - 1] == WakeAll(rest);
    }
  }

  // ---- Where every socket is ----

  predicate InHand(a: Acceptor, t: Token) {
    (a.Holding? || a.Admitted? || a.Rejecting? || a.Counted?) && a.t == t
  }

  /** In how many places the socket is: with the acceptor, queued, with a worker, or closed. */
  function Places(st: State, t: Token): nat {
    (if InHand(st.acceptor, t) then 1 else 0) + Count(st.queue.items, t)
    + Count(st.workers, Serving(t)) + Count(st.closed, t)
  }

  predicate Placed(st: State, t: Token) {
    Places(st, t) == if t < st.next then 1 else 0
  }

  ghost predicate OnePlaceEach(st: State) {
    forall t: Token :: Placed(st, t)
  }

  // ---- What the counter counts ----

  function CountedInHand(st: State): nat {
    if st.acceptor.Counted? then 1 else 0
  }

  predicate CounterExact(st: State) {
    st.active == CountedInHand(st) + |st.queue.items| + Busy(st.workers) + |st.drained| + |st.refused|
  }

  predicate WithinCapacity(maxClients: nat, st: State) {
    && st.active <= maxClients
    && (st.acceptor.Admitted? ==> st.active < maxClients)
  }

  // ---- Wakeups ----

  function PendingNotifies(st: State): nat {
    if st.acceptor.Notifying? then 1 else 0
  }

  /** While somebody sleeps, every queued socket has a woken worker or a notification on its way. */
  predicate NoLostWakeup(st: State) {
    Sleeping in st.workers ==> |st.queue.items| <= Count(st.workers, Woken) + PendingNotifies(st)
  }

  predicate StopSeen(st: State) {
    && (st.queue.stopped <==> !st.stopper.NotStopping?)
    && (st.queue.stopped ==> st.queue.items == [])
    && (!st.queue.stopped ==> st.drained == [] && st.refused == [])
    && (st.stopper.NotifiedAll? ==> Sleeping !in st.workers)
  }

  // ---- First in, first out ----

  predicate InOrder(st: State) {
    st.enqueued == st.dequeued + st.drained + st.queue.items
  }

  predicate Ascending(ts: seq<Token>) {
    forall i, j :: 0 <= i < j < |ts| ==> ts[i] < ts[j]
  }

  /** Sockets enter the queue in the order in which they were accepted. */
  ghost predicate AcceptOrder(st: State) {
    && Ascending(st.enqueued)
    && (forall i :: 0 <= i < |st.enqueued| ==> st.enqueued[i] < st.next && !InHand(st.acceptor, st.enqueued[i]))
    && (forall t: Token :: InHand(st.acceptor, t) ==> t + 1 == st.next)
  }

  ghost predicate Inv(maxClients: nat, st: State) {
    && OnePlaceEach(st)
    && CounterExact(st)
    && WithinCapacity(maxClients, st)
    && NoLostWakeup(st)
    && StopSeen(st)
    && InOrder(st)
    && AcceptOrder(st)
  }
}
