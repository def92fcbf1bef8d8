/**
 The batch exporter of finished spans (`otelScope.cpp`): any number of threads enqueue, one flusher
 thread swaps the pending spans out under the lock and posts them with the lock released, and the
 destructor stops the flusher, joins it and flushes once more.
 */
module SpanExporter {

  type Span = nat

  datatype Flusher =
    | Starting                   // before its first lock
    | Waiting                    // in wait_for
    | Posting(batch: seq<Span>)  // swapped out, lock released
    | Relocking                  // posted, about to lock and test m_running
    | Exited

  datatype Destructor =
    | NotCalled
    | Joining                        // m_running cleared
    | FinalFlush                     // flusher joined
    | FinalPosting(batch: seq<Span>)
    | Destroyed

  datatype State = State(
    pending: seq<Span>, running: bool, flusher: Flusher, destructor: Destructor,
    posted: seq<seq<Span>>,  // batches handed to httpPost
    history: seq<Span>,      // every span enqueued
    late: seq<Span>)         // those enqueued after the destructor's flush took its batch

  datatype Action =
    | Enqueue(span: Span)
    | Start | Wake | Post | Relock
    | BeginDestruction | Join | TakeFinal | PostFinal

  predicate Enabled(st: State, a: Action) {
    match a
    case Enqueue(_) => true
    case Start => st.flusher.Starting?
    case Wake => st.flusher.Waiting?
    case Post => st.flusher.Posting?
    case Relock => st.flusher.Relocking?
    case BeginDestruction => st.destructor.NotCalled?
    case Join => st.destructor.Joining? && st.flusher.Exited?
    case TakeFinal => st.destructor.FinalFlush?
    case PostFinal => st.destructor.FinalPosting?
  }

  /** The loop test, made with the lock held. */
  function LoopTest(running: bool): Flusher {
    if running then Waiting else Exited
  }

  predicate Flushed(d: Destructor) {
    d.FinalPosting? || d.Destroyed?
  }

  function Do(st: State, a: Action): State
    requires Enabled(st, a)
  {
    match a
    case Enqueue(span) =>
      st.(pending := st.pending + [span], history := st.history + [span],
          late := if Flushed(st.destructor) then st.late + [span] else st.late)
    case Start => st.(flusher := LoopTest(st.running))
    case Wake =>
      if st.pending == [] then st.(flusher := LoopTest(st.running))
      else st.(flusher := Posting(st.pending), pending := [])
    case Post => st.(flusher := Relocking, posted := st.posted + [st.flusher.batch])
    case Relock => st.(flusher := LoopTest(st.running))
    case BeginDestruction => st.(running := false, destructor := Joining)
    case Join => st.(destructor := FinalFlush)
    case TakeFinal =>
      if st.pending == [] then st.(destructor := Destroyed)
      else st.(destructor := FinalPosting(st.pending), pending := [])
    case PostFinal => st.(destructor := Destroyed, posted := st.posted + [st.destructor.batch])
  }

  function Init(): State {
    State([], true, Starting, NotCalled, [], [], [])
  }

  datatype Outcome = At(st: State) | Impossible

  function Run(acts: seq<Action>): Outcome {
    if acts == [] then At(Init())
    else
      var before := Run(acts[..|acts| - 1]);
      if before.At? && Enabled(before.st, acts[|acts| - 1])
      then At(Do(before.st, acts[|acts| - 1]))
      else Impossible
  }

  function Concat(batches: seq<seq<Span>>): seq<Span> {
    if batches == [] then [] else Concat(batches[..|batches| - 1]) + batches[|batches| - 1]
  }

  lemma ConcatNext(batches: seq<seq<Span>>, b: seq<Span>)
    ensures Concat(batches + [b]) == Concat(batches) + b
  {
    assert (batches + [b])[..|batches + [b]| - 1] == batches;
  }

  // ---- What every interleaving keeps ----

  /** The batch some thread has swapped out and not handed on yet. */
  function InFlight(st: State): seq<Span> {
    (if st.flusher.Posting? then st.flusher.batch else [])
    + (if st.destructor.FinalPosting? then st.destructor.batch else [])
  }

  predicate Conserved(st: State) {
    Concat(st.posted) + InFlight(st) + st.pending == st.history
  }

  predicate NoEmptyBatch(st: State) {
    && (forall b <- st.posted :: b != [])
    && (st.flusher.Posting? ==> st.flusher.batch != [])
    && (st.destructor.FinalPosting? ==> st.destructor.batch != [])
  }

  predicate Inv(st: State) {
    && Conserved(st)
    && NoEmptyBatch(st)
    && (!st.destructor.NotCalled? && !st.destructor.Joining? ==> st.flusher.Exited?)
    && (st.running <==> st.destructor.NotCalled?)
    && (st.flusher.Exited? ==> !st.running)
    && (if Flushed(st.destructor) then st.pending == st.late else st.late == [])
  }

  lemma Regroup(a: seq<Span>, b: seq<Span>, c: seq<Span>)
    ensures a + (b + c) == (a + b) + c
    ensures a + [] == a && [] + a == a
  {
  }

  lemma EnqueueConserves(st: State, span: Span)
    requires Conserved(st)
    ensures Conserved(Do(st, Action.Enqueue(span)))
  {
    hide Concat;
    Regroup(Concat(st.posted) + InFlight(st), st.pending, [span]);
  }

  lemma WakeConserves(st: State)
    requires Inv(st) && Enabled(st, Wake)
    ensures Conserved(Do(st, Wake))
  {
    hide Concat, NoEmptyBatch;
    assert InFlight(st) == [];
    Regroup(Concat(st.posted), st.pending, []);
  }

  lemma PostConserves(st: State)
    requires Inv(st) && Enabled(st, Post)
    ensures Conserved(Do(st, Post))
  {
    hide Concat, NoEmptyBatch;
    var batch := st.flusher.batch;
    assert InFlight(st) == batch && InFlight(Do(st, Post)) == [];
    ConcatNext(st.posted, batch);
    Regroup(Concat(st.posted) + batch, [], []);
  }

  lemma TakeFinalConserves(st: State)
    requires Inv(st) && Enabled(st, TakeFinal)
    ensures Conserved(Do(st, TakeFinal))
  {
    hide Concat, NoEmptyBatch;
    assert InFlight(st) == [];
    Regroup(Concat(st.posted), st.pending, []);
  }

  lemma PostFinalConserves(st: State)
    requires Inv(st) && Enabled(st, PostFinal)
    ensures Conserved(Do(st, PostFinal))
  {
    hide Concat, NoEmptyBatch;
    var batch := st.destructor.batch;
    assert InFlight(st) == batch && InFlight(Do(st, PostFinal)) == [];
    ConcatNext(st.posted, batch);
    Regroup(Concat(st.posted) + batch, [], []);
  }

  lemma StepConserves(st: State, a: Action)
    requires Inv(st) && Enabled(st, a)
    ensures Conserved(Do(st, a))
  {
    hide Concat, NoEmptyBatch, Flushed;
    match a
    case Enqueue(span) => EnqueueConserves(st, span);
    case Wake => WakeConserves(st);
    case Post => PostConserves(st);
    case TakeFinal => TakeFinalConserves(st);
    case PostFinal => PostFinalConserves(st);
    case _ =>
  }

  lemma StepInv(st: State, a: Action)
    requires Inv(st) && Enabled(st, a)
    ensures Inv(Do(st, a))
  {
    hide Conserved, Concat, InFlight;
    StepConserves(st, a);
  }

  lemma {:induction false} RunInv(acts: seq<Action>)
    requires Run(acts).At?
    ensures Inv(Run(acts).st)
  {
    if acts != [] {
      RunInv(acts[..|acts| - 1]);
      StepInv(Run(acts[..|acts| - 1]).st, acts[|acts| - 1]);
    }
  }

  /** In every interleaving no span is lost, duplicated or reordered: what was handed to `httpPost`, then what is in
      flight, then what is pending is exactly what was enqueued, and no empty batch is posted. */
  lemma SpansConserved(acts: seq<Action>)
    requires Run(acts).At?
    ensures var st := Run(acts).st;
            && Concat(st.posted) + InFlight(st) + st.pending == st.history
            && forall b <- st.posted :: b != []
  {
    RunInv(acts);
  }

  /** After the destructor every span has been handed to `httpPost` except those enqueued after its flush; nothing is
      left behind if and only if there were none. */
  lemma DestructorFlushesAll(acts: seq<Action>)
    requires Run(acts).At? && Run(acts).st.destructor.Destroyed?
    ensures var st := Run(acts).st;
            && Concat(st.posted) + st.late == st.history
            && (Concat(st.posted) == st.history <==> st.late == [])
            && st.pending == st.late
  {
    hide Run, Concat, NoEmptyBatch;
    RunInv(acts);
  }

  // ---- The destructor does not hang ----

  predicate OfFlusher(a: Action) {
    a.Start? || a.Wake? || a.Post? || a.Relock?
  }

  /** Steps the flusher takes at most once `m_running` is false. */
  function StepsLeft(f: Flusher): nat {
    match f
    case Starting => 1
    case Waiting => 3
    case Posting(_) => 2
    case Relocking => 1
    case Exited => 0
  }

  function FlusherSteps(acts: seq<Action>): nat {
    if acts == [] then 0 else FlusherSteps(acts[..|acts| - 1]) + if OfFlusher(acts[|acts| - 1]) then 1 else 0
  }

  lemma RunsUntilStopped(acts: seq<Action>)
    requires Run(acts).At?
    ensures var st := Run(acts).st;
            && (st.running <==> st.destructor.NotCalled?)
            && (st.destructor.NotCalled? ==> !st.flusher.Exited?)
            && StepsLeft(st.flusher) <= 3
  {
    RunInv(acts);
  }

  lemma FlusherStep(st: State, a: Action)
    requires Enabled(st, a) && !st.running
    ensures !Do(st, a).running
    ensures StepsLeft(Do(st, a).flusher) <= StepsLeft(st.flusher) - if OfFlusher(a) then 1 else 0
  {
  }

  /** The flusher runs as long as the destructor has not been called. Once it has, the flusher takes at most three more
      steps, whatever is enqueued meanwhile, and has one to take until it exits, so that the join returns. */
  lemma {:induction false} FlusherExits(acts: seq<Action>, more: seq<Action>)
    requires Run(acts).At? && Run(acts + more).At?
    ensures Run(acts).st.destructor.NotCalled? ==> !Run(acts).st.flusher.Exited?
    ensures !Run(acts).st.destructor.NotCalled? ==>
              var st := Run(acts + more).st;
              && !st.running
              && FlusherSteps(more) + StepsLeft(st.flusher) <= StepsLeft(Run(acts).st.flusher) <= 3
              && (!st.flusher.Exited? ==> exists a :: OfFlusher(a) && Enabled(st, a))
  {
    hide Inv, Do, Enabled, StepsLeft, OfFlusher;
    RunsUntilStopped(acts);
    if more == [] {
      assert acts + more == acts;
    } else {
      var all, fewer := acts + more, more[..|more| - 1];
      assert all[..|all| - 1] == acts + fewer;
      FlusherExits(acts, fewer);
      if !Run(acts + fewer).st.running {
        FlusherStep(Run(acts + fewer).st, all[|all| - 1]);
      }
    }
    FlusherCanMove(Run(acts + more).st);
  }

  lemma FlusherCanMove(st: State)
    ensures !st.flusher.Exited? ==> exists a :: OfFlusher(a) && Enabled(st, a)
  {
    var a := match st.flusher case Starting => Start case Waiting => Wake case Posting(_) => Post case _ => Relock;
    assert OfFlusher(a) && (!st.flusher.Exited? ==> Enabled(st, a));
  }

  // ---- The exporter's methods ----

  const MAX_BATCH_SIZE: nat := 512

  /** The exporter's own fields, and the state of the machine they belong to: each method is a run of machine steps. */
  class BatchExporter {
    var pending: seq<Span>
    var running: bool
    ghost var st: State

    ghost predicate Valid()
      reads this
    {
      pending == st.pending && running == st.running
    }

    constructor ()
      ensures Valid() && st == Init()
    {
      pending, running, st := [], true, Init();
    }

    /** `enqueue`; the flusher is notified when `notify` holds. */
    method Enqueue(span: Span) returns (notify: bool)
      requires Valid()
      modifies this
      ensures Valid() && st == Do(old(st), Action.Enqueue(span))
      ensures notify <==> |st.pending| >= 512
    {
      pending := pending + [span];
      st := Do(st, Action.Enqueue(span));
      return |pending| >= MAX_BATCH_SIZE;
    }

    /** `flush` as the flusher calls it when it wakes, up to the next loop test; `exits` is what that test finds.
        Everything pending goes out in order in one batch, and no empty batch does. */
    method Flush() returns (exits: bool)
      requires Valid() && st.flusher.Waiting?
      modifies this
      ensures Valid() && exits == !running && pending == []
      ensures Concat(st.posted) == old(Concat(st.posted) + pending)
      ensures |st.posted| == old(|st.posted|) + if old(pending) == [] then 0 else 1
      ensures st == if old(pending) == [] then Do(old(st), Wake) else Do(Do(Do(old(st), Wake), Post), Relock)
      ensures st.flusher == if exits then Exited else Waiting
    {
      hide Concat;
      Regroup(Concat(st.posted), [], []);
      if pending == [] {
        st := Do(st, Wake);
        return !running;
      }
      ConcatNext(st.posted, pending);
      pending := [];
      st := Do(Do(Do(st, Wake), Post), Relock);
      return !running;
    }

    /** The destructor up to the join. */
    method Stop()
      requires Valid() && st.destructor.NotCalled?
      modifies this
      ensures Valid() && !running && st == Do(old(st), BeginDestruction)
    {
      running := false;
      st := Do(st, BeginDestruction);
    }

    /** `flush` as the destructor calls it after the join. */
    method FinalFlush()
      requires Valid() && st.destructor.Joining? && st.flusher.Exited?
      modifies this
      ensures Valid() && pending == [] && st.destructor.Destroyed?
      ensures st == if old(pending) == [] then Do(Do(old(st), Join), TakeFinal)
                    else Do(Do(Do(old(st), Join), TakeFinal), PostFinal)
    {
      st := Do(st, Join);
      if pending == [] {
        st := Do(st, TakeFinal);
        return;
      }
      pending := [];
      st := Do(Do(st, TakeFinal), PostFinal);
    }
  }
}
