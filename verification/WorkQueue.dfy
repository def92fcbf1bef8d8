/** The producer-consumer queue of accepted sockets (`workQueue.cpp`): its critical sections, one method each. */
module WorkQueue {

  /** An accepted socket. The kernel reuses descriptor numbers, so each `accept` yields a token of its own. */
  type Token = nat

  datatype QueueState = QueueState(items: seq<Token>, stopped: bool)

  /** What a consumer holding the lock finds. */
  datatype Look = Take(t: Token) | Finish | Sleep

  function AfterEnqueue(q: QueueState, t: Token): QueueState {
    if q.stopped then q else q.(items := q.items + [t])
  }

  function LookAt(q: QueueState): Look {
    if q.items != [] then Take(q.items[0]) else if q.stopped then Finish else Sleep
  }

  function AfterLook(q: QueueState): QueueState {
    if q.items != [] then q.(items := q.items[1..]) else q
  }

  function AfterStop(q: QueueState): QueueState {
    if q.stopped then q else QueueState([], true)
  }

  class Queue {
    var items: seq<Token>
    var stopped: bool
    ghost var closed: seq<Token>  // the sockets the queue itself has closed

    ghost function View(): QueueState
      reads this
    {
      QueueState(items, stopped)
    }

    constructor ()
      ensures View() == QueueState([], false) && closed == []
    {
      items, stopped, closed := [], false, [];
    }

    /** `enqueue`; the caller must notify one consumer afterwards exactly when `notify` holds. */
    method Enqueue(t: Token) returns (notify: bool)
      modifies this
      ensures View() == AfterEnqueue(old(View()), t)
      ensures notify <==> !old(stopped)
      ensures closed == old(closed) + (if notify then [] else [t])
    {
      if stopped {
        closed := closed + [t];
        return false;
      }
      items := items + [t];
      return true;
    }

    /** The part of `dequeue` that runs with the lock held and ends in taking, leaving or waiting. */
    method TryDequeue() returns (r: Look)
      modifies this`items
      ensures r == LookAt(old(View())) && View() == AfterLook(old(View()))
    {
      if items != [] {
        r := Take(items[0]);
        items := items[1..];
        return;
      }
      return if stopped then Finish else Sleep;
    }

    /** `stop`: what is still queued is closed in queue order; all consumers must be notified when `notifyAll` holds. */
    method Stop() returns (notifyAll: bool)
      modifies this
      ensures View() == AfterStop(old(View()))
      ensures notifyAll <==> !old(stopped)
      ensures closed == old(closed) + (if notifyAll then old(items) else [])
    {
      if stopped {
        return false;
      }
      stopped := true;
      ghost var before := closed;
      while items != []
        invariant stopped
        invariant closed + items == before + old(items)
        decreases |items|
      {
        closed := closed + [items[0]];
        items := items[1..];
      }
      return true;
    }
  }
}
