/**
 One client handle talking to one server session over byte streams, from connecting to
 reconnecting. The server sends an unsolicited welcome (`threadPool.cpp`), answers every frame but
 HEARTBEAT (`connectionWorker.cpp`), and the client takes at most one frame per call without
 comparing message ids (`eop_client.c`). Which reply a call gets is a property of the whole run.
 A connection over the limit gets an unsolicited ERROR in place of the welcome and is closed
 (`socketAcceptor.cpp`).
 */
module Alignment {
  import opened Bytes
  import opened Wire
  import opened Sessions
  import opened Resumption

  datatype Result =
    | Pending
    | GaveUp                  // no frame was read
    | BrokeOff                // part of a frame was read, and then the call failed
    | Discarded(m: Message)   // a whole frame was read, and then no memory was left for the response
    | Returned(m: Message)

  predicate TookFrame(r: Result) {
    r.Discarded? || r.Returned?
  }

  /** A call that put its request on the wire; `serial` is the value of the handle's id counter before it was cut to
      32 bits. */
  datatype Call = Call(serial: nat, request: Message, result: Result)

  datatype State = State(
    issued: nat,            // ids handed out since eop_connect; next_msg_id is this modulo 2^32
    calls: seq<Call>,       // on the current connection
    toServer: seq<Byte>, toClient: seq<Byte>,
    served: nat,            // requests the server has read
    out: seq<Message>,      // frames the server has sent: the greeting, then the replies
    position: nat,          // bytes the client has read
    gone: bool)             // the server has closed its end

  datatype Action =
    | Reconnect
    | Welcome(id: U32, payload: seq<Byte>)
    | Refuse(payload: seq<Byte>)
    | StartCall(kind: Byte, payload: seq<Byte>)
    | WasteId                                    // a call that fails before it sends anything
    | Serve(kind: Byte, payload: seq<Byte>)      // the session reads one frame and answers if it must
    | ServerCloses
    | Return                                     // the pending call reads one whole frame
    | Discard                                    // it does, and cannot allocate the response
    | BreakOff(k: nat)                           // it fails after reading k bytes
    | GiveUp                                     // the pending call fails before it reads the first byte of a frame

  predicate Waiting(st: State) {
    st.calls != [] && st.calls[|st.calls| - 1].result.Pending?
  }

  function NextRequest(st: State, kind: Byte, payload: seq<Byte>): Message {
    Message(kind, Low32(st.issued), payload)
  }

  /** A call can fail after `k` bytes of what it finds: short of a header, at a header it refuses, or short of the
      payload that the header declares. */
  predicate CanStopAt(b: seq<Byte>, k: nat) {
    && 0 < k <= |b|
    && (|| k < HEAD_SIZE
        || (b[4] != PROTOCOL_VERSION && k == HEAD_SIZE)
        || (b[4] == PROTOCOL_VERSION && k < HEAD_SIZE + PayloadLength(b)))
  }

  predicate Enabled(st: State, a: Action) {
    match a
    case Reconnect => !Waiting(st)
    case Welcome(id, payload) => st.out == [] && !st.gone && Frameable(Message(ACK, id, payload))
    case Refuse(payload) => st.out == [] && !st.gone && Frameable(Message(ERROR_MSG, 0, payload))
    case StartCall(kind, payload) =>
      !Waiting(st) && REGISTER <= kind <= EDGE_TELEMETRY && Frameable(NextRequest(st, kind, payload))
    case WasteId => !Waiting(st)
    case Serve(kind, payload) =>
      && st.out != [] && !st.gone && ServerParse(st.toServer, Timeout).Got?
      && kind in {ACK, ERROR_MSG} && Frameable(Message(kind, 0, payload))
    case ServerCloses => !st.gone
    case Return => Waiting(st) && ClientParse(st.toClient, Timeout).Got?
    case Discard => Waiting(st) && ClientParse(st.toClient, Timeout).Got?
    case BreakOff(k) => Waiting(st) && CanStopAt(st.toClient, k)
    case GiveUp => Waiting(st)
  }

  /** A new connection; the id counter belongs to the handle and goes on. */
  function Fresh(issued: nat): State {
    State(issued, [], [], [], 0, [], 0, false)
  }

  /** The server's first frame. */
  function Greet(st: State, m: Message): State
    requires Frameable(m)
  {
    st.(out := [m], toClient := st.toClient + Frame(m))
  }

  /** The pending call takes the next frame; whether it can hand it over is another matter. */
  function Take(st: State, handOver: bool): State
    requires Waiting(st) && ClientParse(st.toClient, Timeout).Got?
  {
    var m := ClientParse(st.toClient, Timeout).m;
    Reads(st, ClientConsumed(st.toClient), if handOver then Returned(m) else Discarded(m))
  }

  /** The pending call ends with `r` after reading `k` bytes. */
  function Reads(st: State, k: nat, r: Result): State
    requires Waiting(st) && k <= |st.toClient|
  {
    st.(calls := Finish(st.calls, r), toClient := st.toClient[k..], position := st.position + k)
  }

  function Finish(calls: seq<Call>, r: Result): seq<Call>
    requires calls != []
  {
    calls[..|calls| - 1] + [calls[|calls| - 1].(result := r)]
  }

  function Do(st: State, a: Action): State
    requires Enabled(st, a)
  {
    match a
    case Reconnect => Fresh(st.issued)
    case Welcome(id, payload) => Greet(st, Message(ACK, id, payload))
    case Refuse(payload) => Greet(st, Message(ERROR_MSG, 0, payload)).(gone := true)
    case StartCall(kind, payload) =>
      var m := NextRequest(st, kind, payload);
      st.(issued := st.issued + 1, calls := st.calls + [Call(st.issued, m, Pending)],
          toServer := st.toServer + Frame(m))
    case WasteId => st.(issued := st.issued + 1)
    case Serve(kind, payload) =>
      var m := ServerParse(st.toServer, Timeout).m;
      var reply := Message(kind, m.id, payload);
      var st' := st.(toServer := st.toServer[ServerConsumed(st.toServer)..], served := st.served + 1);
      if m.kind == HEARTBEAT then st' else st'.(out := st.out + [reply], toClient := st.toClient + Frame(reply))
    case ServerCloses => st.(gone := true)
    case Return => Take(st, true)
    case Discard => Take(st, false)
    case BreakOff(k) => Reads(st, k, BrokeOff)
    case GiveUp => Reads(st, 0, GaveUp)
  }

  function Init(): State {
    Fresh(0)
  }

  datatype Outcome = At(st: State) | Impossible

  function Run(acts: seq<Action>): Outcome {
    if acts == [] then At(Init())
    else
      var before := Run(acts[..|acts| - 1]);
      if before.At? && Enabled(before.st, acts[|acts| - 1])
      then At(Do(before.st, acts[|acts| - 1]))
      else Impossible
  }

  // ---- What the calls amount to ----

  function Requests(calls: seq<Call>): (ms: seq<Message>)
    ensures |ms| == |calls|
  {
    if calls == [] then [] else Requests(calls[..|calls| - 1]) + [calls[|calls| - 1].request]
  }

  /** The frames taken off the connection so far, in call order. */
  function FramesTaken(calls: seq<Call>): seq<Message> {
    if calls == [] then []
    else
      var earlier, c := FramesTaken(calls[..|calls| - 1]), calls[|calls| - 1];
      if TookFrame(c.result) then earlier + [c.result.m] else earlier
  }

  // ---- The invariant ----

  /** What the server still has to read is the tail of the requests; it has sent the greeting and one reply for each
      question it has read, with that question's id. */
  ghost predicate ServerSide(st: State) {
    var requests := Requests(st.calls);
    && st.served <= |requests|
    && AllFrameable(requests) && st.toServer == Encode(requests[st.served..])
    && (st.out == [] ==> st.served == 0)
    && (st.out != [] ==> Answered(st.out, Questions(requests[..st.served])))
  }

  predicate Answered(out: seq<Message>, questions: seq<Message>) {
    && |out| == 1 + |questions|
    && forall k :: 0 <= k < |questions| ==> out[1 + k].id == questions[k].id
  }

  /** The calls before the first that broke off. */
  function Whole(calls: seq<Call>): (w: seq<Call>)
    ensures |w| <= |calls| && w == calls[..|w|]
  {
    if calls == [] then []
    else
      var last := |calls| - 1;
      if Unbroken(calls[..last]) && !calls[last].result.BrokeOff? then calls else Whole(calls[..last])
  }

  predicate Unbroken(calls: seq<Call>) {
    forall i :: 0 <= i < |calls| ==> !calls[i].result.BrokeOff?
  }

  /** Whatever the calls came to, the client has read the first `position` bytes of what was sent. */
  ghost predicate StreamSide(out: seq<Message>, position: nat, toClient: seq<Byte>) {
    && AllFrameable(out)
    && position <= |Encode(out)| && toClient == Encode(out)[position..]
  }

  /** The client has read `k` bytes beyond where frame `n` begins. */
  ghost predicate StandsAt(st: State, n: nat, k: nat) {
    AllFrameable(st.out) && n <= |st.out| && st.position == Boundary(st.out, n) + k
  }

  /** Up to the first call that breaks off the frames taken are those sent, in order; and until then the client is
      between two frames. */
  ghost predicate ClientSide(calls: seq<Call>, out: seq<Message>, position: nat)
    requires AllFrameable(out)
  {
    var taken := FramesTaken(Whole(calls));
    && NeverAhead(Whole(calls))
    && |taken| <= |out| && taken == out[..|taken|]
    && (Unbroken(calls) ==> position == Boundary(out, |taken|))
  }

  /** No call takes a frame that was caused by a later call. */
  ghost predicate NeverAhead(calls: seq<Call>) {
    calls != [] ==>
      var earlier := calls[..|calls| - 1];
      && NeverAhead(earlier)
      && (TookFrame(calls[|calls| - 1].result) ==> |FramesTaken(earlier)| <= |Questions(Requests(calls))|)
  }

  predicate IdsAscend(issued: nat, calls: seq<Call>) {
    && (forall i :: 0 <= i < |calls| ==> calls[i].serial < issued && calls[i].request.id == Low32(calls[i].serial))
    && (forall i, j :: 0 <= i < j < |calls| ==> calls[i].serial < calls[j].serial)
  }

  ghost predicate Inv(st: State) {
    && ServerSide(st)
    && StreamSide(st.out, st.position, st.toClient)
    && ClientSide(st.calls, st.out, st.position)
    && IdsAscend(st.issued, st.calls)
  }
}
