/** The per-connection loop (`connectionWorker.cpp`) and the handlers it dispatches to, running on a socket. */
module ConnectionWorker {
  import opened Bytes
  import opened Wire
  import opened Sockets
  import opened NodeRegistry
  import opened Sessions
  import MessageSerializer

  datatype DisconnectReason = IdleTimeout | CleanDisconnect | AbruptDisconnect | RecvError | SocketConfigError

  /** What the wire holds once `attempted` has been handed to `sendAll`, frame by frame, over a connection that takes
      `budget` bytes before it first refuses: everything while that suffices, and then it takes `left` more; otherwise
      the first `budget` bytes are there and some later ones are missing. */
  ghost predicate OnWire(before: seq<Byte>, budget: nat, attempted: seq<Message>, sent: seq<Byte>, left: nat) {
    && AllFrameable(attempted)
    && var bytes := Encode(attempted);
    && (|bytes| <= budget ==> sent == before + bytes && left == budget - |bytes|)
    && (|bytes| > budget ==> before + bytes[..budget] <= sent && |sent| < |before| + |bytes|)
  }

  lemma OneMoreOnWire(before: seq<Byte>, budget: nat, attempted: seq<Message>, sent: seq<Byte>, left: nat,
                      m: Message, sent': seq<Byte>, left': nat)
    requires OnWire(before, budget, attempted, sent, left) && Frameable(m)
    requires sent' == sent + Frame(m)[..Min(|Frame(m)|, left)]
    requires |Frame(m)| <= left ==> left' == left - |Frame(m)|
    ensures OnWire(before, budget, attempted + [m], sent', left')
  {
    hide Frame;
    var bytes, frame := Encode(attempted), Frame(m);
    EncodeAppend(attempted, m);
    if |bytes| > budget {
      assert (bytes + frame)[..budget] == bytes[..budget];
    } else if |frame| <= left {
      Associate(before, bytes, frame);
    } else {
      assert (bytes + frame)[..budget] == bytes + frame[..left];
      Associate(before, bytes, frame[..left]);
    }
  }

  /** The sending side of one connection. `attempted` is every reply the handlers make; they ignore what `sendAll`
      returns. A reply too large for the 32-bit lengths of a frame has no defined effect in the original, so what is
      said of the wire holds as long as there has been none. */
  class Outbox {
    const sock: Socket
    const codec: Codec
    ghost const before: seq<Byte>  // on the wire already
    ghost const budget: nat        // bytes the connection takes before it first refuses
    ghost var attempted: seq<Message>

    ghost predicate Valid()
      reads this, sock`sent, sock`departures
    {
      AllFrameable(attempted) ==> OnWire(before, budget, attempted, sock.sent, Accepted(sock.departures, true))
    }

    constructor (sock: Socket, codec: Codec)
      ensures Valid() && this.sock == sock && this.codec == codec && attempted == []
      ensures before == sock.sent && budget == Accepted(sock.departures, true)
    {
      this.sock, this.codec := sock, codec;
      before, budget, attempted := sock.sent, Accepted(sock.departures, true), [];
    }

    method Answer(id: U32, r: Reply)
      requires Valid()
      modifies this`attempted, sock`departures, sock`sent
      ensures Valid()
      ensures attempted == old(attempted) + [ReplyMessage(codec, id, r)]
    {
      hide OnWire, Encode, Frame, Accepted;
      var m := ReplyMessage(codec, id, r);
      ghost var earlier := attempted;
      attempted := attempted + [m];
      FrameableAppend(earlier, m);
      if Frameable(m) {
        var frame := MessageSerializer.BuildFrame(m.kind, m.id, m.payload);
        assert frame[..] == Frame(m);
        var _ := MessageSerializer.SendAll(sock, frame[..]);
        if AllFrameable(earlier) {
          OneMoreOnWire(before, budget, earlier, old(sock.sent), Accepted(old(sock.departures), true),
                        m, sock.sent, Accepted(sock.departures, true));
        }
      }
    }
  }

  method HandleRegister(registry: Registry, out: Outbox, id: U32, doc: Json)
    requires registry.Valid() && out.Valid()
    modifies registry, out, out.sock`departures, out.sock`sent
    ensures registry.Valid() && out.Valid()
    ensures registry.entries == AfterRegisterMessage(old(registry.entries), doc)
    ensures out.attempted ==
            old(out.attempted) + [ReplyMessage(out.codec, id, RegisterReply(old(registry.entries), doc))]
  {
    if doc.NotJson? {
      out.Answer(id, ErrorReply(MalformedMessage));
      return;
    }
    if !WellFormed(doc) {
      out.Answer(id, ErrorReply(MalformedMessage));
      return;
    }
    var result := registry.RegisterNode(RequestedEntry(doc));
    if result == RegisterOk {
      out.Answer(id, RegisterAck(doc.nodeId.s));
    } else {
      out.Answer(id, ErrorReply(DuplicateNode));
    }
  }

  method HandleQueryNode(registry: Registry, out: Outbox, id: U32, doc: Json)
    requires out.Valid()
    modifies out, out.sock`departures, out.sock`sent
    ensures out.Valid()
    ensures out.attempted == old(out.attempted) + [ReplyMessage(out.codec, id, QueryReply(registry.entries, doc))]
  {
    if doc.NotJson? || !doc.nodeId.Str? {
      out.Answer(id, ErrorReply(MalformedMessage));
      return;
    }
    var entry := registry.QueryNode(doc.nodeId.s);
    if entry.NotFound? {
      out.Answer(id, ErrorReply(UnknownNode));
    } else {
      out.Answer(id, NodeAck(entry.entry));
    }
  }

  method HandleListNodes(registry: Registry, out: Outbox, id: U32) returns (ghost nodes: seq<NodeEntry>)
    requires registry.Valid() && out.Valid()
    modifies out, out.sock`departures, out.sock`sent
    ensures out.Valid()
    ensures Snapshot(registry.entries, nodes)
    ensures out.attempted == old(out.attempted) + [ReplyMessage(out.codec, id, NodesAck(nodes))]
  {
    var entries := registry.ListNodes();
    out.Answer(id, NodesAck(entries));
    nodes := entries;
  }

  /** One frame through the dispatch; the ghost result records what happened. */
  method Dispatch(registry: Registry, out: Outbox, active: string, msg: Message, now: Time)
    returns (newActive: string, ghost x: Exchange)
    requires registry.Valid() && out.Valid()
    modifies registry, out, out.sock`departures, out.sock`sent
    ensures registry.Valid() && out.Valid()
    ensures Handled(out.codec, x)
    ensures x.msg == msg && x.before == old(registry.entries) && x.after == registry.entries
    ensures x.now == now && x.activeBefore == active && x.activeAfter == newActive
    ensures out.attempted == old(out.attempted) + ReplyMessages(out.codec, msg.id, x.replies)
  {
    ghost var before := registry.entries;
    ghost var replies: seq<Reply> := [];
    newActive := active;
    if msg.kind == REGISTER {
      var doc := out.codec.parse(msg.payload);
      newActive := NamedBy(doc, active);
      HandleRegister(registry, out, msg.id, doc);
      replies := [RegisterReply(before, doc)];
    } else if msg.kind == QUERY_NODE {
      var doc := out.codec.parse(msg.payload);
      HandleQueryNode(registry, out, msg.id, doc);
      replies := [QueryReply(before, doc)];
    } else if msg.kind == LIST_NODES {
      ghost var nodes := HandleListNodes(registry, out, msg.id);
      replies := [NodesAck(nodes)];
    } else if msg.kind == HEARTBEAT {
      var _ := registry.UpdateLastSeen(active, now);
    } else {
      out.Answer(msg.id, ErrorReply(MalformedMessage));
      replies := [ErrorReply(MalformedMessage)];
    }
    x := Exchange(msg, now, before, registry.entries, active, newActive, replies);
    HandledRepliesOnce(out.codec, x);
  }

  /** What everybody else does to the registry before the session's k-th access, in some run. */
  type Interference = (nat, Entries) -> Entries

  ghost predicate KeepsKeys(others: Interference) {
    forall k: nat, m: Entries :: WellKeyed(m) ==> WellKeyed(others(k, m))
  }

  /** Every frame finds the registry as the previous one left it, changed by the others. */
  ghost predicate Interleaved(xs: seq<Exchange>, start: Entries, others: Interference) {
    xs != [] ==>
      var earlier := xs[..|xs| - 1];
      && Interleaved(earlier, start, others)
      && xs[|xs| - 1].before == others(|earlier|, FinalEntries(earlier, start))
  }

  ghost function FinalEntries(xs: seq<Exchange>, start: Entries): Entries {
    if xs == [] then start else xs[|xs| - 1].after
  }

  /** What the loop has done so far: the frames `xs`, nothing else. */
  ghost predicate Served(codec: Codec, xs: seq<Exchange>, nodeId: string, start: Entries, others: Interference,
                         entries: Entries, active: string, attempted: seq<Message>)
  {
    && Transcript(codec, xs, nodeId) && Interleaved(xs, start, others)
    && entries == FinalEntries(xs, start)
    && active == FinalActive(xs, nodeId)
    && attempted == RepliesSent(codec, xs)
  }

  lemma NothingServed(codec: Codec, nodeId: string, start: Entries, others: Interference)
    ensures Served(codec, [], nodeId, start, others, start, nodeId, [])
    ensures FramesRead([]) == []
  {
  }

  lemma ServeOneMore(codec: Codec, xs: seq<Exchange>, nodeId: string, start: Entries, others: Interference,
                     entries: Entries, attempted: seq<Message>, x: Exchange)
    requires Served(codec, xs, nodeId, start, others, entries, x.activeBefore, attempted)
    requires Handled(codec, x) && x.before == others(|xs|, entries)
    ensures Served(codec, xs + [x], nodeId, start, others, x.after, x.activeAfter,
                   attempted + ReplyMessages(codec, x.msg.id, x.replies))
    ensures FramesRead(xs + [x]) == FramesRead(xs) + [x.msg]
  {
    hide Handled, ReplyMessages, ReplyMessage;
    var ys := xs + [x];
    assert ys != [] && ys[..|ys| - 1] == xs && ys[|ys| - 1] == x;
  }

  /** The read-and-dispatch loop. It handles exactly the frames that the byte stream contains and stops at the first
      read that is not OK, whatever others do to the registry in between. */
  method Serve(registry: Registry, out: Outbox, nodeId: string, clock: nat -> Time, others: Interference)
    returns (active: string, handled: nat, status: Status, ghost xs: seq<Exchange>)
    requires registry.Valid() && out.Valid() && out.attempted == [] && KeepsKeys(others)
    modifies registry, out, out.sock
    ensures registry.Valid() && out.Valid()
    ensures Served(out.codec, xs, nodeId, old(registry.entries), others, registry.entries, active, out.attempted)
    ensures handled == |xs| && forall i :: 0 <= i < |xs| ==> xs[i].now == clock(i)
    ensures ServerReadAll(Available(old(out.sock.arrivals), true), Ending(old(out.sock.arrivals), true))
            == (FramesRead(xs), status)
  {
    hide OnWire, Accepted, Served, Handled, ReadSoFar, ServerParse, ServerConsumed, ServerReadAll, FramesRead;
    hide Available, Ending, ReplyMessages, AllFrameable;
    ghost var bytes, ending := Available(out.sock.arrivals, true), Ending(out.sock.arrivals, true);
    active, handled, xs, status := nodeId, 0, [], PeerClosed;
    ReadNothingYet(bytes, ending);
    NothingServed(out.codec, nodeId, registry.entries, others);
    while true
      invariant registry.Valid() && out.Valid()
      invariant Served(out.codec, xs, nodeId, old(registry.entries), others, registry.entries, active, out.attempted)
      invariant handled == |xs| && forall i :: 0 <= i < |xs| ==> xs[i].now == clock(i)
      invariant ReadSoFar(bytes, ending, FramesRead(xs), Available(out.sock.arrivals, true))
      invariant Ending(out.sock.arrivals, true) == ending
      decreases |Available(out.sock.arrivals, true)|
    {
      ReadOneMore(bytes, ending, FramesRead(xs), Available(out.sock.arrivals, true));
      var result := MessageSerializer.ReadFrame(out.sock);
      if result.Failed? {
        status := result.status;
        break;
      }
      ghost var x, entries, attempted := *, registry.entries, out.attempted;
      registry.entries := others(handled, registry.entries);
      active, x := Dispatch(registry, out, active, result.m, clock(handled));
      ServeOneMore(out.codec, xs, nodeId, old(registry.entries), others, entries, attempted, x);
      xs := xs + [x];
      handled := handled + 1;
    }
  }

  function ReasonOf(status: Status, connReset: bool): DisconnectReason {
    match status
    case PeerClosed => CleanDisconnect
    case Timeout => IdleTimeout
    case IoError => if connReset then AbruptDisconnect else RecvError
  }

  /** Why a session ends, by the event that ends its stream: the peer shutting down is a clean disconnect, silence
      an idle timeout, and a failed receive an abrupt disconnect if the connection was reset and an error otherwise; the
      frames before are handled, and one that was cut short is not. */
  lemma EventGivesReason(ms: seq<Message>, m: Message, k: nat, before: seq<RecvEvent>, stop: RecvEvent,
                         after: seq<RecvEvent>, connReset: bool)
    requires AllFrameable(ms) && forall i :: 0 <= i < |ms| ==> |ms[i].payload| <= MAX_FRAME_PAYLOAD
    requires Frameable(m) && |m.payload| <= MAX_FRAME_PAYLOAD && k < |Frame(m)|
    requires MessageSerializer.ErrorFree(before) && MessageSerializer.DataOf(before) == Encode(ms) + Frame(m)[..k]
    requires stop.WouldBlock? || stop.Fault?
    ensures Arriving(before).0 == ms && ReasonOf(Arriving(before).1, connReset) == CleanDisconnect
    ensures var stopped := Arriving(before + [stop] + after);
            && stopped.0 == ms
            && ReasonOf(stopped.1, connReset) == if stop.WouldBlock? then IdleTimeout
                                                 else if connReset then AbruptDisconnect
                                                 else RecvError
  {
    hide Frame, Encode, ServerReadAll, Available, Ending;
    MessageSerializer.ErrorFreeDeliversAll(before);
    StreamCutShort(ms, m, k, PeerClosed);
    MessageSerializer.FirstStopDecides(before, stop, after);
    StreamCutShort(ms, m, k, if stop.WouldBlock? then Timeout else IoError);
  }

  /** The whole session among others: its replies are one per question in the stream, each heartbeat takes effect at its
      own time, and the node named last is taken OFFLINE on the way out. All replies reach the wire if and only if the
      connection takes that many bytes before it first refuses. The effects are promised as long as every reply can be
      framed. */
  method HandleConnection(registry: Registry, sock: Socket, codec: Codec, nodeId: string, configured: bool,
                          connReset: bool, clock: nat -> Time, others: Interference)
    returns (reason: DisconnectReason, ghost xs: seq<Exchange>, ghost attempted: seq<Message>)
    requires registry.Valid() && KeepsKeys(others)
    modifies registry, sock
    ensures registry.Valid()
    ensures Transcript(codec, xs, nodeId) && Interleaved(xs, old(registry.entries), others)
    ensures forall i :: 0 <= i < |xs| ==> xs[i].now == clock(i)
    ensures attempted == RepliesSent(codec, xs)
    ensures FramesRead(xs) == if configured then Arriving(old(sock.arrivals)).0 else []
    ensures AllFrameable(attempted) ==>
              var bytes, budget := Encode(attempted), Accepted(old(sock.departures), true);
              && (sock.sent == old(sock.sent) + bytes <==> |bytes| <= budget)
              && old(sock.sent) + bytes[..Min(|bytes|, budget)] <= sock.sent
    ensures AllFrameable(attempted) ==>
              && registry.entries == AfterSetOffline(others(|xs|, FinalEntries(xs, old(registry.entries))),
                                                     FinalActive(xs, nodeId), clock(|xs|))
              && reason == if configured then ReasonOf(Arriving(old(sock.arrivals)).1, connReset) else SocketConfigError
  {
    hide Handled, Transcript, Interleaved, ServerReadAll, Available, Ending, RepliesSent, Accepted, OnWire;
    hide AllFrameable;
    var out := new Outbox(sock, codec);
    var active, handled, status;
    if !configured {
      NothingServed(codec, nodeId, registry.entries, others);
      WireHolds(sock.sent, Accepted(sock.departures, true), [], sock.sent, Accepted(sock.departures, true));
      registry.entries := others(0, registry.entries);
      registry.SetOffline(nodeId, clock(0));
      return SocketConfigError, [], [];
    }
    active, handled, status, xs := Serve(registry, out, nodeId, clock, others);
    WireHolds(old(sock.sent), Accepted(old(sock.departures), true), out.attempted,
              sock.sent, Accepted(sock.departures, true));
    registry.entries := others(handled, registry.entries);
    registry.SetOffline(active, clock(handled));
    return ReasonOf(status, connReset), xs, out.attempted;
  }

  /** The frames a connection delivers to the session, and how it ends. */
  function Arriving(script: seq<RecvEvent>): (seq<Message>, Status) {
    ServerReadAll(Available(script, true), Ending(script, true))
  }

  lemma WireHolds(before: seq<Byte>, budget: nat, attempted: seq<Message>, sent: seq<Byte>, left: nat)
    requires AllFrameable(attempted) ==> OnWire(before, budget, attempted, sent, left)
    ensures AllFrameable(attempted) ==>
              var bytes := Encode(attempted);
              && (sent == before + bytes <==> |bytes| <= budget)
              && before + bytes[..Min(|bytes|, budget)] <= sent
  {
    if AllFrameable(attempted) {
      var bytes := Encode(attempted);
      assert |bytes| <= budget ==> bytes[..|bytes|] == bytes;
    }
  }
}
