/**
 The client handle (`eop_client.c`): every exit path of connect, send, reconnect and disconnect, with
 the heap blocks, descriptors and mutex they take and give back. What the operating system does is
 fixed by the arguments: whether allocations succeed, how dialling goes, how the stream behaves.
 */
module EopClient {
  import opened Bytes
  import opened Wire
  import opened Sockets
  import opened ClientEnvelope
  import MessageSerializer

  datatype Option<T> = None | Some(value: T)

  const CLOSED: int := -1

  /** Whether the next allocation succeeds. */
  predicate Grants(memory: seq<bool>) {
    memory != [] && memory[0]
  }

  /** What is left for the allocations after it. */
  function Spent(memory: seq<bool>): seq<bool> {
    if memory == [] then [] else memory[1..]
  }

  /** What the process holds. Freeing or closing something it does not hold has no meaning here, so every caller must
      show that it never happens. */
  class Process {
    var blocks: set<nat>       // live heap blocks
    var nextBlock: nat
    var fds: set<int>          // open descriptors
    var nextFd: int
    var memory: seq<bool>      // whether the coming allocations succeed; once used up, none does

    ghost predicate Valid()
      reads this
    {
      && (forall b <- blocks :: b < nextBlock)
      && (forall fd <- fds :: 0 <= fd < nextFd) && 0 <= nextFd
    }

    constructor (memory: seq<bool>)
      ensures Valid() && blocks == {} && fds == {} && this.memory == memory
    {
      blocks, nextBlock, fds, nextFd := {}, 0, {}, 0;
      this.memory := memory;
    }

    method Malloc() returns (b: Option<nat>)
      requires Valid()
      modifies this`blocks, this`nextBlock, this`memory
      ensures Valid() && old(nextBlock) <= nextBlock
      ensures b.Some? <==> Grants(old(memory))
      ensures memory == Spent(old(memory))
      ensures b.None? ==> blocks == old(blocks)
      ensures b.Some? ==> b.value !in old(blocks) && old(nextBlock) <= b.value && blocks == old(blocks) + {b.value}
    {
      var ok := Grants(memory);
      memory := Spent(memory);
      if !ok {
        return None;
      }
      b := Some(nextBlock);
      blocks, nextBlock := blocks + {nextBlock}, nextBlock + 1;
    }

    method Free(b: nat)
      requires Valid() && b in blocks
      modifies this`blocks
      ensures Valid() && blocks == old(blocks) - {b}
    {
      blocks := blocks - {b};
    }

    method OpenSocket() returns (fd: int)
      requires Valid()
      modifies this`fds, this`nextFd
      ensures Valid() && fd != CLOSED && fd !in old(fds) && fds == old(fds) + {fd}
    {
      fd := nextFd;
      fds, nextFd := fds + {nextFd}, nextFd + 1;
    }

    /** Closing descriptor -1 fails with EBADF and does nothing. */
    method Close(fd: int)
      requires Valid() && (fd == CLOSED || fd in fds)
      modifies this`fds
      ensures Valid() && fds == old(fds) - {fd}
    {
      fds := fds - {fd};
    }
  }

  datatype Poll = PollReady | PollTimeout | PollError

  /** How an attempt to connect goes. */
  datatype Dial = Dial(addressOk: bool, socketOk: bool, connectOk: bool, poll: Poll, socketErrorFree: bool)

  function DialError(d: Dial): ErrorCode {
    if !d.addressOk then ErrInvalidArgument
    else if !d.socketOk || !d.connectOk then ErrConnectFailed
    else if d.poll == PollTimeout then ErrTimeout
    else if d.poll == PollError || !d.socketErrorFree then ErrConnectFailed
    else EopOk
  }

  /** Dialling succeeds if and only if all five stages do, and each error comes at its own stage: a bad address, a
      poll that times out, or any other failure on the way, an error pending on the socket included. */
  lemma DialOutcomes(d: Dial)
    ensures DialError(d) == EopOk <==>
            d.addressOk && d.socketOk && d.connectOk && d.poll == PollReady && d.socketErrorFree
    ensures DialError(d) == ErrInvalidArgument <==> !d.addressOk
    ensures DialError(d) == ErrTimeout <==> d.addressOk && d.socketOk && d.connectOk && d.poll == PollTimeout
    ensures DialError(d) == ErrConnectFailed <==>
            && d.addressOk
            && (!d.socketOk || !d.connectOk || d.poll == PollError || (d.poll == PollReady && !d.socketErrorFree))
  {
  }

  /** An `eop_response_t`: its own block, and the payload's block unless the payload is empty. */
  datatype Response = Response(block: nat, payloadBlock: Option<nat>, m: Message)

  function BlocksOf(r: Option<Response>): set<nat> {
    if r.None? then {}
    else {r.value.block} + if r.value.payloadBlock.Some? then {r.value.payloadBlock.value} else {}
  }

  /** Calls that fail before the handle exists report through a thread-local variable, not modelled. */
  class Client {
    const block: nat
    var socketFd: int
    var stream: Socket?
    var lastError: ErrorCode
    var nextMsgId: U32
    var locked: bool

    ghost predicate Valid(p: Process)
      reads this, p
    {
      Holds(p) && !locked
    }

    /** What the handle owns, whoever has the mutex. */
    ghost predicate Holds(p: Process)
      reads this, p
    {
      && p.Valid()
      && block in p.blocks
      && (socketFd == CLOSED <==> stream == null)
      && (socketFd != CLOSED ==> socketFd in p.fds)
    }

    constructor (block: nat, fd: int, stream: Socket)
      ensures this.block == block && socketFd == fd && this.stream == stream
      ensures lastError == EopOk && nextMsgId == 0 && !locked
    {
      this.block, socketFd, this.stream := block, fd, stream;
      lastError, nextMsgId, locked := EopOk, 0, false;
    }

    method Lock()
      requires !locked
      modifies this`locked
      ensures locked
    {
      locked := true;
    }

    method Unlock()
      requires locked
      modifies this`locked
      ensures !locked
    {
      locked := false;
    }

    method SetError(code: ErrorCode)
      modifies this`lastError
      ensures lastError == code
    {
      lastError := code;
    }

    /** `eop_reconnect`. Whatever happens the old socket is gone and the mutex is free again; a new socket is held
        exactly on success. */
    method Reconnect(p: Process, dial: Dial, dialled: Socket) returns (rc: ErrorCode)
      requires Valid(p)
      modifies this, p`fds, p`nextFd
      ensures Valid(p)
      ensures nextMsgId == old(nextMsgId)
      ensures rc == DialError(dial) == lastError
      ensures rc == EopOk <==>
              dial.addressOk && dial.socketOk && dial.connectOk && dial.poll == PollReady && dial.socketErrorFree
      ensures rc == EopOk ==> stream == dialled && socketFd !in old(p.fds) - {old(socketFd)}
      ensures rc != EopOk ==> socketFd == CLOSED
      ensures p.fds == old(p.fds) - {old(socketFd)} + (if rc == EopOk then {socketFd} else {})
    {
      Lock();
      p.Close(socketFd);
      socketFd, stream := CLOSED, null;
      if !dial.addressOk {
        SetError(ErrInvalidArgument);
        Unlock();
        return ErrInvalidArgument;
      }
      if !dial.socketOk {
        SetError(ErrConnectFailed);
        Unlock();
        return ErrConnectFailed;
      }
      var newFd := p.OpenSocket();
      if !dial.connectOk {
        SetError(ErrConnectFailed);
        p.Close(newFd);
        Unlock();
        return ErrConnectFailed;
      }
      if dial.poll == PollTimeout {
        SetError(ErrTimeout);
        p.Close(newFd);
        Unlock();
        return ErrTimeout;
      }
      if dial.poll == PollError {
        SetError(ErrConnectFailed);
        p.Close(newFd);
        Unlock();
        return ErrConnectFailed;
      }
      if !dial.socketErrorFree {
        SetError(ErrConnectFailed);
        p.Close(newFd);
        Unlock();
        return ErrConnectFailed;
      }
      socketFd, stream := newFd, dialled;
      lastError := EopOk;
      Unlock();
      return EopOk;
    }

    /** `eop_disconnect`: socket, mutex and handle are given back; the handle must not be used again. */
    method Disconnect(p: Process)
      requires Valid(p)
      modifies this, p
      ensures p.Valid()
      ensures p.blocks == old(p.blocks) - {block} && p.fds == old(p.fds) - {old(socketFd)}
    {
      p.Close(socketFd);
      p.Free(block);
    }
  }

  /** The dialling sequence of `eop_connect`; every failure after `socket` closes the descriptor. */
  method TryDial(p: Process, dial: Dial) returns (rc: ErrorCode, fd: int)
    requires p.Valid()
    modifies p`fds, p`nextFd
    ensures p.Valid() && rc == DialError(dial)
    ensures rc == EopOk <==>
            dial.addressOk && dial.socketOk && dial.connectOk && dial.poll == PollReady && dial.socketErrorFree
    ensures rc != EopOk ==> p.fds == old(p.fds)
    ensures rc == EopOk ==> fd != CLOSED && fd !in old(p.fds) && p.fds == old(p.fds) + {fd}
  {
    fd := CLOSED;
    if !dial.addressOk {
      return ErrInvalidArgument, fd;
    }
    if !dial.socketOk {
      return ErrConnectFailed, fd;
    }
    fd := p.OpenSocket();
    if !dial.connectOk {
      p.Close(fd);
      return ErrConnectFailed, fd;
    }
    if dial.poll == PollTimeout {
      p.Close(fd);
      return ErrTimeout, fd;
    }
    if dial.poll == PollError {
      p.Close(fd);
      return ErrConnectFailed, fd;
    }
    if !dial.socketErrorFree {
      p.Close(fd);
      return ErrConnectFailed, fd;
    }
    return EopOk, fd;
  }

  /** What connecting comes to. */
  function ConnectVerdict(hostGiven: bool, port: int, dial: Dial, memory: seq<bool>): ErrorCode {
    if !hostGiven || port < 1 || port > 65535 then ErrInvalidArgument
    else if !Grants(memory) then ErrAlloc
    else DialError(dial)
  }

  /** `eop_connect`: on success the handle holds one block and one socket, on failure nothing is held. */
  method Connect(p: Process, hostGiven: bool, port: int, dial: Dial, stream: Socket)
    returns (client: Client?, rc: ErrorCode)
    requires p.Valid()
    modifies p
    ensures p.Valid()
    ensures client != null <==> rc == EopOk
    ensures client == null ==> p.blocks == old(p.blocks) && p.fds == old(p.fds)
    ensures client != null ==>
              && fresh(client) && client.Valid(p)
              && p.blocks == old(p.blocks) + {client.block} && client.block !in old(p.blocks)
              && p.fds == old(p.fds) + {client.socketFd} && client.socketFd !in old(p.fds)
              && client.nextMsgId == 0 && client.stream == stream
    ensures rc == ConnectVerdict(hostGiven, port, dial, old(p.memory))
    ensures client != null <==>
            && hostGiven && 1 <= port <= 65535 && Grants(old(p.memory))
            && dial.addressOk && dial.socketOk && dial.connectOk && dial.poll == PollReady && dial.socketErrorFree
    ensures rc == ErrInvalidArgument <==>
            !hostGiven || !(1 <= port <= 65535) || (Grants(old(p.memory)) && !dial.addressOk)
    ensures rc == ErrAlloc <==> hostGiven && 1 <= port <= 65535 && !Grants(old(p.memory))
  {
    if !hostGiven {
      return null, ErrInvalidArgument;
    }
    if port < 1 || port > 65535 {
      return null, ErrInvalidArgument;
    }
    var block := p.Malloc();
    if block.None? {
      return null, ErrAlloc;
    }
    var fd;
    rc, fd := TryDial(p, dial);
    if rc != EopOk {
      p.Free(block.value);
      return null, rc;
    }
    client := new Client(block.value, fd, stream);
  }

  /** `eop_response_free`. */
  method FreeResponse(p: Process, r: Option<Response>)
    requires p.Valid() && BlocksOf(r) <= p.blocks
    requires r.Some? && r.value.payloadBlock.Some? ==> r.value.payloadBlock.value != r.value.block
    modifies p
    ensures p.Valid() && p.blocks == old(p.blocks) - BlocksOf(r) && p.fds == old(p.fds)
  {
    if r.None? {
      return;
    }
    if r.value.payloadBlock.Some? {
      p.Free(r.value.payloadBlock.value);
    }
    p.Free(r.value.block);
  }

  // ---- eop_send_command ----

  /** The error a failed read is reported as. */
  function CodeOf(status: Status): ErrorCode {
    if status == Timeout then ErrTimeout else ErrDisconnected
  }

  /** What sending a frame of `length` payload bytes comes to. */
  function SendVerdict(stream: Socket?, kind: int, length: nat, memory: seq<bool>): ErrorCode
    reads if stream == null then {} else {stream}
  {
    if !Grants(memory) then ErrAlloc
    else if !ValidKind(kind) then ErrInvalidMessageType
    else if stream == null || Accepted(stream.departures, false) < HEAD_SIZE + length then ErrDisconnected
    else EopOk
  }

  predicate DeclaresPayload(avail: seq<Byte>) {
    |avail| >= HEAD_SIZE && avail[4] == PROTOCOL_VERSION && PayloadLength(avail) > 0
  }

  /** What reading one frame comes to: a payload is allocated for as soon as the header declares one. */
  function ReplyVerdict(avail: seq<Byte>, ending: Status, memory: seq<bool>): ErrorCode {
    if |avail| < HEAD_SIZE then CodeOf(ending)
    else if avail[4] != PROTOCOL_VERSION then ErrDisconnected
    else if PayloadLength(avail) > 0 && !Grants(memory) then ErrAlloc
    else if |avail| < HEAD_SIZE + PayloadLength(avail) then CodeOf(ending)
    else EopOk
  }

  /** The two failures after which the rest of the frame is still to be read. */
  predicate StopsAfterHead(avail: seq<Byte>, memory: seq<bool>) {
    |avail| >= HEAD_SIZE && (avail[4] != PROTOCOL_VERSION || (PayloadLength(avail) > 0 && !Grants(memory)))
  }

  function AfterReply(avail: seq<Byte>, memory: seq<bool>): seq<bool> {
    if DeclaresPayload(avail) then Spent(memory) else memory
  }

  /** What the whole call comes to: a buffer is allocated and sent, one frame is read, a response is allocated. */
  function Verdict(stream: Socket?, kind: int, length: nat, memory: seq<bool>): ErrorCode
    reads if stream == null then {} else {stream}
  {
    var sending := SendVerdict(stream, kind, length, memory);
    if sending != EopOk || stream == null then sending
    else
      var avail := Available(stream.arrivals, false);
      var reading := ReplyVerdict(avail, Ending(stream.arrivals, false), Spent(memory));
      if reading != EopOk then reading
      else if Grants(AfterReply(avail, Spent(memory))) then EopOk
      else ErrAlloc
  }

  /** While memory lasts, reading succeeds if and only if the client's parser finds a frame, and fails with its
      status. */
  lemma ReplyVerdictIsParse(avail: seq<Byte>, ending: Status, memory: seq<bool>)
    ensures ReplyVerdict(avail, ending, memory) == EopOk ==> ClientParse(avail, ending).Got?
    ensures Grants(memory) ==>
              match ClientParse(avail, ending) {
                case Got(_) => ReplyVerdict(avail, ending, memory) == EopOk
                case Failed(status) => ReplyVerdict(avail, ending, memory) == CodeOf(status)
              }
  {
  }

  /** Three allocations are all a call can need: with them it succeeds if and only if the message type is valid, the
      peer takes the whole frame and a whole frame follows. */
  lemma SuccessIff(stream: Socket, kind: int, length: nat, memory: seq<bool>)
    requires |memory| >= 3 && memory[0] && memory[1] && memory[2]
    ensures Verdict(stream, kind, length, memory) == EopOk <==>
            && 1 <= kind <= 9
            && 14 + length <= Accepted(stream.departures, false)
            && ClientParse(Available(stream.arrivals, false), Ending(stream.arrivals, false)).Got?
  {
    hide ClientParse, ReplyVerdict, Available, Ending, Accepted;
    ReplyVerdictIsParse(Available(stream.arrivals, false), Ending(stream.arrivals, false), Spent(memory));
    assert CodeOf(Timeout) != EopOk && CodeOf(PeerClosed) != EopOk && CodeOf(IoError) != EopOk;
  }

  /** What every call comes to, whatever the memory does. It succeeds if and only if its frame goes out, a frame
      follows and each block it needs is granted: the buffer, the payload unless that is empty, the response. An
      invalid type is reported as such; a peer that does not take the frame, or an answer that breaks off or has
      another version, as a lost connection; an answer that does not come in time as a timeout; and all that is left
      is a lack of memory. */
  lemma CallOutcomes(stream: Socket, kind: int, length: nat, memory: seq<bool>)
    ensures !Grants(memory) ==> Verdict(stream, kind, length, memory) == ErrAlloc
    ensures Grants(memory) ==>
              var v, spare := Verdict(stream, kind, length, memory), Spent(memory);
              var avail, ending := Available(stream.arrivals, false), Ending(stream.arrivals, false);
              var wentOut := 1 <= kind <= 9 && 14 + length <= Accepted(stream.departures, false);
              var starved := ShortOfFrame(avail, spare);
              && (v == EopOk <==>
                    && wentOut && ClientParse(avail, ending).Got? && Grants(spare)
                    && (ClientParse(avail, ending).m.payload != [] ==> Grants(Spent(spare))))
              && (v == ErrInvalidMessageType <==> !(1 <= kind <= 9))
              && (v == ErrTimeout <==> wentOut && starved && ending == Timeout)
              && (v == ErrDisconnected <==>
                    1 <= kind <= 9 && (!wentOut || OtherVersion(avail) || (starved && ending != Timeout)))
              && v in {EopOk, ErrInvalidMessageType, ErrTimeout, ErrDisconnected, ErrAlloc}
  {
    hide Available, Ending, Accepted;
  }

  /** Fewer bytes arrive than the call goes on to wait for. */
  predicate ShortOfFrame(avail: seq<Byte>, memory: seq<bool>) {
    || |avail| < 14
    || (avail[4] == 1 && |avail| < 14 + Weighed(avail, 10) && Grants(memory))
  }

  predicate OtherVersion(avail: seq<Byte>) {
    |avail| >= 14 && avail[4] != 1
  }

  /** Which events count as what for a client: data is delivered up to the first event that is none, and that is a
      timeout if nothing came in time and an error otherwise, an interruption included. */
  lemma {:induction false} ClientStopDecides(before: seq<RecvEvent>, stop: RecvEvent, after: seq<RecvEvent>)
    requires (forall e <- before :: e.Data?) && !stop.Data?
    ensures Available(before, false) == MessageSerializer.DataOf(before) && Ending(before, false) == PeerClosed
    ensures Available(before + [stop] + after, false) == MessageSerializer.DataOf(before)
    ensures Ending(before + [stop] + after, false) == if stop.WouldBlock? then Timeout else IoError
  {
    var script := before + [stop] + after;
    if before == [] {
      assert script[0] == stop;
    } else {
      assert before[0] in before;
      assert script[0] == before[0] && script[1..] == before[1..] + [stop] + after;
      ClientStopDecides(before[1..], stop, after);
    }
  }

  /** What a call puts on the wire, whether it succeeds or not: the frame as far as the peer takes it, or nothing if it
      fails before that. */
  function BytesOut(kind: int, id: U32, body: seq<Byte>, departures: seq<SendEvent>, memory: seq<bool>): seq<Byte> {
    if Grants(memory) && ValidKind(kind) then
      var frame := ClientFrame(Message(kind, id, body));
      frame[..Min(|frame|, Accepted(departures, false))]
    else []
  }

  function Body(payload: array?<Byte>, length: nat): seq<Byte>
    requires payload != null ==> length <= payload.Length
    reads if payload == null then {} else {payload}
  {
    if payload == null then [] else payload[..length]
  }

  /** The send loop: partial writes are continued, any error ends it, EINTR included, and so does a closed handle. On
      failure the buffer's block and the mutex are given back. */
  method Transmit(p: Process, client: Client, data: seq<Byte>, block: nat) returns (ok: bool)
    requires p.Valid() && block in p.blocks && client.locked && data != []
    modifies p`blocks, client`lastError, client`locked
    modifies if client.stream == null then {} else {client.stream}
    ensures p.Valid() && client.locked == ok
    ensures ok <==> client.stream != null && |data| <= Accepted(old(client.stream.departures), false)
    ensures ok ==> p.blocks == old(p.blocks)
    ensures client.stream != null ==>
              client.stream.sent ==
              old(client.stream.sent) + data[..Min(|data|, Accepted(old(client.stream.departures), false))]
    ensures !ok ==> p.blocks == old(p.blocks) - {block} && client.lastError == ErrDisconnected
    ensures client.stream != null ==> client.stream.arrivals == old(client.stream.arrivals)
  {
    if client.stream == null {  // send on descriptor -1
      client.SetError(ErrDisconnected);
      p.Free(block);
      client.Unlock();
      return false;
    }
    var stream: Socket, totalSent := client.stream, 0;
    while totalSent < |data|
      invariant 0 <= totalSent <= |data| && client.locked && p.Valid() && p.blocks == old(p.blocks)
      invariant stream.sent == old(stream.sent) + data[..totalSent] && stream.arrivals == old(stream.arrivals)
      invariant totalSent + Accepted(stream.departures, false) == Accepted(old(stream.departures), false)
      decreases |data| - totalSent, |stream.departures|
    {
      var r := stream.Send(data[totalSent..]);
      if !r.Sent? {
        client.SetError(ErrDisconnected);
        p.Free(block);
        client.Unlock();
        return false;
      }
      MessageSerializer.TakeMore(data, totalSent, r.n);
      totalSent := totalSent + r.n;
    }
    return true;
  }

  /** A script that does not begin with data delivers none, and ends the way its first event says. */
  lemma NothingBefore(script: seq<RecvEvent>)
    ensures script == [] ==> Available(script, false) == [] && Ending(script, false) == PeerClosed
    ensures script != [] && !script[0].Data? ==>
              && Available(script, false) == []
              && Ending(script, false) == if script[0].WouldBlock? then Timeout else IoError
  {
  }

  /** One of the three receive loops: poll, then take what is there, until `buf` is full. On failure the mutex is given
      back, and the block of the payload being read if there is one. */
  method RecvExact(p: Process, client: Client, stream: Socket, buf: array<Byte>, block: Option<nat>) returns (ok: bool)
    requires p.Valid() && client.locked && (block.Some? ==> block.value in p.blocks)
    modifies p`blocks, client`lastError, client`locked, stream`arrivals, buf
    ensures p.Valid() && client.locked == ok
    ensures ok <==> |Available(old(stream.arrivals), false)| >= buf.Length
    ensures ok ==>
              && p.blocks == old(p.blocks)
              && buf[..] == Available(old(stream.arrivals), false)[..buf.Length]
              && Available(stream.arrivals, false) == Available(old(stream.arrivals), false)[buf.Length..]
              && Ending(stream.arrivals, false) == Ending(old(stream.arrivals), false)
    ensures !ok ==>
              && client.lastError == CodeOf(Ending(old(stream.arrivals), false))
              && p.blocks == old(p.blocks) - if block.Some? then {block.value} else {}
  {
    hide Available, Ending;
    ghost var avail := Available(stream.arrivals, false);
    var received := 0;
    while received < buf.Length
      invariant 0 <= received <= buf.Length && client.locked && p.Valid() && p.blocks == old(p.blocks)
      invariant buf[..received] + Available(stream.arrivals, false) == avail
      invariant Ending(stream.arrivals, false) == Ending(old(stream.arrivals), false)
    {
      NothingBefore(stream.arrivals);
      var r := stream.Recv(buf.Length - received);
      match r
      case Received(bytes) =>
        Associate(buf[..received], bytes, Available(stream.arrivals, false));
        MessageSerializer.Copy(buf, received, bytes);
        received := received + |bytes|;
      case NothingYet =>
        GiveBack(p, client, ErrTimeout, block);
        return false;
      case Interrupted =>
        GiveBack(p, client, ErrDisconnected, block);
        return false;
      case EndOfStream =>
        GiveBack(p, client, ErrDisconnected, block);
        return false;
      case Broken =>
        GiveBack(p, client, ErrDisconnected, block);
        return false;
    }
    assert buf[..] == buf[..received];
    return true;
  }

  /** The statements that end every failing path on which a block may have to be freed. */
  method GiveBack(p: Process, client: Client, code: ErrorCode, block: Option<nat>)
    requires p.Valid() && client.locked && (block.Some? ==> block.value in p.blocks)
    modifies p`blocks, client`lastError, client`locked
    ensures p.Valid() && !client.locked && client.lastError == code
    ensures p.blocks == old(p.blocks) - if block.Some? then {block.value} else {}
  {
    client.SetError(code);
    if block.Some? {
      p.Free(block.value);
    }
    client.Unlock();
  }

  /** The three receive phases. Either the frame ClientParse finds is handed over together with the block of its
      payload and the mutex is still held, or nothing is kept. */
  method ReceiveReply(p: Process, client: Client, stream: Socket)
    returns (rc: ErrorCode, m: Message, payloadBlock: Option<nat>)
    requires p.Valid() && client.locked
    modifies p`blocks, p`nextBlock, p`memory, client`lastError, client`locked, stream`arrivals
    ensures p.Valid() && old(p.nextBlock) <= p.nextBlock
    ensures rc == EopOk <==> client.locked
    ensures rc != EopOk ==> client.lastError == rc && payloadBlock.None?
    ensures payloadBlock.None? ==> p.blocks == old(p.blocks)
    ensures payloadBlock.Some? ==>
              payloadBlock.value !in old(p.blocks) && p.blocks == old(p.blocks) + {payloadBlock.value}
    ensures var avail, ending := Available(old(stream.arrivals), false), Ending(old(stream.arrivals), false);
            && rc == ReplyVerdict(avail, ending, old(p.memory))
            && (StopsAfterHead(avail, old(p.memory)) ==> Available(stream.arrivals, false) == avail[HEAD_SIZE..])
            && (rc == EopOk ==>
                  && ClientParse(avail, ending) == Got(m)
                  && (payloadBlock.None? <==> m.payload == [])
                  && Available(stream.arrivals, false) == avail[ClientConsumed(avail)..]
                  && p.memory == AfterReply(avail, old(p.memory)))
  {
    hide BigEndian, FromBigEndian, Available, Ending;
    ghost var avail := Available(stream.arrivals, false);
    m, payloadBlock := Message(0, 0, []), None;
    var prefix, header := new Byte[PREFIX_SIZE], new Byte[ENVELOPE_SIZE];
    var ok := RecvExact(p, client, stream, prefix, None);
    if !ok {
      return client.lastError, m, None;
    }
    ok := RecvExact(p, client, stream, header, None);
    if !ok {
      return client.lastError, m, None;
    }
    HeaderBytes(avail, header[..]);
    if header[0] != PROTOCOL_VERSION {
      client.SetError(ErrDisconnected);
      client.Unlock();
      return ErrDisconnected, m, None;
    }
    assert header[2..6] == header[..][2..6] && header[6..10] == header[..][6..10];
    var id, payloadLen := FromBigEndian(header[2..6]), FromBigEndian(header[6..10]);
    var payload;
    rc, payload, payloadBlock := ReceivePayload(p, client, stream, payloadLen);
    PayloadBytes(avail, payloadLen);
    m := Message(header[1], id, payload);
  }

  /** Phase 2: a block for the payload, kept only if the whole payload arrives. */
  method ReceivePayload(p: Process, client: Client, stream: Socket, payloadLen: U32)
    returns (rc: ErrorCode, payload: seq<Byte>, payloadBlock: Option<nat>)
    requires p.Valid() && client.locked
    modifies p`blocks, p`nextBlock, p`memory, client`lastError, client`locked, stream`arrivals
    ensures p.Valid() && old(p.nextBlock) <= p.nextBlock
    ensures rc == EopOk <==> client.locked
    ensures rc != EopOk ==> client.lastError == rc && payloadBlock.None?
    ensures payloadBlock.None? ==> p.blocks == old(p.blocks)
    ensures payloadBlock.Some? ==>
              payloadBlock.value !in old(p.blocks) && p.blocks == old(p.blocks) + {payloadBlock.value}
    ensures p.memory == if payloadLen > 0 then Spent(old(p.memory)) else old(p.memory)
    ensures var avail := Available(old(stream.arrivals), false);
            && rc == (if payloadLen > 0 && !Grants(old(p.memory)) then ErrAlloc
                      else if payloadLen > |avail| then CodeOf(Ending(old(stream.arrivals), false))
                      else EopOk)
            && (payloadLen > 0 && !Grants(old(p.memory)) ==> Available(stream.arrivals, false) == avail)
            && (rc == EopOk ==>
                  && payload == avail[..payloadLen]
                  && (payloadBlock.None? <==> payloadLen == 0)
                  && Available(stream.arrivals, false) == avail[payloadLen..])
  {
    hide Available, Ending;
    payload, payloadBlock := [], None;
    if payloadLen > 0 {
      payloadBlock := p.Malloc();
      if payloadBlock.None? {
        client.SetError(ErrAlloc);
        client.Unlock();
        return ErrAlloc, payload, None;
      }
      var buf := new Byte[payloadLen];
      var ok := RecvExact(p, client, stream, buf, payloadBlock);
      if !ok {
        return client.lastError, payload, None;
      }
      payload := buf[..];
    }
    return EopOk, payload, payloadBlock;
  }

  /** `eop_send_command`. On every path the mutex is free again, no temporary block and no descriptor is left over, and
      all the caller gets to own is the response. An id is used up by every call whose arguments are accepted. A call
      that succeeds has put its whole frame on the wire and returns the next frame from it; the error of one that fails
      is decided by the message type, the stream and the memory. */
  method SendCommand(p: Process, client: Client?, kind: int, payload: array?<Byte>, length: nat)
    returns (r: Option<Response>)
    requires p.Valid() && (client != null ==> client.Valid(p))
    requires payload != null ==> length <= payload.Length
    modifies p, client, if client == null || client.stream == null then {} else {client.stream}
    ensures p.Valid() && (client != null ==> client.Valid(p))
    ensures p.fds == old(p.fds) && p.blocks == old(p.blocks) + BlocksOf(r) && BlocksOf(r) !! old(p.blocks)
    ensures r.Some? && r.value.payloadBlock.Some? ==> r.value.payloadBlock.value != r.value.block
    ensures client == null || (payload == null && length > 0) ==> r.None?
    ensures client != null ==>
              && client.stream == old(client.stream) && client.socketFd == old(client.socketFd)
              && client.nextMsgId ==
                 (if payload == null && length > 0 then old(client.nextMsgId) else Low32(old(client.nextMsgId) + 1))
    ensures client != null && client.stream != null && !(payload == null && length > 0) ==>
              client.stream.sent == old(client.stream.sent) +
                old(BytesOut(kind, client.nextMsgId, Body(payload, length), client.stream.departures, p.memory))
    ensures client != null && !(payload == null && length > 0) ==>
              && client.lastError == old(Verdict(client.stream, kind, length, p.memory))
              && (r.Some? <==> client.lastError == EopOk)
    ensures r.Some? ==>
              && client.stream != null && ValidKind(kind)
              && var avail := Available(old(client.stream.arrivals), false);
              && client.stream.sent ==
                 old(client.stream.sent) + ClientFrame(Message(kind, old(client.nextMsgId), old(Body(payload, length))))
              && ClientParse(avail, Ending(old(client.stream.arrivals), false)) == Got(r.value.m)
              && Available(client.stream.arrivals, false) == avail[ClientConsumed(avail)..]
  {
    hide ClientParse, ClientConsumed, ClientFrame, Available, Ending, Accepted, ReplyVerdict, AfterReply, ValidKind;
    hide BytesOut, StopsAfterHead, Body;
    if client == null {
      return None;
    }
    if payload == null && length > 0 {
      return None;
    }
    client.Lock();
    var id := client.nextMsgId;
    client.nextMsgId := Low32(client.nextMsgId + 1);
    var rc := SendRequest(p, client, kind, id, payload, length);
    if rc != EopOk {
      return None;
    }
    var m, payloadBlock;
    rc, m, payloadBlock := ReceiveReply(p, client, client.stream);
    if rc != EopOk {
      return None;
    }
    r := CreateResponse(p, client, m, payloadBlock);
  }

  /** The end of the call: the response takes over the payload's block, or that is freed too. */
  method CreateResponse(p: Process, client: Client, m: Message, payloadBlock: Option<nat>) returns (r: Option<Response>)
    requires p.Valid() && client.locked && (payloadBlock.Some? ==> payloadBlock.value in p.blocks)
    modifies p`blocks, p`nextBlock, p`memory, client`lastError, client`locked
    ensures p.Valid() && !client.locked
    ensures r.Some? <==> Grants(old(p.memory))
    ensures client.lastError == if r.Some? then EopOk else ErrAlloc
    ensures r.Some? ==>
              && r.value.m == m && r.value.payloadBlock == payloadBlock
              && r.value.block !in old(p.blocks) && p.blocks == old(p.blocks) + {r.value.block}
    ensures r.None? ==> p.blocks == old(p.blocks) - if payloadBlock.Some? then {payloadBlock.value} else {}
  {
    var block := p.Malloc();
    if block.None? {
      GiveBack(p, client, ErrAlloc, payloadBlock);
      return None;
    }
    client.lastError := EopOk;
    client.Unlock();
    return Some(Response(block.value, payloadBlock, m));
  }

  /** Prefix and envelope written into a buffer of exactly the frame's size. */
  method FillBuffer(kind: int, id: U32, payload: array?<Byte>, length: nat) returns (rc: ErrorCode, buffer: array<Byte>)
    requires !(payload == null && length > 0) && (payload != null ==> length <= payload.Length)
    ensures fresh(buffer)
    ensures rc == if ValidKind(kind) then EopOk else ErrInvalidMessageType
    ensures buffer.Length == HEAD_SIZE + length
    ensures rc == EopOk ==>
              buffer[..] == ClientFrame(Message(kind, id, Body(payload, length)))
  {
    hide BigEndian, Envelope;
    buffer := new Byte[HEAD_SIZE + length];
    MessageSerializer.Copy(buffer, 0, BigEndian(Low32(ENVELOPE_SIZE + length)));
    rc := Serialize(kind, id, payload, length, buffer, PREFIX_SIZE, ENVELOPE_SIZE + length);
    assert buffer[..] == buffer[..buffer.Length];
  }

  lemma FrameSize(kind: int, id: U32, body: seq<Byte>)
    ensures ValidKind(kind) ==> |ClientFrame(Message(kind, id, body))| == HEAD_SIZE + |body|
    ensures ValidKind(kind) ==>
              var frame := ClientFrame(Message(kind, id, body)); frame[..|frame|] == frame
  {
  }

  /** Framing and sending one request. The buffer is freed on every path, and the mutex is given back on every failing
      one. */
  method SendRequest(p: Process, client: Client, kind: int, id: U32, payload: array?<Byte>, length: nat)
    returns (rc: ErrorCode)
    requires p.Valid() && !(payload == null && length > 0) && (payload != null ==> length <= payload.Length)
    requires client.locked
    modifies p`blocks, p`nextBlock, p`memory, client`lastError, client`locked
    modifies if client.stream == null then {} else {client.stream}
    ensures p.Valid() && p.blocks == old(p.blocks) && old(p.nextBlock) <= p.nextBlock
    ensures p.memory == Spent(old(p.memory))
    ensures rc == old(SendVerdict(client.stream, kind, length, p.memory))
    ensures rc == EopOk <==> client.locked
    ensures rc != EopOk ==> client.lastError == rc
    ensures client.stream != null ==> client.stream.arrivals == old(client.stream.arrivals)
    ensures client.stream != null ==>
              client.stream.sent == old(client.stream.sent) +
                BytesOut(kind, id, Body(payload, length), old(client.stream.departures), old(p.memory))
    ensures rc == EopOk ==>
              && client.stream != null && ValidKind(kind)
              && client.stream.sent ==
                 old(client.stream.sent) + ClientFrame(Message(kind, id, Body(payload, length)))
  {
    hide ClientFrame, Accepted, Body;
    FrameSize(kind, id, Body(payload, length));
    var block := p.Malloc();
    if block.None? {
      client.SetError(ErrAlloc);
      client.Unlock();
      return ErrAlloc;
    }
    var buffer;
    rc, buffer := FillBuffer(kind, id, payload, length);
    if rc != EopOk {
      client.SetError(rc);
      p.Free(block.value);
      client.Unlock();
      return;
    }
    var ok := Transmit(p, client, buffer[..], block.value);
    if !ok {
      return ErrDisconnected;
    }
    p.Free(block.value);
    return EopOk;
  }

  // ---- Any caller ----

  /** What a program can do with a handle between connecting and disconnecting. */
  datatype Op = Send(kind: int, payload: array?<Byte>, length: nat) | Redial(dial: Dial, stream: Socket)

  predicate WellTyped(op: Op) {
    op.Send? && op.payload != null ==> op.length <= op.payload.Length
  }

  predicate UsesId(op: Op) {
    op.Send? && !(op.payload == null && op.length > 0)
  }

  /** One such operation, a response being freed again. Apart from the handle's socket nothing is gained or lost. */
  method Perform(p: Process, client: Client, op: Op)
    requires client.Valid(p) && WellTyped(op)
    modifies p, client, if client.stream == null then {} else {client.stream}
    ensures client.Valid(p)
    ensures p.blocks == old(p.blocks)
    ensures p.fds - {client.socketFd} == old(p.fds) - {old(client.socketFd)}
    ensures client.nextMsgId == Low32(old(client.nextMsgId) + if UsesId(op) then 1 else 0)
    ensures client.stream == null || client.stream == if op.Send? then old(client.stream) else op.stream
  {
    match op
    case Send(kind, payload, length) =>
      var r := SendCommand(p, client, kind, payload, length);
      FreeResponse(p, r);
    case Redial(dial, stream) =>
      var _ := client.Reconnect(p, dial, stream);
  }

  /** Every sequence of calls on a handle: connect, if that succeeds any mixture of sends and reconnects with whatever
      outcomes, then disconnect. The process ends up holding exactly what it held before, and the ids used are 0, 1, 2,
      ... modulo 2^32, across reconnects. */
  method AnyCaller(p: Process, hostGiven: bool, port: int, dial: Dial, stream: Socket, ops: seq<Op>)
    returns (connected: bool, ids: seq<U32>)
    requires p.Valid() && forall op <- ops :: WellTyped(op)
    modifies p, stream, Streams(ops)
    ensures p.Valid() && p.blocks == old(p.blocks) && p.fds == old(p.fds)
    ensures forall i :: 0 <= i < |ids| ==> ids[i] == Low32(i)
    ensures connected <==> ConnectVerdict(hostGiven, port, dial, old(p.memory)) == EopOk
    ensures |ids| == if connected then IdsUsed(ops) else 0
  {
    var client, rc := Connect(p, hostGiven, port, dial, stream);
    ids := [];
    if client == null {
      return false, ids;
    }
    for k := 0 to |ops|
      invariant fresh(client) && client.Valid(p)
      invariant client.stream == null || client.stream in Streams(ops) + {stream}
      invariant client.block !in old(p.blocks) && p.blocks == old(p.blocks) + {client.block}
      invariant p.fds - {client.socketFd} == old(p.fds)
      invariant client.nextMsgId == Low32(|ids|)
      invariant forall i :: 0 <= i < |ids| ==> ids[i] == Low32(i)
      invariant |ids| == IdsUsed(ops[..k])
    {
      assert ops[k] in ops && ops[..k + 1][..k] == ops[..k];
      if UsesId(ops[k]) {
        ids := ids + [client.nextMsgId];
      }
      Perform(p, client, ops[k]);
    }
    assert ops[..|ops|] == ops;
    client.Disconnect(p);
    connected := true;
  }

  ghost function Streams(ops: seq<Op>): set<Socket> {
    set op | op in ops && op.Redial? :: op.stream
  }

  /** How many sends have acceptable arguments. */
  function IdsUsed(ops: seq<Op>): nat {
    if ops == [] then 0 else IdsUsed(ops[..|ops| - 1]) + if UsesId(ops[|ops| - 1]) then 1 else 0
  }
}
