/** The server's frame builder, frame reader and sender (`messageSerializer.cpp`). */
module MessageSerializer {
  import opened Bytes
  import opened Wire
  import opened Sockets

  // ---- Building ----

  method WriteByte(frame: array<Byte>, offset: nat, value: Byte) returns (next: nat)
    requires offset < frame.Length
    modifies frame
    ensures next == offset + 1
    ensures frame[..next] == old(frame[..offset]) + [value]
  {
    frame[offset] := value;
    next := offset + 1;
  }

  method WriteU32BE(frame: array<Byte>, offset: nat, value: U32) returns (next: nat)
    requires offset + 4 <= frame.Length
    modifies frame
    ensures next == offset + 4
    ensures frame[..next] == old(frame[..offset]) + BigEndian(value)
  {
    frame[offset] := value / 0x100_0000 % 256;
    frame[offset + 1] := value / 0x1_0000 % 256;
    frame[offset + 2] := value / 0x100 % 256;
    frame[offset + 3] := value % 256;
    next := offset + 4;
  }

  /** The message that really goes out: the payload length is cut to 32 bits first. */
  function Truncated(kind: Byte, id: U32, payload: seq<Byte>): (m: Message)
    ensures |payload| < TWO32 ==> m.payload == payload
  {
    Message(kind, id, payload[..Low32(|payload|)])
  }

  /** Type and id are kept, and the payload loses whole multiples of 4 GiB at its end. */
  lemma TruncationIsModulo(kind: Byte, id: U32, payload: seq<Byte>)
    ensures var m := Truncated(kind, id, payload);
            && m.kind == kind && m.id == id && m.payload <= payload
            && |m.payload| < TWO32 && (|payload| - |m.payload|) % TWO32 == 0
  {
  }

  /** The size of the buffer: all three sums are made in 32 bits. */
  function BufferSize(payloadSize: nat): U32 {
    Low32(PREFIX_SIZE + Low32(ENVELOPE_SIZE + Low32(payloadSize)))
  }

  /** The buffer has exactly the size of what is written into it if and only if head and payload together stay below
      2^32; otherwise it is smaller. */
  lemma BufferFitsIff(payloadSize: nat)
    ensures BufferSize(payloadSize) == HEAD_SIZE + Low32(payloadSize) <==> Low32(payloadSize) + HEAD_SIZE < TWO32
    ensures BufferSize(payloadSize) <= HEAD_SIZE + Low32(payloadSize)
  {
    var n := Low32(payloadSize);
    assert n + ENVELOPE_SIZE < TWO32 ==> Low32(ENVELOPE_SIZE + n) == ENVELOPE_SIZE + n;
    assert n + ENVELOPE_SIZE >= TWO32 ==> Low32(ENVELOPE_SIZE + n) == ENVELOPE_SIZE + n - TWO32;
  }

  /** The least payload for which it does not fit gets no buffer at all. */
  lemma WrappedBufferIsEmpty()
    ensures BufferSize(TWO32 - HEAD_SIZE) == 0
    ensures forall n: nat :: n < TWO32 - HEAD_SIZE ==> BufferSize(n) == HEAD_SIZE + n
  {
    forall n: nat | n < TWO32 - HEAD_SIZE ensures BufferSize(n) == HEAD_SIZE + n {
      BufferFitsIff(n);
    }
  }

  /** All three lengths are computed in 32 bits, so the buffer only has room for what is written into it
      while their sum stays below 2^32. */
  method BuildFrame(kind: Byte, id: U32, payload: seq<Byte>) returns (frame: array<Byte>)
    requires Frameable(Truncated(kind, id, payload))
    ensures fresh(frame)
    ensures frame[..] == Frame(Truncated(kind, id, payload))
  {
    hide BigEndian, Frame;
    var payloadLen := Low32(|payload|);
    var frameLen := Low32(ENVELOPE_SIZE + payloadLen);
    var totalSize := Low32(PREFIX_SIZE + frameLen);
    BufferFitsIff(|payload|);
    frame := new Byte[totalSize];
    var offset := WriteU32BE(frame, 0, frameLen);
    offset := WriteByte(frame, offset, PROTOCOL_VERSION);
    offset := WriteByte(frame, offset, kind);
    offset := WriteU32BE(frame, offset, id);
    offset := WriteU32BE(frame, offset, payloadLen);
    Copy(frame, offset, payload[..payloadLen]);
    FrameLayout(Truncated(kind, id, payload));
    assert frame[..] == frame[..frame.Length];
  }

  /** `memcpy` of the payload behind the head. */
  method Copy(frame: array<Byte>, offset: nat, bytes: seq<Byte>)
    requires offset + |bytes| <= frame.Length
    modifies frame
    ensures frame[..offset + |bytes|] == old(frame[..offset]) + bytes
    ensures forall i :: offset + |bytes| <= i < frame.Length ==> frame[i] == old(frame[i])
  {
    forall i | 0 <= i < |bytes| {
      frame[offset + i] := bytes[i];
    }
    assert frame[offset..offset + |bytes|] == bytes;
  }

  // ---- Reading ----

  /** Fills `buf` from the connection, whatever the sizes of the single receives. */
  method ReadExact(sock: Socket, buf: array<Byte>) returns (ok: bool, status: Status)
    modifies sock`arrivals, buf
    ensures ok <==> |Available(old(sock.arrivals), true)| >= buf.Length
    ensures ok ==>
              && buf[..] == Available(old(sock.arrivals), true)[..buf.Length]
              && Available(sock.arrivals, true) == Available(old(sock.arrivals), true)[buf.Length..]
              && Ending(sock.arrivals, true) == Ending(old(sock.arrivals), true)
    ensures !ok ==> status == Ending(old(sock.arrivals), true)
  {
    ghost var avail := Available(sock.arrivals, true);
    var received := 0;
    while received < buf.Length
      invariant 0 <= received <= buf.Length
      invariant buf[..received] + Available(sock.arrivals, true) == avail
      invariant Ending(sock.arrivals, true) == Ending(old(sock.arrivals), true)
      decreases buf.Length - received, |sock.arrivals|
    {
      var r := sock.Recv(buf.Length - received);
      match r
      case Received(bytes) =>
        Associate(buf[..received], bytes, Available(sock.arrivals, true));
        Copy(buf, received, bytes);
        received := received + |bytes|;
      case EndOfStream => return false, PeerClosed;
      case Interrupted =>
      case NothingYet => return false, Timeout;
      case Broken => return false, IoError;
    }
    assert buf[..] == buf[..received];
    return true, PeerClosed;
  }

  /** One frame off the connection: the result depends only on the bytes that arrive and on how the connection
      ends, never on how they were cut up or interrupted, and unless the connection ran dry exactly the
      consumed bytes are gone. */
  method ReadFrame(sock: Socket) returns (r: Outcome)
    modifies sock`arrivals
    ensures r == ServerParse(Available(old(sock.arrivals), true), Ending(old(sock.arrivals), true))
    ensures var avail := Available(old(sock.arrivals), true);
            !ServerStarved(avail) ==>
              && Available(sock.arrivals, true) == avail[ServerConsumed(avail)..]
              && Ending(sock.arrivals, true) == Ending(old(sock.arrivals), true)
  {
    hide FromBigEndian;
    ghost var avail := Available(sock.arrivals, true);
    var lenBuf := new Byte[PREFIX_SIZE];
    var ok, status := ReadExact(sock, lenBuf);
    if !ok {
      return Failed(status);
    }
    var frameLen := FromBigEndian(lenBuf[..]);
    if frameLen < ENVELOPE_SIZE {
      return Failed(IoError);
    }
    var payloadLen := frameLen - ENVELOPE_SIZE;
    if payloadLen > MAX_FRAME_PAYLOAD {
      return Failed(IoError);
    }
    var envelope := new Byte[ENVELOPE_SIZE];
    ok, status := ReadExact(sock, envelope);
    if !ok {
      return Failed(status);
    }
    HeaderBytes(avail, envelope[..]);
    assert envelope[2..6] == envelope[..][2..6];
    var messageId := FromBigEndian(envelope[2..6]);
    var payload := new Byte[payloadLen];
    if payloadLen > 0 {
      ok, status := ReadExact(sock, payload);
      if !ok {
        return Failed(status);
      }
    }
    PayloadBytes(avail, payloadLen);
    assert payload[..] == avail[14..14 + payloadLen];
    return Got(Message(envelope[1], messageId, payload[..]));
  }

  // ---- Schedules ----

  /** Only data and interruptions: a peer that sends, then shuts down. */
  predicate ErrorFree(script: seq<RecvEvent>) {
    forall e <- script :: e.Data? || e.Interrupt?
  }

  function DataOf(script: seq<RecvEvent>): seq<Byte> {
    if script == [] then []
    else (if script[0].Data? then script[0].bytes else []) + DataOf(script[1..])
  }

  lemma {:induction false} ErrorFreeDeliversAll(script: seq<RecvEvent>)
    requires ErrorFree(script)
    ensures Available(script, true) == DataOf(script) && Ending(script, true) == PeerClosed
  {
    if script != [] {
      assert script[0] in script;
      ErrorFreeDeliversAll(script[1..]);
    }
  }

  /** The first event that is neither data nor an interruption ends the stream: a timeout if nothing came in time, an
      error if the call failed. What would follow does not matter. */
  lemma {:induction false} FirstStopDecides(before: seq<RecvEvent>, stop: RecvEvent, after: seq<RecvEvent>)
    requires ErrorFree(before) && (stop.WouldBlock? || stop.Fault?)
    ensures Available(before + [stop] + after, true) == DataOf(before)
    ensures Ending(before + [stop] + after, true) == if stop.WouldBlock? then Timeout else IoError
  {
    var script := before + [stop] + after;
    if before == [] {
      assert script[0] == stop;
    } else {
      assert before[0] in before;
      assert script[0] == before[0] && script[1..] == before[1..] + [stop] + after;
      FirstStopDecides(before[1..], stop, after);
    }
  }

  /** However the framed messages are cut into receives and interrupted, the session loop reads exactly them
      and then sees the peer close. */
  lemma ScheduleRoundTrip(ms: seq<Message>, script: seq<RecvEvent>)
    requires AllFrameable(ms)
    requires forall i :: 0 <= i < |ms| ==> |ms[i].payload| <= MAX_FRAME_PAYLOAD
    requires ErrorFree(script) && DataOf(script) == Encode(ms)
    ensures ServerReadAll(Available(script, true), Ending(script, true)) == (ms, PeerClosed)
  {
    ErrorFreeDeliversAll(script);
    StreamRoundTrip(ms, PeerClosed);
  }

  /** Two error-free schedules of the same bytes are the same to the reader. */
  lemma ChunkingIsInvisible(a: seq<RecvEvent>, b: seq<RecvEvent>)
    requires ErrorFree(a) && ErrorFree(b) && DataOf(a) == DataOf(b)
    ensures Available(a, true) == Available(b, true) && Ending(a, true) == Ending(b, true)
    ensures ServerReadAll(Available(a, true), Ending(a, true)) == ServerReadAll(Available(b, true), Ending(b, true))
  {
    ErrorFreeDeliversAll(a);
    ErrorFreeDeliversAll(b);
  }

  // ---- Sending ----

  /** The bytes a script takes in all, refusals and interruptions aside. */
  function TotalTaken(script: seq<SendEvent>): nat {
    if script == [] then 0 else (if script[0].Takes? then script[0].upTo else 0) + TotalTaken(script[1..])
  }

  /** A sender gets rid of what the peer takes before the first event that makes it give up: a refusal, or for the
      client also an interruption. What would follow does not matter. */
  lemma {:induction false} FirstRefusalDecides(before: seq<SendEvent>, stop: SendEvent, after: seq<SendEvent>,
                                               retries: bool)
    requires forall e <- before :: e.Takes? || (retries && e.SendInterrupt?)
    requires stop.Refuses? || (!retries && stop.SendInterrupt?)
    ensures Accepted(before, retries) == Accepted(before + [stop] + after, retries) == TotalTaken(before)
  {
    var script := before + [stop] + after;
    if before == [] {
      assert script[0] == stop;
    } else {
      assert before[0] in before;
      assert script[0] == before[0] && script[1..] == before[1..] + [stop] + after;
      FirstRefusalDecides(before[1..], stop, after, retries);
    }
  }

  lemma TakeMore(data: seq<Byte>, i: nat, n: nat)
    requires i + n <= |data|
    ensures data[..i] + data[i..][..n] == data[..i + n]
  {
  }

  /** The peer gets a prefix of the buffer: all of it exactly when the call reports success, and then it still takes
      what it would have taken besides. */
  method SendAll(sock: Socket, data: seq<Byte>) returns (ok: bool)
    modifies sock`departures, sock`sent
    ensures ok <==> |data| <= Accepted(old(sock.departures), true)
    ensures sock.sent == old(sock.sent) + data[..Min(|data|, Accepted(old(sock.departures), true))]
    ensures ok ==> Accepted(sock.departures, true) == Accepted(old(sock.departures), true) - |data|
  {
    var totalSent := 0;
    while totalSent < |data|
      invariant 0 <= totalSent <= |data|
      invariant sock.sent == old(sock.sent) + data[..totalSent]
      invariant totalSent + Accepted(sock.departures, true) == Accepted(old(sock.departures), true)
      decreases |data| - totalSent, |sock.departures|
    {
      var r := sock.Send(data[totalSent..]);
      match r
      case SendFailed => return false;
      case SendInterrupted =>
      case Sent(n) =>
        TakeMore(data, totalSent, n);
        totalSent := totalSent + n;
    }
    return true;
  }
}
