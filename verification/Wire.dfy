/**
 The length-prefixed protocol of ADR-003 on byte sequences: the frame layout, and the
 two parsers the repository contains. The server trusts `frame_length` and looks at neither
 `payload_length` nor the version; the client trusts `payload_length`, checks the version
 and never looks at `frame_length`.
 */
module Wire {
  import opened Bytes

  const PREFIX_SIZE: nat := 4
  const ENVELOPE_SIZE: nat := 10
  const HEAD_SIZE: nat := 14
  const PROTOCOL_VERSION: Byte := 1
  const MAX_FRAME_PAYLOAD: nat := 65536

  const REGISTER: Byte := 1
  const ACK: Byte := 2
  const ERROR_MSG: Byte := 3
  const QUERY_NODE: Byte := 4
  const LIST_NODES: Byte := 5
  const HEARTBEAT: Byte := 6
  const EDGE_TELEMETRY: Byte := 9

  datatype Message = Message(kind: Byte, id: U32, payload: seq<Byte>)

  /** Whether prefix, envelope and payload together still fit the 32-bit length arithmetic. */
  predicate Frameable(m: Message) {
    |m.payload| + HEAD_SIZE < TWO32
  }

  /** The fixed 10-byte envelope of ADR-003 followed by the payload. */
  function Envelope(m: Message): (bs: seq<Byte>)
    ensures |bs| == ENVELOPE_SIZE + |m.payload|
  {
    [PROTOCOL_VERSION, m.kind] + BigEndian(m.id) + BigEndian(Low32(|m.payload|)) + m.payload
  }

  /** The layout ADR-003 prescribes, with `frame_length = 10 + payload_length`. */
  function Frame(m: Message): (bs: seq<Byte>)
    requires Frameable(m)
    ensures |bs| == HEAD_SIZE + |m.payload|
  {
    BigEndian(ENVELOPE_SIZE + |m.payload|) + Envelope(m)
  }

  /** The same bytes field by field. */
  lemma FrameLayout(m: Message)
    requires Frameable(m)
    ensures Frame(m) == BigEndian(ENVELOPE_SIZE + |m.payload|) + [PROTOCOL_VERSION] + [m.kind]
                        + BigEndian(m.id) + BigEndian(|m.payload|) + m.payload
  {
  }

  /** Why a read stopped without a frame. */
  datatype Status = PeerClosed | Timeout | IoError

  datatype Outcome = Got(m: Message) | Failed(status: Status)

  // Fields at the fixed offsets of a frame head.

  function FrameLength(b: seq<Byte>): U32
    requires |b| >= PREFIX_SIZE
  {
    FromBigEndian(b[..4])
  }

  function MessageId(b: seq<Byte>): U32
    requires |b| >= HEAD_SIZE
  {
    FromBigEndian(b[6..10])
  }

  function PayloadLength(b: seq<Byte>): U32
    requires |b| >= HEAD_SIZE
  {
    FromBigEndian(b[10..14])
  }

  /** Frame lengths below the envelope or above the payload cap are refused right after the prefix. */
  predicate LengthAccepted(frameLength: U32) {
    ENVELOPE_SIZE <= frameLength <= ENVELOPE_SIZE + MAX_FRAME_PAYLOAD
  }

  /** What the server reads from a connection that delivers `avail` and then ends with `ending`. */
  function ServerParse(avail: seq<Byte>, ending: Status): Outcome {
    if |avail| < PREFIX_SIZE then Failed(ending)
    else if !LengthAccepted(FrameLength(avail)) then Failed(IoError)
    else if |avail| < PREFIX_SIZE + FrameLength(avail) then Failed(ending)
    else Got(Message(avail[5], MessageId(avail), avail[HEAD_SIZE..PREFIX_SIZE + FrameLength(avail)]))
  }

  /** How many of those bytes the server has taken off the connection by then. */
  function ServerConsumed(avail: seq<Byte>): (n: nat)
    ensures n <= |avail|
  {
    if |avail| < PREFIX_SIZE then |avail|
    else if !LengthAccepted(FrameLength(avail)) then PREFIX_SIZE
    else if |avail| < PREFIX_SIZE + FrameLength(avail) then |avail|
    else PREFIX_SIZE + FrameLength(avail)
  }

  /** The connection ended before the bytes the server was waiting for. */
  predicate ServerStarved(avail: seq<Byte>) {
    || |avail| < PREFIX_SIZE
    || (LengthAccepted(FrameLength(avail)) && |avail| < PREFIX_SIZE + FrameLength(avail))
  }

  /** What one client call reads from the same connection. */
  function ClientParse(avail: seq<Byte>, ending: Status): Outcome {
    if |avail| < HEAD_SIZE then Failed(ending)
    else if avail[4] != PROTOCOL_VERSION then Failed(IoError)
    else if |avail| < HEAD_SIZE + PayloadLength(avail) then Failed(ending)
    else Got(Message(avail[5], MessageId(avail), avail[HEAD_SIZE..HEAD_SIZE + PayloadLength(avail)]))
  }

  function ClientConsumed(avail: seq<Byte>): (n: nat)
    ensures n <= |avail|
  {
    if |avail| < HEAD_SIZE then |avail|
    else if avail[4] != PROTOCOL_VERSION then HEAD_SIZE
    else if |avail| < HEAD_SIZE + PayloadLength(avail) then |avail|
    else HEAD_SIZE + PayloadLength(avail)
  }

  // ---- Reading a frame in pieces ----

  lemma HeaderBytes(avail: seq<Byte>, header: seq<Byte>)
    requires |avail| >= HEAD_SIZE && header == avail[4..][..10]
    ensures header[0] == avail[4] && header[1] == avail[5]
    ensures header[2..6] == avail[6..10] && header[6..10] == avail[10..14]
    ensures avail[4..][10..] == avail[14..]
  {
  }

  lemma PayloadBytes(avail: seq<Byte>, n: nat)
    requires HEAD_SIZE <= |avail|
    ensures n <= |avail[14..]| ==> avail[14..][..n] == avail[14..14 + n] && avail[14..][n..] == avail[14 + n..]
  {
  }

  // ---- One frame ----

  lemma FrameFields(m: Message, rest: seq<Byte>)
    requires Frameable(m)
    ensures var b := Frame(m) + rest;
            && FrameLength(b) == ENVELOPE_SIZE + |m.payload|
            && b[4] == PROTOCOL_VERSION && b[5] == m.kind
            && MessageId(b) == m.id && PayloadLength(b) == |m.payload|
            && b[HEAD_SIZE..HEAD_SIZE + |m.payload|] == m.payload
            && b[HEAD_SIZE + |m.payload|..] == rest
  {
    var b := Frame(m) + rest;
    BigEndianRoundTrip(ENVELOPE_SIZE + |m.payload|);
    BigEndianRoundTrip(m.id);
    BigEndianRoundTrip(|m.payload|);
    assert b[..4] == BigEndian(ENVELOPE_SIZE + |m.payload|);
    assert b[6..10] == BigEndian(m.id);
    assert b[10..14] == BigEndian(|m.payload|);
  }

  /** The server gets back exactly what was framed if and only if the payload is within its cap. */
  lemma ServerRoundTrip(m: Message, rest: seq<Byte>, ending: Status)
    requires Frameable(m)
    ensures ServerParse(Frame(m) + rest, ending) == Got(m) <==> |m.payload| <= MAX_FRAME_PAYLOAD
    ensures |m.payload| > MAX_FRAME_PAYLOAD ==> ServerParse(Frame(m) + rest, ending) == Failed(IoError)
    ensures |m.payload| <= MAX_FRAME_PAYLOAD ==> (Frame(m) + rest)[ServerConsumed(Frame(m) + rest)..] == rest
  {
    FrameFields(m, rest);
  }

  /** The client gets back every frame, whatever its size. */
  lemma ClientRoundTrip(m: Message, rest: seq<Byte>, ending: Status)
    requires Frameable(m)
    ensures ClientParse(Frame(m) + rest, ending) == Got(m)
    ensures (Frame(m) + rest)[ClientConsumed(Frame(m) + rest)..] == rest
  {
    FrameFields(m, rest);
  }

  lemma WeighedIsFromBigEndian(b: seq<Byte>, at: nat)
    requires at + 4 <= |b|
    ensures FromBigEndian(b[at..at + 4]) == Weighed(b, at)
  {
  }

  /** Every byte of a frame, by its position. */
  lemma FrameByteByByte(m: Message)
    requires Frameable(m)
    ensures var b := Frame(m);
            && Weighed(b, 0) == 10 + |m.payload|
            && b[4] == 1 && b[5] == m.kind
            && Weighed(b, 6) == m.id
            && Weighed(b, 10) == |m.payload|
            && b[14..] == m.payload
  {
    hide BigEndian, FromBigEndian;
    var b := Frame(m);
    FrameFields(m, []);
    assert b + [] == b;
    assert b[..4] == b[0..0 + 4] && b[14..14 + |m.payload|] == b[14..];
    WeighedIsFromBigEndian(b, 0);
    WeighedIsFromBigEndian(b, 6);
    WeighedIsFromBigEndian(b, 10);
  }

  /** Two frames written out: an empty ACK to message 1, and a HEARTBEAT numbered 258. */
  lemma FramesWrittenOut()
    ensures Frame(Message(ACK, 1, [])) == [0, 0, 0, 10, 1, 2, 0, 0, 0, 1, 0, 0, 0, 0]
    ensures Frame(Message(HEARTBEAT, 258, [])) == [0, 0, 0, 10, 1, 6, 0, 0, 1, 2, 0, 0, 0, 0]
  {
    assert BigEndian(0) == [0, 0, 0, 0] && BigEndian(10) == [0, 0, 0, 10];
    assert BigEndian(1) == [0, 0, 0, 1] && BigEndian(258) == [0, 0, 1, 2];
    hide BigEndian;
  }

  /** The server looks neither at the version nor at payload_length: changing such a byte changes nothing. */
  lemma ServerIgnores(b: seq<Byte>, i: nat, v: Byte, ending: Status)
    requires i < |b| && (i == 4 || 10 <= i < 14)
    ensures ServerParse(b[i := v], ending) == ServerParse(b, ending)
    ensures ServerConsumed(b[i := v]) == ServerConsumed(b)
  {
    var c := b[i := v];
    assert |b| >= 4 && c[..4] == b[..4];
    assert |b| >= 10 ==> c[6..10] == b[6..10];
    assert forall n :: 14 <= n <= |b| ==> c[14..n] == b[14..n];
  }

  /** The client does not look at frame_length. */
  lemma ClientIgnores(b: seq<Byte>, i: nat, v: Byte, ending: Status)
    requires i < |b| && i < 4
    ensures ClientParse(b[i := v], ending) == ClientParse(b, ending)
    ensures ClientConsumed(b[i := v]) == ClientConsumed(b)
  {
    var c := b[i := v];
    assert |b| >= 14 ==> c[6..10] == b[6..10] && c[10..14] == b[10..14];
    assert forall n :: 14 <= n <= |b| ==> c[14..n] == b[14..n];
  }

  /** A frame that is cut short is no frame to either side: each takes what there is and reports how the connection
      ended. */
  lemma CutShort(m: Message, k: nat, ending: Status)
    requires Frameable(m) && k < |Frame(m)|
    ensures |m.payload| <= MAX_FRAME_PAYLOAD ==>
              ServerParse(Frame(m)[..k], ending) == Failed(ending) && ServerConsumed(Frame(m)[..k]) == k
    ensures ClientParse(Frame(m)[..k], ending) == Failed(ending) && ClientConsumed(Frame(m)[..k]) == k
  {
    var (b, c) := (Frame(m), Frame(m)[..k]);
    FrameFields(m, []);
    assert b + [] == b;
    assert k >= 4 ==> c[..4] == b[..4];
    assert k >= 14 ==> c[10..14] == b[10..14] && c[4] == b[4];
  }

  /** The server gives up over a frame whatever happens next if and only if its length is out of range, and then it has
      taken the prefix only. */
  lemma ServerRejectsIff(b: seq<Byte>)
    ensures (forall ending :: ServerParse(b, ending) == Failed(IoError)) <==>
            |b| >= 4 && !(10 <= Weighed(b, 0) <= 65546)
    ensures |b| >= 4 && !(10 <= Weighed(b, 0) <= 65546) ==> ServerConsumed(b) == 4
  {
    if |b| >= 4 {
      assert b[0..0 + 4] == b[..4];
      WeighedIsFromBigEndian(b, 0);
    }
    if forall ending :: ServerParse(b, ending) == Failed(IoError) {
      assert ServerParse(b, Timeout) == Failed(IoError);
    }
  }

  /** And the client if and only if there is a whole head of another version. */
  lemma ClientRejectsIff(b: seq<Byte>)
    ensures (forall ending :: ClientParse(b, ending) == Failed(IoError)) <==> |b| >= 14 && b[4] != 1
    ensures |b| >= 14 && b[4] != 1 ==> ClientConsumed(b) == 14
  {
    if forall ending :: ClientParse(b, ending) == Failed(IoError) {
      assert ClientParse(b, Timeout) == Failed(IoError);
    }
  }

  /** A frame of version 1 whose two length fields agree and whose payload is complete and within the cap. */
  predicate Consistent(b: seq<Byte>) {
    && |b| >= HEAD_SIZE
    && b[4] == PROTOCOL_VERSION
    && FrameLength(b) as int == ENVELOPE_SIZE + PayloadLength(b)
    && PayloadLength(b) <= MAX_FRAME_PAYLOAD
    && |b| >= HEAD_SIZE + PayloadLength(b)
  }

  /** The two parsers deliver one and the same message exactly on the consistent frames, and then they also
      leave the connection at the same place. */
  lemma ParsersAgreeIff(b: seq<Byte>, ending: Status)
    ensures (ServerParse(b, ending).Got? && ClientParse(b, ending) == ServerParse(b, ending)) <==> Consistent(b)
    ensures Consistent(b) ==> ServerConsumed(b) == ClientConsumed(b)
  {
    if ServerParse(b, ending).Got? && ClientParse(b, ending) == ServerParse(b, ending) {
      assert |ServerParse(b, ending).m.payload| == FrameLength(b) - ENVELOPE_SIZE;
      assert |ClientParse(b, ending).m.payload| == PayloadLength(b);
    }
  }

  lemma ConsistentIsFrame(b: seq<Byte>) returns (m: Message, rest: seq<Byte>)
    requires Consistent(b)
    ensures Frameable(m) && |m.payload| <= MAX_FRAME_PAYLOAD && b == Frame(m) + rest
  {
    hide BigEndian, FromBigEndian;
    var n := PayloadLength(b);
    m := Message(b[5], MessageId(b), b[HEAD_SIZE..HEAD_SIZE + n]);
    rest := b[HEAD_SIZE + n..];
    FromBigEndianRoundTrip(b[..4]);
    FromBigEndianRoundTrip(b[6..10]);
    FromBigEndianRoundTrip(b[10..14]);
    FrameLayout(m);
    assert b == b[..4] + [b[4]] + [b[5]] + b[6..10] + b[10..14] + b[HEAD_SIZE..HEAD_SIZE + n] + rest;
  }

  /** Consistent bytes are precisely the frames of messages within the cap, followed by anything. */
  lemma ConsistentIffFrame(b: seq<Byte>)
    ensures Consistent(b) <==>
            exists m: Message, rest: seq<Byte> ::
              Frameable(m) && |m.payload| <= MAX_FRAME_PAYLOAD && b == Frame(m) + rest
  {
    hide Frame, FrameLength, MessageId, PayloadLength;
    if Consistent(b) {
      var m, rest := ConsistentIsFrame(b);
    }
    forall m: Message, rest: seq<Byte> | Frameable(m) && |m.payload| <= MAX_FRAME_PAYLOAD && b == Frame(m) + rest
      ensures Consistent(b)
    {
      FrameFields(m, rest);
    }
  }

  // ---- Streams of frames ----

  predicate AllFrameable(ms: seq<Message>) {
    forall i :: 0 <= i < |ms| ==> Frameable(ms[i])
  }

  lemma FrameableAppend(a: seq<Message>, m: Message)
    ensures AllFrameable(a + [m]) <==> AllFrameable(a) && Frameable(m)
  {
    var b := a + [m];
    assert b[|a|] == m;
    assert forall i :: 0 <= i < |a| ==> b[i] == a[i];
  }

  /** The bytes on a connection after sending `ms` in order. */
  function Encode(ms: seq<Message>): seq<Byte>
    requires AllFrameable(ms)
  {
    if ms == [] then [] else Frame(ms[0]) + Encode(ms[1..])
  }

  /** The server's session loop on bytes: frames are read until the first read that is not OK. */
  function ServerReadAll(avail: seq<Byte>, ending: Status): (seq<Message>, Status)
    decreases |avail|
  {
    match ServerParse(avail, ending)
    case Failed(status) => ([], status)
    case Got(m) =>
      var (ms, status) := ServerReadAll(avail[ServerConsumed(avail)..], ending);
      ([m] + ms, status)
  }

  /** After reading `read`, the loop still has `rest` before it. */
  ghost predicate ReadSoFar(start: seq<Byte>, ending: Status, read: seq<Message>, rest: seq<Byte>) {
    var left := ServerReadAll(rest, ending);
    ServerReadAll(start, ending) == (read + left.0, left.1)
  }

  lemma ReadNothingYet(start: seq<Byte>, ending: Status)
    ensures ReadSoFar(start, ending, [], start)
  {
    var all := ServerReadAll(start, ending);
    assert [] + all.0 == all.0;
  }

  lemma ReadOneMore(start: seq<Byte>, ending: Status, read: seq<Message>, rest: seq<Byte>)
    requires ReadSoFar(start, ending, read, rest)
    ensures ServerParse(rest, ending).Got? ==>
              && !ServerStarved(rest) && ServerConsumed(rest) > 0
              && ReadSoFar(start, ending, read + [ServerParse(rest, ending).m], rest[ServerConsumed(rest)..])
    ensures ServerParse(rest, ending).Failed? ==>
              ServerReadAll(start, ending) == (read, ServerParse(rest, ending).status)
  {
    if ServerParse(rest, ending).Got? {
      var m, left := ServerParse(rest, ending).m, ServerReadAll(rest[ServerConsumed(rest)..], ending);
      assert read + ([m] + left.0) == (read + [m]) + left.0;
    } else {
      assert read + [] == read;
    }
  }

  /** The messages before the first one over the server's cap. */
  function UpToOversize(ms: seq<Message>): (r: seq<Message>)
    ensures |r| <= |ms|
    ensures |r| == |ms| <==> forall i :: 0 <= i < |ms| ==> |ms[i].payload| <= MAX_FRAME_PAYLOAD
    ensures r == ms[..|r|]
  {
    if ms == [] || |ms[0].payload| > MAX_FRAME_PAYLOAD then [] else [ms[0]] + UpToOversize(ms[1..])
  }

  /** Of every list of messages the server reads those before the first oversized one. If there is none it reads the
      whole list and the stream ends the way the connection ended; otherwise reading ends in an error there. */
  lemma {:induction false} StreamReads(ms: seq<Message>, ending: Status)
    requires AllFrameable(ms)
    ensures ServerReadAll(Encode(ms), ending) ==
            (UpToOversize(ms), if |UpToOversize(ms)| == |ms| then ending else IoError)
  {
    hide Frame, ServerParse, ServerConsumed;
    if ms == [] {
      NothingToRead(ending);
    } else {
      ServerRoundTrip(ms[0], Encode(ms[1..]), ending);
      StreamReads(ms[1..], ending);
    }
  }

  /** Behind whole messages a frame that is cut short, or nothing, leaves the ending of the connection as the last
      word. */
  lemma {:induction false} StreamCutShort(ms: seq<Message>, m: Message, k: nat, ending: Status)
    requires AllFrameable(ms) && forall i :: 0 <= i < |ms| ==> |ms[i].payload| <= MAX_FRAME_PAYLOAD
    requires Frameable(m) && |m.payload| <= MAX_FRAME_PAYLOAD && k < |Frame(m)|
    ensures ServerReadAll(Encode(ms) + Frame(m)[..k], ending) == (ms, ending)
  {
    hide Frame, ServerParse, ServerConsumed;
    var tail := Frame(m)[..k];
    if ms == [] {
      assert Encode(ms) + tail == tail;
      CutShort(m, k, ending);
    } else {
      var rest := Encode(ms[1..]) + tail;
      Associate(Frame(ms[0]), Encode(ms[1..]), tail);
      assert Encode(ms) + tail == Frame(ms[0]) + rest;
      ServerRoundTrip(ms[0], rest, ending);
      StreamCutShort(ms[1..], m, k, ending);
      assert ms == [ms[0]] + ms[1..];
    }
  }

  lemma NothingToRead(ending: Status)
    ensures ServerReadAll([], ending) == ([], ending)
  {
  }

  /** So a list of messages survives the trip if and only if each is within the cap. */
  lemma StreamRoundTrip(ms: seq<Message>, ending: Status)
    requires AllFrameable(ms)
    ensures ServerReadAll(Encode(ms), ending).0 == ms <==>
            forall i :: 0 <= i < |ms| ==> |ms[i].payload| <= MAX_FRAME_PAYLOAD
    ensures ServerReadAll(Encode(ms), ending).0 == ms ==> ServerReadAll(Encode(ms), ending).1 == ending
  {
    StreamReads(ms, ending);
  }

  lemma {:induction false} EncodeAppend(a: seq<Message>, m: Message)
    requires AllFrameable(a) && Frameable(m)
    ensures Encode(a + [m]) == Encode(a) + Frame(m)
  {
    if a == [] {
      assert [m][1..] == [];
    } else {
      EncodeAppend(a[1..], m);
      assert (a + [m])[1..] == a[1..] + [m];
      Associate(Frame(a[0]), Encode(a[1..]), Frame(m));
    }
  }

  lemma Associate(a: seq<Byte>, b: seq<Byte>, c: seq<Byte>)
    ensures a + (b + c) == (a + b) + c
  {
  }

  /** No frame is a proper prefix of another: concatenated frames determine the messages. */
  lemma {:induction false} EncodeInjective(a: seq<Message>, b: seq<Message>)
    requires AllFrameable(a) && AllFrameable(b)
    requires Encode(a) == Encode(b)
    ensures a == b
  {
    if a == [] || b == [] {
      assert |Encode(a)| == |Encode(b)|;
    } else {
      ClientRoundTrip(a[0], Encode(a[1..]), PeerClosed);
      ClientRoundTrip(b[0], Encode(b[1..]), PeerClosed);
      EncodeInjective(a[1..], b[1..]);
      assert a == [a[0]] + a[1..];
      assert b == [b[0]] + b[1..];
    }
  }
}
