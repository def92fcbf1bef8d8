/** The client's envelope encoder and decoder (`eop_envelope.c`) and how they compare with the server's builder. */
module ClientEnvelope {
  import opened Bytes
  import opened Wire
  import MessageSerializer

  datatype ErrorCode =
    | EopOk
    | ErrTimeout
    | ErrDisconnected
    | ErrConnectFailed
    | ErrInvalidArgument
    | ErrAlloc
    | ErrNotEnoughSpace
    | ErrInvalidMessageType

  predicate ValidKind(kind: int) {
    REGISTER <= kind <= EDGE_TELEMETRY
  }

  /** `eop_envelope_serialize` into `out[at..at + outLen]`. On any error the buffer is untouched. */
  method Serialize(kind: int, id: U32, payload: array?<Byte>, length: nat,
                   out: array<Byte>, at: nat, outLen: nat) returns (rc: ErrorCode)
    requires payload != null ==> length <= payload.Length && payload != out
    requires at + outLen <= out.Length
    modifies out
    ensures rc == (if outLen < ENVELOPE_SIZE + length then ErrNotEnoughSpace
                   else if !ValidKind(kind) then ErrInvalidMessageType
                   else if payload == null && length > 0 then ErrInvalidArgument
                   else EopOk)
    ensures rc != EopOk ==> out[..] == old(out[..])
    ensures rc == EopOk ==>
              var body := if payload == null then [] else payload[..length];
              && out[..at + ENVELOPE_SIZE + length] == old(out[..at]) + Envelope(Message(kind, id, body))
              && forall i :: at + ENVELOPE_SIZE + length <= i < out.Length ==> out[i] == old(out[i])
  {
    if outLen < ENVELOPE_SIZE + length {
      return ErrNotEnoughSpace;
    }
    if !ValidKind(kind) {
      return ErrInvalidMessageType;
    }
    if payload == null && length > 0 {
      return ErrInvalidArgument;
    }
    Fill(kind, id, if payload == null then [] else payload[..length], out, at);
    return EopOk;
  }

  /** The writes of a serialization whose arguments are accepted. */
  method Fill(kind: Byte, id: U32, body: seq<Byte>, out: array<Byte>, at: nat)
    requires at + ENVELOPE_SIZE + |body| <= out.Length
    modifies out
    ensures out[..at + ENVELOPE_SIZE + |body|] == old(out[..at]) + Envelope(Message(kind, id, body))
    ensures forall i :: at + ENVELOPE_SIZE + |body| <= i < out.Length ==> out[i] == old(out[i])
  {
    MessageSerializer.Copy(out, at, [PROTOCOL_VERSION, kind]);
    MessageSerializer.Copy(out, at + 2, BigEndian(id));
    MessageSerializer.Copy(out, at + 6, BigEndian(Low32(|body|)));
    MessageSerializer.Copy(out, at + ENVELOPE_SIZE, body);
  }

  datatype Parsed = Decoded(kind: Byte, id: U32, payloadLen: U32) | Undecodable(code: ErrorCode)

  /** What the decoder makes of a buffer. Header size plus declared length is added in 32 bits. */
  function Parse(b: seq<Byte>): Parsed {
    if |b| < ENVELOPE_SIZE then Undecodable(ErrInvalidArgument)
    else if b[0] != PROTOCOL_VERSION then Undecodable(ErrInvalidArgument)
    else if !ValidKind(b[1]) then Undecodable(ErrInvalidMessageType)
    else if |b| < Low32(ENVELOPE_SIZE + FromBigEndian(b[6..10])) then Undecodable(ErrInvalidArgument)
    else Decoded(b[1], FromBigEndian(b[2..6]), FromBigEndian(b[6..10]))
  }

  /** What was serialized is decoded to the same fields, for every payload the 32-bit sum can hold. */
  lemma EnvelopeRoundTrip(m: Message, rest: seq<Byte>)
    requires ValidKind(m.kind) && ENVELOPE_SIZE + |m.payload| < TWO32
    ensures Parse(Envelope(m) + rest) == Decoded(m.kind, m.id, |m.payload|)
    ensures (Envelope(m) + rest)[ENVELOPE_SIZE..ENVELOPE_SIZE + |m.payload|] == m.payload
  {
    var b := Envelope(m) + rest;
    BigEndianRoundTrip(m.id);
    BigEndianRoundTrip(Low32(|m.payload|));
    assert b[2..6] == BigEndian(m.id);
    assert b[6..10] == BigEndian(Low32(|m.payload|));
  }

  /** What is accepted, with a declared length that does not wrap the 32-bit sum, is exactly what the serializer
      makes of the types 1 to 9, followed by anything. */
  lemma DecodedIffSerialized(b: seq<Byte>)
    ensures (Parse(b).Decoded? && ENVELOPE_SIZE + Parse(b).payloadLen < TWO32) <==>
            exists m: Message, rest: seq<Byte> ::
              1 <= m.kind <= 9 && ENVELOPE_SIZE + |m.payload| < TWO32 && b == Envelope(m) + rest
  {
    hide Envelope;
    if Parse(b).Decoded? && ENVELOPE_SIZE + Parse(b).payloadLen < TWO32 {
      var m, rest := DecodedIsEnvelope(b);
    }
    forall m: Message, rest: seq<Byte> |
      1 <= m.kind <= 9 && ENVELOPE_SIZE + |m.payload| < TWO32 && b == Envelope(m) + rest
      ensures Parse(b).Decoded? && ENVELOPE_SIZE + Parse(b).payloadLen < TWO32
    {
      EnvelopeRoundTrip(m, rest);
    }
  }

  lemma DecodedIsEnvelope(b: seq<Byte>) returns (m: Message, rest: seq<Byte>)
    requires Parse(b).Decoded? && ENVELOPE_SIZE + Parse(b).payloadLen < TWO32
    ensures 1 <= m.kind <= 9 && ENVELOPE_SIZE + |m.payload| < TWO32 && b == Envelope(m) + rest
  {
    hide BigEndian, FromBigEndian;
    var n := Parse(b).payloadLen;
    m := Message(b[1], FromBigEndian(b[2..6]), b[10..10 + n]);
    rest := b[10 + n..];
    FromBigEndianRoundTrip(b[2..6]);
    FromBigEndianRoundTrip(b[6..10]);
    assert b == [b[0], b[1]] + b[2..6] + b[6..10] + b[10..10 + n] + rest;
  }

  /** Which error the decoder reports: a cut-short envelope and another version are invalid arguments, a type
      outside 1 to 9 is an invalid type. */
  lemma UndecodableCodes(m: Message, k: nat, version: Byte)
    requires ENVELOPE_SIZE + |m.payload| < TWO32
    ensures k < |Envelope(m)| && 1 <= m.kind <= 9 ==> Parse(Envelope(m)[..k]) == Undecodable(ErrInvalidArgument)
    ensures version != 1 ==> Parse(Envelope(m)[0 := version]) == Undecodable(ErrInvalidArgument)
    ensures !(1 <= m.kind <= 9) ==> Parse(Envelope(m)) == Undecodable(ErrInvalidMessageType)
  {
    var b := Envelope(m);
    BigEndianRoundTrip(|m.payload|);
    assert b[6..10] == BigEndian(|m.payload|);
    assert ENVELOPE_SIZE <= k < |b| ==> b[..k][6..10] == b[6..10];
  }

  /** `eop_envelope_deserialize`; `outputs` says whether all four outputs are asked for. */
  method Deserialize(buf: array<Byte>, len: nat, outputs: bool)
    returns (rc: ErrorCode, kind: Byte, id: U32, payloadLen: U32)
    requires len <= buf.Length
    ensures outputs && Parse(buf[..len]).Decoded? ==>
              rc == EopOk && Decoded(kind, id, payloadLen) == Parse(buf[..len])
    ensures outputs && Parse(buf[..len]).Undecodable? ==> rc == Parse(buf[..len]).code
    ensures !outputs ==> rc == ErrInvalidArgument
  {
    kind, id, payloadLen := 0, 0, 0;
    if len < ENVELOPE_SIZE {
      return ErrInvalidArgument, kind, id, payloadLen;
    }
    if buf[0] != PROTOCOL_VERSION {
      return ErrInvalidArgument, kind, id, payloadLen;
    }
    if !outputs {
      return ErrInvalidArgument, kind, id, payloadLen;
    }
    if !ValidKind(buf[1]) {
      return ErrInvalidMessageType, kind, id, payloadLen;
    }
    assert buf[2..6] == buf[..len][2..6] && buf[6..10] == buf[..len][6..10];
    var declared := FromBigEndian(buf[6..10]);
    if len < Low32(ENVELOPE_SIZE + declared) {
      return ErrInvalidArgument, kind, id, payloadLen;
    }
    return EopOk, buf[1], FromBigEndian(buf[2..6]), declared;
  }

  /** An accepted buffer holds the whole payload it declares when header and declared length add up below 2^32, and
      a buffer shorter than 4 GiB only then. */
  lemma AcceptedPayloadIsPresentIff(b: seq<Byte>)
    requires Parse(b).Decoded?
    ensures ENVELOPE_SIZE + Parse(b).payloadLen < TWO32 ==> ENVELOPE_SIZE + Parse(b).payloadLen <= |b|
    ensures |b| < TWO32 ==>
              (ENVELOPE_SIZE + Parse(b).payloadLen <= |b| <==> ENVELOPE_SIZE + Parse(b).payloadLen < TWO32)
  {
    var total := ENVELOPE_SIZE + Parse(b).payloadLen;
    assert total < TWO32 ==> Low32(total) == total;
  }

  /** A bare header declaring 2^32 - 1 payload bytes is accepted. */
  lemma BareHeaderAccepted() returns (b: seq<Byte>)
    ensures |b| == ENVELOPE_SIZE && Parse(b) == Decoded(ACK, 0, TWO32 - 1)
  {
    b := [PROTOCOL_VERSION, ACK, 0, 0, 0, 0, 255, 255, 255, 255];
    assert b[2..6] == [0, 0, 0, 0] && b[6..10] == [255, 255, 255, 255];
  }

  /** The bytes `eop_send_command` puts on the wire: both length fields are cut to 32 bits, the payload is not. */
  function ClientFrame(m: Message): seq<Byte> {
    BigEndian(Low32(ENVELOPE_SIZE + |m.payload|)) + Envelope(m)
  }

  /** Wherever the server's builder is defined the two builders emit the same bytes if and only if the payload
      length fits 32 bits; beyond that the server truncates and the client does not. */
  lemma BuildersAgreeIff(m: Message)
    requires Frameable(MessageSerializer.Truncated(m.kind, m.id, m.payload))
    ensures ClientFrame(m) == Frame(MessageSerializer.Truncated(m.kind, m.id, m.payload)) <==> |m.payload| < TWO32
  {
    var t := MessageSerializer.Truncated(m.kind, m.id, m.payload);
    if |m.payload| < TWO32 {
      assert t == m;
    } else {
      assert |Frame(t)| < |ClientFrame(m)|;
    }
  }

  /** A frame from either builder is one both parsers read alike, up to the server's payload cap. */
  lemma BuiltFramesAreConsistent(m: Message, rest: seq<Byte>)
    requires |m.payload| <= MAX_FRAME_PAYLOAD
    ensures Consistent(ClientFrame(m) + rest) && ClientFrame(m) == Frame(m)
  {
    assert ClientFrame(m) == Frame(m);
    hide Frame, ClientFrame, FrameLength, MessageId, PayloadLength;
    FrameFields(m, rest);
  }
}
