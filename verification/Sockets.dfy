/**
 A connected stream socket as the code sees it: an adversary fixes beforehand how the bytes are
 cut up and which calls fail, and `recv` and `send` follow that script.
 */
module Sockets {
  import opened Bytes
  import opened Wire

  type Chunk = b: seq<Byte> | |b| > 0 witness [0]

  /** What a `recv` call will find. The peer has shut down once the script is used up. */
  datatype RecvEvent =
    | Data(bytes: Chunk)
    | Interrupt   // EINTR
    | WouldBlock  // EAGAIN, or a poll that reports no input in time
    | Fault       // any other errno

  datatype RecvResult = Received(bytes: Chunk) | EndOfStream | Interrupted | NothingYet | Broken

  /** What a `send` call will do. A used-up script refuses. */
  datatype SendEvent = Takes(upTo: nat) | SendInterrupt | Refuses

  datatype SendResult = Sent(n: nat) | SendInterrupted | SendFailed

  /** The bytes that arrive before the first event that makes the reader give up. The server retries
      after EINTR, the client does not. */
  function Available(script: seq<RecvEvent>, retries: bool): seq<Byte> {
    if script == [] then []
    else match script[0]
      case Data(bytes) => bytes + Available(script[1..], retries)
      case Interrupt => if retries then Available(script[1..], retries) else []
      case _ => []
  }

  /** What that first event amounts to. */
  function Ending(script: seq<RecvEvent>, retries: bool): Status {
    if script == [] then PeerClosed
    else match script[0]
      case Data(_) => Ending(script[1..], retries)
      case Interrupt => if retries then Ending(script[1..], retries) else IoError
      case WouldBlock => Timeout
      case Fault => IoError
  }

  /** How many bytes the peer takes before the sender gives up; again only the server retries after EINTR. */
  function Accepted(script: seq<SendEvent>, retries: bool): nat {
    if script == [] then 0
    else match script[0]
      case Takes(n) => n + Accepted(script[1..], retries)
      case SendInterrupt => if retries then Accepted(script[1..], retries) else 0
      case Refuses => 0
  }

  function Min(a: nat, b: nat): nat {
    if a < b then a else b
  }

  class Socket {
    var arrivals: seq<RecvEvent>
    var departures: seq<SendEvent>
    var sent: seq<Byte>

    constructor (arrivals: seq<RecvEvent>, departures: seq<SendEvent>)
      ensures this.arrivals == arrivals && this.departures == departures && sent == []
    {
      this.arrivals, this.departures, sent := arrivals, departures, [];
    }

    /** At most `max` bytes of the next chunk; what is left of it stays for the next call. */
    method Recv(max: nat) returns (r: RecvResult)
      requires max > 0
      modifies this`arrivals
      ensures r.Received? ==>
                && |r.bytes| <= max
                && forall retries: bool ::
                     && Available(old(arrivals), retries) == r.bytes + Available(arrivals, retries)
                     && Ending(arrivals, retries) == Ending(old(arrivals), retries)
      ensures r.EndOfStream? <==> old(arrivals) == []
      ensures r.EndOfStream? ==> arrivals == []
      ensures r.Interrupted? <==> old(arrivals) != [] && old(arrivals)[0].Interrupt?
      ensures r.NothingYet? <==> old(arrivals) != [] && old(arrivals)[0].WouldBlock?
      ensures r.Broken? <==> old(arrivals) != [] && old(arrivals)[0].Fault?
      ensures r.Interrupted? || r.NothingYet? || r.Broken? ==> arrivals == old(arrivals)[1..]
    {
      if arrivals == [] {
        return EndOfStream;
      }
      match arrivals[0]
      case Data(bytes) =>
        if |bytes| <= max {
          r := Received(bytes);
          arrivals := arrivals[1..];
        } else {
          r := Received(bytes[..max]);
          arrivals := [Data(bytes[max..])] + arrivals[1..];
          assert bytes == bytes[..max] + bytes[max..];
        }
      case Interrupt =>
        arrivals := arrivals[1..];
        r := Interrupted;
      case WouldBlock =>
        arrivals := arrivals[1..];
        r := NothingYet;
      case Fault =>
        arrivals := arrivals[1..];
        r := Broken;
    }

    /** A prefix of `data`, possibly empty, enters the connection; what the peer would still take is left for the next
        call. */
    method Send(data: seq<Byte>) returns (r: SendResult)
      modifies this`departures, this`sent
      ensures r.Sent? ==>
                && r.n <= |data| && sent == old(sent) + data[..r.n]
                && (r.n < |data| ==> |departures| < |old(departures)|)
                && forall retries: bool :: Accepted(old(departures), retries) == r.n + Accepted(departures, retries)
      ensures !r.Sent? ==> sent == old(sent)
      ensures r.SendInterrupted? <==> old(departures) != [] && old(departures)[0].SendInterrupt?
      ensures r.SendInterrupted? ==> departures == old(departures)[1..]
      ensures r.SendFailed? <==> old(departures) == [] || old(departures)[0].Refuses?
    {
      if departures == [] {
        return SendFailed;
      }
      match departures[0]
      case Takes(upTo) =>
        var n := Min(upTo, |data|);
        sent := sent + data[..n];
        r := Sent(n);
        departures := if upTo <= |data| then departures[1..] else [Takes(upTo - n)] + departures[1..];
      case SendInterrupt =>
        r := SendInterrupted;
        departures := departures[1..];
      case Refuses =>
        r := SendFailed;
        departures := departures[1..];
    }
  }
}
