/**
 What becomes of a connection on which a client call failed part-way through a frame (`eop_client.c`).
 The handle stays usable and the next call reads on from where the last one stopped; nothing in the
 stream marks where a frame begins.
 */
module Resumption {
  import opened Bytes
  import opened Wire

  /** What successive calls read from `b` up to the first that gets no frame, and what that one finds before it. */
  function ClientReadAll(b: seq<Byte>): (seq<Message>, seq<Byte>)
    decreases |b|
  {
    match ClientParse(b, Timeout)
    case Failed(_) => ([], b)
    case Got(m) =>
      var (ms, left) := ClientReadAll(b[ClientConsumed(b)..]);
      ([m] + ms, left)
  }

  /** The bytes that frames of `ms` take up. */
  function Size(ms: seq<Message>): nat {
    if ms == [] then 0 else HEAD_SIZE + |ms[0].payload| + Size(ms[1..])
  }

  lemma {:induction false} EncodedSize(ms: seq<Message>)
    requires AllFrameable(ms)
    ensures |Encode(ms)| == Size(ms)
  {
    if ms != [] {
      EncodedSize(ms[1..]);
    }
  }

  /** Whatever is read, each byte belongs to one message or is left. */
  lemma {:induction false} ReadsAccountForBytes(b: seq<Byte>)
    ensures Size(ClientReadAll(b).0) + |ClientReadAll(b).1| == |b|
    decreases |b|
  {
    if ClientParse(b, Timeout).Got? {
      var m, rest := ClientParse(b, Timeout).m, b[ClientConsumed(b)..];
      ReadsAccountForBytes(rest);
      assert ([m] + ClientReadAll(rest).0)[1..] == ClientReadAll(rest).0;
    }
  }

  lemma {:induction false} ClientStreamRoundTrip(ms: seq<Message>)
    requires AllFrameable(ms)
    ensures ClientReadAll(Encode(ms)) == (ms, [])
  {
    hide Frame;
    if ms != [] {
      ClientRoundTrip(ms[0], Encode(ms[1..]), Timeout);
      ClientStreamRoundTrip(ms[1..]);
      assert ms == [ms[0]] + ms[1..];
    }
  }

  lemma {:induction false} EncodeSplit(ms: seq<Message>, n: nat)
    requires AllFrameable(ms) && n <= |ms|
    ensures Encode(ms) == Encode(ms[..n]) + Encode(ms[n..])
  {
    hide Frame;
    if n == |ms| {
      assert ms[..n] == ms && ms[n..] == [];
    } else if n == 0 {
      assert ms[..0] == [] && ms[0..] == ms;
    } else {
      EncodeSplit(ms[1..], n - 1);
      assert ms[1..][..n - 1] == ms[..n][1..] && ms[1..][n - 1..] == ms[n..];
      Associate(Frame(ms[0]), Encode(ms[..n][1..]), Encode(ms[n..]));
    }
  }

  /** Where the frame of `ms[n]` begins in the stream. */
  function Boundary(ms: seq<Message>, n: nat): nat
    requires AllFrameable(ms) && n <= |ms|
  {
    |Encode(ms[..n])|
  }

  /** From byte `p` of a stream of frames on, calls that all succeed read the messages from `n` on and nothing else if
      and only if `p` is where frame `n` begins. */
  lemma ResumeIff(ms: seq<Message>, n: nat, p: nat)
    requires AllFrameable(ms) && n <= |ms| && p <= |Encode(ms)|
    ensures ClientReadAll(Encode(ms)[p..]) == (ms[n..], []) <==> p == Boundary(ms, n)
  {
    hide Encode, ClientReadAll, Size;
    EncodeSplit(ms, n);
    EncodedSize(ms[n..]);
    ClientStreamRoundTrip(ms[n..]);
    ReadsAccountForBytes(Encode(ms)[p..]);
    assert Encode(ms)[Boundary(ms, n)..] == Encode(ms[n..]);
  }

  lemma BoundariesGrow(ms: seq<Message>, i: nat, j: nat)
    requires AllFrameable(ms) && i < j <= |ms|
    ensures Boundary(ms, i) + |Frame(ms[i])| <= Boundary(ms, j)
  {
    hide Encode, Frame;
    var first := ms[..j];
    EncodeSplit(first, i);
    assert first[..i] == ms[..i];
    StartsWithFrame(first[i..]);
  }

  lemma StartsWithFrame(ms: seq<Message>)
    requires AllFrameable(ms) && ms != []
    ensures Encode(ms) == Frame(ms[0]) + Encode(ms[1..])
  {
  }

  /** A client that stopped inside a frame reads no tail of the messages without a failed call in between: the calls
      that follow come to one that fails, or they yield something that was never sent. */
  lemma PartWayNeverResumes(ms: seq<Message>, n: nat, k: nat, j: nat)
    requires AllFrameable(ms) && n < |ms| && 0 < k < |Frame(ms[n])| && j <= |ms|
    ensures Boundary(ms, n) + k <= |Encode(ms)|
    ensures ClientReadAll(Encode(ms)[Boundary(ms, n) + k..]) != (ms[j..], [])
  {
    hide Encode, Frame, ClientReadAll;
    BoundariesGrow(ms, n, |ms|);
    assert ms[..|ms|] == ms;
    if j < n {
      BoundariesGrow(ms, j, n);
    } else if j > n {
      BoundariesGrow(ms, n, j);
    }
    ResumeIff(ms, j, Boundary(ms, n) + k);
  }

  // ---- How a client gets back in step ----

  /** Bytes that `calls` further calls take off the connection, whatever comes of them. */
  function Swallowed(b: seq<Byte>, calls: nat): (n: nat)
    ensures n <= |b|
    decreases calls
  {
    if calls == 0 then 0
    else ClientConsumed(b) + Swallowed(b[ClientConsumed(b)..], calls - 1)
  }

  /** After any `calls` further calls, failed ones included, the client reads the messages from `n` on if and only if
      those calls have brought it to where frame `n` begins. */
  lemma ReadsOnIff(ms: seq<Message>, n: nat, p: nat, calls: nat)
    requires AllFrameable(ms) && n <= |ms| && p <= |Encode(ms)|
    ensures var b := Encode(ms)[p..];
            ClientReadAll(b[Swallowed(b, calls)..]) == (ms[n..], []) <==> p + Swallowed(b, calls) == Boundary(ms, n)
  {
    hide Encode, ClientReadAll, Swallowed;
    var b := Encode(ms)[p..];
    assert b[Swallowed(b, calls)..] == Encode(ms)[p + Swallowed(b, calls)..];
    ResumeIff(ms, n, p + Swallowed(b, calls));
  }

  /** After some number of calls the client reads exactly `ms`. */
  ghost predicate ReadsInTheEnd(b: seq<Byte>, ms: seq<Message>) {
    exists calls: nat :: ClientReadAll(b[Swallowed(b, calls)..]) == (ms, [])
  }

  /** Some number of calls takes exactly `target` bytes. */
  ghost predicate Arrives(b: seq<Byte>, target: nat) {
    exists calls: nat :: Swallowed(b, calls) == target
  }

  lemma ArrivesNext(b: seq<Byte>, target: nat)
    requires target > 0
    ensures var n := ClientConsumed(b);
            Arrives(b, target) <==> n <= target && Arrives(b[n..], target - n)
  {
    hide ClientConsumed;
    var n := ClientConsumed(b);
    if Arrives(b, target) {
      var calls: nat :| Swallowed(b, calls) == target;
      assert calls > 0;
      assert Swallowed(b[n..], calls - 1) == target - n;
    }
    if n <= target && Arrives(b[n..], target - n) {
      var calls: nat :| Swallowed(b[n..], calls) == target - n;
      assert Swallowed(b, calls + 1) == target;
    }
  }

  lemma ArrivesAtOnce(b: seq<Byte>)
    ensures Arrives(b, 0)
  {
    assert Swallowed(b, 0) == 0;
  }

  /** Taken 14 bytes at a time, no whole piece has the version where a header has it. */
  predicate NeverAHeader(left: seq<Byte>) {
    |left| >= HEAD_SIZE ==> left[4] != PROTOCOL_VERSION && NeverAHeader(left[HEAD_SIZE..])
  }

  /** A call that starts on such bytes takes one head's worth of them for a header and gives up over the version. */
  lemma NoHeaderHere(left: seq<Byte>, rest: seq<Byte>)
    requires |left| >= HEAD_SIZE && left[4] != PROTOCOL_VERSION
    ensures ClientParse(left + rest, Timeout) == Failed(IoError)
    ensures ClientConsumed(left + rest) == HEAD_SIZE
    ensures (left + rest)[HEAD_SIZE..] == left[HEAD_SIZE..] + rest
  {
    assert (left + rest)[4] == left[4];
  }

  /** With `left` of a frame still to be read and `rest` behind it, the calls that follow arrive exactly at the end of
      the frame if and only if `left` is a multiple of 14 bytes long or nothing follows. */
  lemma {:induction false} ArrivesAtFrameEndIff(left: seq<Byte>, rest: seq<Byte>)
    requires NeverAHeader(left)
    ensures Arrives(left + rest, |left|) <==> |left| % HEAD_SIZE == 0 || rest == []
    decreases |left|
  {
    hide Arrives;
    if left == [] {
      ArrivesAtOnce(left + rest);
    } else {
      ArrivesNext(left + rest, |left|);
      if |left| >= HEAD_SIZE {
        NoHeaderHere(left, rest);
        ArrivesAtFrameEndIff(left[HEAD_SIZE..], rest);
      } else if rest == [] {
        assert left + rest == left;
        ArrivesAtOnce(left[|left|..]);
      }
    }
  }

  predicate IsText(payload: seq<Byte>) {
    forall i :: 0 <= i < |payload| ==> payload[i] != PROTOCOL_VERSION
  }

  lemma {:induction false} TextIsNeverAHeader(text: seq<Byte>)
    requires IsText(text)
    ensures NeverAHeader(text)
  {
    if |text| >= HEAD_SIZE {
      TextIsNeverAHeader(text[HEAD_SIZE..]);
    }
  }

  /** From inside a text payload a call never finds a header. */
  lemma InsidePayload(m: Message, k: nat)
    requires Frameable(m) && IsText(m.payload) && HEAD_SIZE <= k <= |Frame(m)|
    ensures NeverAHeader(Frame(m)[k..])
  {
    hide NeverAHeader;
    FrameFields(m, []);
    var frame := Frame(m);
    assert frame + [] == frame;
    assert frame[k..] == frame[HEAD_SIZE..HEAD_SIZE + |m.payload|][k - HEAD_SIZE..];
    TextIsNeverAHeader(frame[k..]);
  }

  lemma DropInside(a: seq<Byte>, b: seq<Byte>, c: seq<Byte>, k: nat)
    requires k <= |b|
    ensures (a + (b + c))[|a| + k..] == b[k..] + c
  {
  }

  /** What is on the connection once `k` bytes of frame `n` have been read. */
  lemma RestOfStream(ms: seq<Message>, n: nat, k: nat)
    requires AllFrameable(ms) && n < |ms| && k <= |Frame(ms[n])|
    ensures Boundary(ms, n) + |Frame(ms[n])| == Boundary(ms, n + 1) <= |Encode(ms)|
    ensures Encode(ms)[Boundary(ms, n) + k..] == Frame(ms[n])[k..] + Encode(ms[n + 1..])
  {
    hide Frame, Encode;
    var frame, later := Frame(ms[n]), Encode(ms[n + 1..]);
    EncodeSplit(ms, n);
    EncodeSplit(ms, n + 1);
    StartsWithFrame(ms[n..]);
    assert ms[n..][0] == ms[n] && ms[n..][1..] == ms[n + 1..];
    DropInside(Encode(ms[..n]), frame, later, k);
  }

  /** The law of realignment. A client that stopped after `k` bytes of frame `n`, where no piece of the rest looks
      like a header, reads the messages behind that frame after some number of failed calls if and only if the rest of
      the frame is a multiple of 14 bytes long or no frame follows. */
  lemma RealignsAtFrameEndIff(ms: seq<Message>, n: nat, k: nat)
    requires AllFrameable(ms) && n < |ms| && k <= |Frame(ms[n])| && NeverAHeader(Frame(ms[n])[k..])
    ensures Boundary(ms, n) + k <= |Encode(ms)|
    ensures var b := Encode(ms)[Boundary(ms, n) + k..];
            ReadsInTheEnd(b, ms[n + 1..]) <==> (|Frame(ms[n])| - k) % HEAD_SIZE == 0 || n + 1 == |ms|
  {
    hide Frame, Encode, ClientReadAll, Swallowed, NeverAHeader;
    RestOfStream(ms, n, k);
    var p, left := Boundary(ms, n) + k, Frame(ms[n])[k..];
    var b := Encode(ms)[p..];
    ArrivesAtFrameEndIff(left, Encode(ms[n + 1..]));
    NothingFollowsIff(ms[n + 1..]);
    if ReadsInTheEnd(b, ms[n + 1..]) {
      var calls: nat :| ClientReadAll(b[Swallowed(b, calls)..]) == (ms[n + 1..], []);
      ReadsOnIff(ms, n + 1, p, calls);
      assert Swallowed(b, calls) == |left|;
    }
    if Arrives(b, |left|) {
      var calls: nat :| Swallowed(b, calls) == |left|;
      ReadsOnIff(ms, n + 1, p, calls);
      assert ClientReadAll(b[Swallowed(b, calls)..]) == (ms[n + 1..], []);
    }
  }

  lemma NothingFollowsIff(ms: seq<Message>)
    requires AllFrameable(ms)
    ensures Encode(ms) == [] <==> ms == []
  {
  }

  /** For every byte inside a text payload, and for its end. */
  lemma TextRealignsIff(ms: seq<Message>, n: nat, k: nat)
    requires AllFrameable(ms) && n < |ms| && HEAD_SIZE <= k <= |Frame(ms[n])| && IsText(ms[n].payload)
    ensures Boundary(ms, n) + k <= |Encode(ms)|
    ensures var b := Encode(ms)[Boundary(ms, n) + k..];
            ReadsInTheEnd(b, ms[n + 1..]) <==> (|Frame(ms[n])| - k) % HEAD_SIZE == 0 || n + 1 == |ms|
  {
    hide Frame, Encode, ClientReadAll, Swallowed, NeverAHeader;
    InsidePayload(ms[n], k);
    RealignsAtFrameEndIff(ms, n, k);
  }
}
