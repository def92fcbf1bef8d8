/** Which frame each client call takes off the connection, over whole runs. */
module AlignmentResults {
  import opened Bytes
  import opened Wire
  import opened Sessions
  import opened Resumption
  import opened Alignment
  import ClientEnvelope
  import EopClient

  // ---- Lists of calls ----

  function AndThen(taken: seq<Message>, r: Result): seq<Message> {
    if TookFrame(r) then taken + [r.m] else taken
  }

  lemma CallsAppend(calls: seq<Call>, c: Call)
    ensures Requests(calls + [c]) == Requests(calls) + [c.request]
    ensures FramesTaken(calls + [c]) == AndThen(FramesTaken(calls), c.result)
  {
    assert (calls + [c])[..|calls + [c]| - 1] == calls;
  }

  lemma LastCall(calls: seq<Call>)
    requires calls != []
    ensures var earlier, c := calls[..|calls| - 1], calls[|calls| - 1];
            && Requests(calls) == Requests(earlier) + [c.request]
            && FramesTaken(calls) == AndThen(FramesTaken(earlier), c.result)
  {
  }

  lemma CallsFinish(calls: seq<Call>, r: Result)
    requires calls != [] && calls[|calls| - 1].result.Pending?
    ensures Requests(Finish(calls, r)) == Requests(calls)
    ensures FramesTaken(Finish(calls, r)) == AndThen(FramesTaken(calls), r)
    ensures FramesTaken(calls[..|calls| - 1]) == FramesTaken(calls)
  {
    hide Requests, FramesTaken;
    var earlier, c := calls[..|calls| - 1], calls[|calls| - 1];
    CallsAppend(earlier, c.(result := r));
    LastCall(calls);
  }

  lemma {:induction false} RequestsPrefix(calls: seq<Call>, k: nat)
    requires k <= |calls|
    ensures Requests(calls[..k]) == Requests(calls)[..k]
    ensures k < |calls| ==> Requests(calls)[k] == calls[k].request
  {
    if k < |calls| {
      var last := |calls| - 1;
      RequestsPrefix(calls[..last], k);
      assert calls[..last][..k] == calls[..k];
    } else {
      assert calls[..k] == calls;
    }
  }

  lemma QuestionsNext(ms: seq<Message>, k: nat)
    requires k < |ms|
    ensures Questions(ms[..k + 1]) == Questions(ms[..k]) + if ms[k].kind == HEARTBEAT then [] else [ms[k]]
  {
    assert ms[..k + 1][..k] == ms[..k];
  }

  lemma {:induction false} QuestionsGrow(ms: seq<Message>, j: nat, k: nat)
    requires j <= k <= |ms|
    ensures Questions(ms[..j]) <= Questions(ms[..k])
  {
    if j < k {
      QuestionsGrow(ms, j, k - 1);
      QuestionsNext(ms, k - 1);
    }
  }

  lemma {:induction false} FramesTakenGrow(calls: seq<Call>, i: nat)
    requires i <= |calls|
    ensures FramesTaken(calls[..i]) <= FramesTaken(calls)
    ensures i < |calls| && TookFrame(calls[i].result) ==>
              && |FramesTaken(calls[..i])| < |FramesTaken(calls)|
              && FramesTaken(calls)[|FramesTaken(calls[..i])|] == calls[i].result.m
  {
    var last := |calls| - 1;
    if i == |calls| {
      assert calls[..i] == calls;
    } else {
      FramesTakenGrow(calls[..last], i);
      assert calls[..last][..i] == calls[..i];
    }
  }

  // ---- One step ----

  lemma NeverAheadAppend(calls: seq<Call>, c: Call)
    requires NeverAhead(calls)
    requires TookFrame(c.result) ==> |FramesTaken(calls)| <= |Questions(Requests(calls + [c]))|
    ensures NeverAhead(calls + [c])
  {
    assert (calls + [c])[..|calls + [c]| - 1] == calls;
  }

  lemma WholeAppend(calls: seq<Call>, c: Call)
    ensures Unbroken(calls + [c]) <==> Unbroken(calls) && !c.result.BrokeOff?
    ensures Whole(calls + [c]) == if Unbroken(calls + [c]) then calls + [c] else Whole(calls)
  {
    var longer := calls + [c];
    assert longer[..|longer| - 1] == calls && longer[|calls|] == c;
    assert forall i :: 0 <= i < |calls| ==> longer[i] == calls[i];
  }

  lemma UnbrokenIsWhole(calls: seq<Call>)
    ensures Unbroken(calls) <==> Whole(calls) == calls
    decreases |calls|
  {
    if calls != [] {
      var last := |calls| - 1;
      UnbrokenIsWhole(calls[..last]);
      assert calls == calls[..last] + [calls[last]];
      WholeAppend(calls[..last], calls[last]);
    }
  }

  lemma {:induction false} WholeCovers(calls: seq<Call>, n: nat)
    requires n <= |calls| && Unbroken(calls[..n])
    ensures n <= |Whole(calls)|
  {
    if n == |calls| {
      assert calls[..n] == calls;
      UnbrokenIsWhole(calls);
    } else {
      var last := |calls| - 1;
      assert calls[..last][..n] == calls[..n];
      WholeCovers(calls[..last], n);
    }
  }

  lemma FinishIds(issued: nat, calls: seq<Call>, r: Result)
    requires IdsAscend(issued, calls) && calls != []
    ensures IdsAscend(issued, Finish(calls, r))
  {
  }

  /** How the last call ends. */
  lemma WholeFinish(calls: seq<Call>, r: Result)
    requires calls != [] && calls[|calls| - 1].result.Pending?
    ensures Unbroken(Finish(calls, r)) <==> Unbroken(calls) && !r.BrokeOff?
    ensures !Unbroken(calls) ==> Whole(Finish(calls, r)) == Whole(calls)
    ensures Unbroken(calls) ==> Whole(calls) == calls
    ensures Unbroken(calls) ==>
              Whole(Finish(calls, r)) == if r.BrokeOff? then calls[..|calls| - 1] else Finish(calls, r)
  {
    hide Unbroken, Whole;
    var earlier, c := calls[..|calls| - 1], calls[|calls| - 1];
    assert calls == earlier + [c];
    WholeAppend(earlier, c);
    WholeAppend(earlier, c.(result := r));
    UnbrokenIsWhole(earlier);
  }

  /** The part of the invariant that ties calls to frames, when the pending call breaks off, or one has before. */
  lemma BreakClient(calls: seq<Call>, r: Result, out: seq<Message>, position: nat, position': nat)
    requires AllFrameable(out) && ClientSide(calls, out, position)
    requires calls != [] && calls[|calls| - 1].result.Pending? && (r.BrokeOff? || !Unbroken(calls))
    ensures ClientSide(Finish(calls, r), out, position')
  {
    hide Questions, Requests, FramesTaken, NeverAhead, Boundary, Whole, Unbroken;
    WholeFinish(calls, r);
    CallsFinish(calls, r);
    if Unbroken(calls) {
      EarlierNeverAhead(calls);
    }
  }

  /** The same when it gives up or takes the next frame, and none has broken off. */
  lemma FinishClient(calls: seq<Call>, r: Result, out: seq<Message>, position: nat, position': nat)
    requires AllFrameable(out) && ClientSide(calls, out, position) && Unbroken(calls)
    requires calls != [] && calls[|calls| - 1].result.Pending? && (r.GaveUp? || TookFrame(r))
    requires r.GaveUp? ==> position' == position
    requires TookFrame(r) ==>
               var k := |FramesTaken(calls)|;
               && k < |out| && r.m == out[k] && position' == Boundary(out, k + 1)
               && k <= |Questions(Requests(calls))|
    ensures ClientSide(Finish(calls, r), out, position')
  {
    hide Questions, Requests, FramesTaken, NeverAhead, Boundary, Whole, Unbroken;
    WholeFinish(calls, r);
    CallsFinish(calls, r);
    EarlierNeverAhead(calls);
    NeverAheadAppend(calls[..|calls| - 1], calls[|calls| - 1].(result := r));
    if TookFrame(r) {
      var k := |FramesTaken(calls)|;
      assert out[..k] + [out[k]] == out[..k + 1];
    }
  }

  lemma EarlierNeverAhead(calls: seq<Call>)
    requires NeverAhead(calls) && calls != []
    ensures NeverAhead(calls[..|calls| - 1])
  {
  }

  /** The same when the server sends one more frame. */
  lemma OutGrows(calls: seq<Call>, out: seq<Message>, position: nat, toClient: seq<Byte>, m: Message)
    requires StreamSide(out, position, toClient) && ClientSide(calls, out, position) && Frameable(m)
    ensures StreamSide(out + [m], position, toClient + Frame(m)) && ClientSide(calls, out + [m], position)
  {
    hide Frame, Encode, FramesTaken, NeverAhead, Whole, Unbroken;
    var k := |FramesTaken(Whole(calls))|;
    EncodeAppend(out, m);
    assert (Encode(out) + Frame(m))[position..] == Encode(out)[position..] + Frame(m);
    assert (out + [m])[..k] == out[..k];
  }

  lemma StartClient(calls: seq<Call>, c: Call, out: seq<Message>, position: nat)
    requires AllFrameable(out) && ClientSide(calls, out, position) && c.result.Pending?
    ensures ClientSide(calls + [c], out, position)
  {
    hide Questions, Requests, FramesTaken, NeverAhead, Boundary, Whole, Unbroken;
    WholeAppend(calls, c);
    UnbrokenIsWhole(calls);
    if Unbroken(calls) {
      CallsAppend(calls, c);
      NeverAheadAppend(calls, c);
    }
  }

  lemma StartCallInv(st: State, kind: Byte, payload: seq<Byte>)
    requires Inv(st) && Enabled(st, StartCall(kind, payload))
    ensures Inv(Do(st, StartCall(kind, payload)))
  {
    hide Frame, Encode, Questions, Requests, StreamSide, ClientSide;
    var m, requests := NextRequest(st, kind, payload), Requests(st.calls);
    var c := Call(st.issued, m, Pending);
    CallsAppend(st.calls, c);
    StreamIsFrameable(st.out, st.position, st.toClient);
    StartClient(st.calls, c, st.out, st.position);
    EncodeAppend(requests[st.served..], m);
    assert (requests + [m])[st.served..] == requests[st.served..] + [m];
    assert (requests + [m])[..st.served] == requests[..st.served];
  }

  lemma StreamIsFrameable(out: seq<Message>, position: nat, toClient: seq<Byte>)
    requires StreamSide(out, position, toClient)
    ensures AllFrameable(out)
  {
  }

  /** The greeting is sent before anything is read. */
  lemma GreetInv(st: State, m: Message)
    requires Inv(st) && st.out == [] && Frameable(m)
    ensures Inv(Greet(st, m))
  {
    hide Frame, StreamSide, ClientSide, Requests, IdsAscend;
    StreamIsFrameable(st.out, st.position, st.toClient);
    OutGrows(st.calls, [], st.position, st.toClient, m);
    assert [] + [m] == [m];
    assert Requests(st.calls)[..0] == [];
  }

  /** The server reads the oldest request it has not read yet. */
  lemma ServeReads(st: State)
    requires ServerSide(st) && ServerParse(st.toServer, Timeout).Got?
    ensures var requests := Requests(st.calls);
            && st.served < |requests|
            && ServerParse(st.toServer, Timeout).m == requests[st.served]
            && st.toServer[ServerConsumed(st.toServer)..] == Encode(requests[st.served + 1..])
  {
    hide Frame;
    var left := Requests(st.calls)[st.served..];
    assert left != [];
    ServerRoundTrip(left[0], Encode(left[1..]), Timeout);
    assert left[1..] == Requests(st.calls)[st.served + 1..];
  }

  lemma ServeInv(st: State, kind: Byte, payload: seq<Byte>)
    requires Inv(st) && Enabled(st, Serve(kind, payload))
    ensures Inv(Do(st, Serve(kind, payload)))
  {
    hide Frame, Encode, ServerParse, ServerConsumed, Requests, Questions, StreamSide, ClientSide, IdsAscend;
    ServeReads(st);
    var requests := Requests(st.calls);
    var m := requests[st.served];
    QuestionsNext(requests, st.served);
    StreamIsFrameable(st.out, st.position, st.toClient);
    OutGrows(st.calls, st.out, st.position, st.toClient, Message(kind, m.id, payload));
  }

  /** Between two frames the client reads the next one. */
  lemma TakeReads(out: seq<Message>, k: nat, toClient: seq<Byte>)
    requires AllFrameable(out) && k <= |out| && Boundary(out, k) <= |Encode(out)|
    requires toClient == Encode(out)[Boundary(out, k)..]
    requires ClientParse(toClient, Timeout).Got?
    ensures k < |out| && ClientParse(toClient, Timeout).m == out[k]
    ensures Boundary(out, k) + ClientConsumed(toClient) == Boundary(out, k + 1)
  {
    hide Frame, Encode, ClientParse, ClientConsumed;
    if k == |out| {
      assert out[..k] == out;
      NothingToParse();
    } else {
      RestOfStream(out, k, 0);
      assert Frame(out[k])[0..] == Frame(out[k]);
      ClientRoundTrip(out[k], Encode(out[k + 1..]), Timeout);
      assert |Frame(out[k])| + |Encode(out[k + 1..])| == |toClient|;
    }
  }

  lemma NothingToParse()
    ensures ClientParse([], Timeout).Failed?
  {
  }

  /** A step of the stream. */
  lemma StreamShrinks(out: seq<Message>, position: nat, toClient: seq<Byte>, k: nat)
    requires StreamSide(out, position, toClient) && k <= |toClient|
    ensures StreamSide(out, position + k, toClient[k..])
  {
    hide Encode;
    assert Encode(out)[position..][k..] == Encode(out)[position + k..];
  }

  /** The pending call ends, whatever the result: all that has to be shown is what it means for the calls. */
  lemma ReadsInv(st: State, k: nat, r: Result)
    requires Inv(st) && Waiting(st) && k <= |st.toClient| && AllFrameable(st.out)
    requires ClientSide(Finish(st.calls, r), st.out, st.position + k)
    ensures Inv(Reads(st, k, r))
  {
    hide Questions, Encode, Requests, ClientSide, StreamSide, IdsAscend;
    CallsFinish(st.calls, r);
    FinishIds(st.issued, st.calls, r);
    StreamShrinks(st.out, st.position, st.toClient, k);
  }

  lemma TakeInv(st: State, handOver: bool)
    requires Inv(st) && Enabled(st, Return)
    ensures Inv(Take(st, handOver))
  {
    hide Frame, Encode, ClientParse, ClientConsumed, Questions, Requests, FramesTaken, Boundary, IdsAscend;
    hide Unbroken, Whole;
    var m := ClientParse(st.toClient, Timeout).m;
    var r := if handOver then Returned(m) else Discarded(m);
    if Unbroken(st.calls) {
      UnbrokenIsWhole(st.calls);
      TakeReads(st.out, |FramesTaken(st.calls)|, st.toClient);
      var requests := Requests(st.calls);
      QuestionsGrow(requests, st.served, |requests|);
      assert requests[..|requests|] == requests;
      FinishClient(st.calls, r, st.out, st.position, st.position + ClientConsumed(st.toClient));
    } else {
      BreakClient(st.calls, r, st.out, st.position, st.position + ClientConsumed(st.toClient));
    }
    ReadsInv(st, ClientConsumed(st.toClient), r);
  }

  lemma StopInv(st: State, k: nat, r: Result)
    requires Inv(st) && Waiting(st) && k <= |st.toClient| && (r == BrokeOff || (r == GaveUp && k == 0))
    ensures Inv(Reads(st, k, r))
  {
    hide ServerSide, ClientSide, Encode, IdsAscend, Unbroken;
    if r == BrokeOff || !Unbroken(st.calls) {
      BreakClient(st.calls, r, st.out, st.position, st.position + k);
    } else {
      FinishClient(st.calls, r, st.out, st.position, st.position + k);
    }
    ReadsInv(st, k, r);
  }

  lemma FreshInv(issued: nat)
    ensures Inv(Fresh(issued))
  {
  }

  /** Using up an id and closing the server's end touch nothing else. */
  lemma AsideInv(st: State, issued: nat, gone: bool)
    requires Inv(st) && st.issued <= issued
    ensures Inv(st.(issued := issued, gone := gone))
  {
    hide Encode, Requests, Questions, StreamSide, ClientSide;
  }

  lemma StepInv(st: State, a: Action)
    requires Inv(st) && Enabled(st, a)
    ensures Inv(Do(st, a))
  {
    hide Inv, Fresh, Greet, Take, Reads, Finish, Frame, ServerParse, ClientParse, ServerConsumed, ClientConsumed;
    match a
    case Reconnect => FreshInv(st.issued);
    case Welcome(id, payload) => GreetInv(st, Message(ACK, id, payload));
    case Refuse(payload) =>
      GreetInv(st, Message(ERROR_MSG, 0, payload));
      var greeted := Greet(st, Message(ERROR_MSG, 0, payload));
      AsideInv(greeted, greeted.issued, true);
    case StartCall(kind, payload) => StartCallInv(st, kind, payload);
    case WasteId => AsideInv(st, st.issued + 1, st.gone);
    case Serve(kind, payload) => ServeInv(st, kind, payload);
    case ServerCloses => AsideInv(st, st.issued, true);
    case Return => TakeInv(st, true);
    case Discard => TakeInv(st, false);
    case BreakOff(k) => StopInv(st, k, BrokeOff);
    case GiveUp => StopInv(st, 0, GaveUp);
  }

  lemma {:induction false} RunInv(acts: seq<Action>)
    requires Run(acts).At?
    ensures Inv(Run(acts).st)
  {
    if acts == [] {
      FreshInv(0);
    } else {
      RunInv(acts[..|acts| - 1]);
      StepInv(Run(acts[..|acts| - 1]).st, acts[|acts| - 1]);
    }
  }

  /** How many of the actions use up an id. */
  function IdsDrawn(acts: seq<Action>): nat {
    if acts == [] then 0
    else
      var a := acts[|acts| - 1];
      IdsDrawn(acts[..|acts| - 1]) + if a.StartCall? || a.WasteId? then 1 else 0
  }

  lemma StepDraws(st: State, a: Action)
    requires Enabled(st, a)
    ensures Do(st, a).issued == st.issued + if a.StartCall? || a.WasteId? then 1 else 0
  {
    hide Frame, ServerParse, ClientParse, ServerConsumed, ClientConsumed, Finish;
  }

  lemma {:induction false} CounterCountsCalls(acts: seq<Action>)
    requires Run(acts).At?
    ensures Run(acts).st.issued == IdsDrawn(acts)
  {
    hide Enabled, Do;
    if acts != [] {
      CounterCountsCalls(acts[..|acts| - 1]);
      StepDraws(Run(acts[..|acts| - 1]).st, acts[|acts| - 1]);
    }
  }

  /** The id counter belongs to the handle: it counts the calls of the whole run, across reconnects, and each call on
      the wire carries its own number modulo 2^32. */
  lemma IdsSurviveReconnect(acts: seq<Action>, i: nat)
    requires Run(acts).At?
    ensures Run(acts).st.issued == IdsDrawn(acts)
    ensures i < |Run(acts).st.calls| ==>
              && Run(acts).st.calls[i].serial < IdsDrawn(acts)
              && Run(acts).st.calls[i].request.id == Run(acts).st.calls[i].serial % TWO32
  {
    hide Run, Inv, IdsDrawn;
    RunInv(acts);
    CounterCountsCalls(acts);
    if i < |Run(acts).st.calls| {
      IdsOfCalls(Run(acts).st, i);
    }
  }

  lemma IdsOfCalls(st: State, i: nat)
    requires Inv(st) && i < |st.calls|
    ensures st.calls[i].serial < st.issued && st.calls[i].request.id == st.calls[i].serial % TWO32
  {
  }

  /** What the machine's server step sends is what the session's handlers send, whenever that can be framed. */
  lemma ServeIsAnExchange(st: State, codec: Codec, x: Exchange) returns (a: Action)
    requires st.out != [] && !st.gone && ServerParse(st.toServer, Timeout) == Got(x.msg)
    requires Handled(codec, x) && forall r <- x.replies :: Frameable(ReplyMessage(codec, x.msg.id, r))
    ensures Enabled(st, a) && a.Serve?
    ensures Do(st, a).out == st.out + ReplyMessages(codec, x.msg.id, x.replies)
  {
    hide Handled, ServerParse, Frame;
    HandledRepliesOnce(codec, x);
    if x.msg.kind == HEARTBEAT {
      a := Serve(ACK, []);
    } else {
      assert x.replies[0] in x.replies;
      var reply := ReplyMessage(codec, x.msg.id, x.replies[0]);
      a := Serve(reply.kind, reply.payload);
    }
  }

  /** Whatever a call of the client handle comes to when it reads, the machine has that step: it takes a whole
      frame, or it gives up with nothing read, or it breaks off where the handle leaves the stream. */
  lemma HandleOutcomesAreSteps(b: seq<Byte>, ending: Status, memory: seq<bool>)
    ensures var ok := EopClient.ReplyVerdict(b, ending, memory) == ClientEnvelope.EopOk;
            && (ok ==> ClientParse(b, Timeout).Got?)
            && (!ok && b != [] ==> CanStopAt(b, if EopClient.StopsAfterHead(b, memory) then HEAD_SIZE else |b|))
  {
  }

  // ---- Which frame a call takes ----

  /** Frames taken before call `i`: the position, among the frames sent, of the one call `i` takes. */
  function Taken(calls: seq<Call>, i: nat): nat
    requires i <= |calls|
  {
    |FramesTaken(calls[..i])|
  }

  /** Calls before call `i` that are owed a reply. */
  function Asked(calls: seq<Call>, i: nat): nat
    requires i <= |calls|
  {
    |Questions(Requests(calls[..i]))|
  }

  /** How many frames call `i` is behind: the greeting and one reply per question are due, less what was taken. */
  function Behind(calls: seq<Call>, i: nat): int
    requires i <= |calls|
  {
    1 + Asked(calls, i) - Taken(calls, i)
  }

  predicate IsQuestion(c: Call) {
    c.request.kind != HEARTBEAT
  }

  lemma AskedNext(calls: seq<Call>, i: nat)
    requires i < |calls|
    ensures Asked(calls, i + 1) == Asked(calls, i) + if IsQuestion(calls[i]) then 1 else 0
  {
    var requests := Requests(calls);
    RequestsPrefix(calls, i);
    RequestsPrefix(calls, i + 1);
    QuestionsNext(requests, i);
  }

  lemma TakenNext(calls: seq<Call>, i: nat)
    requires i < |calls|
    ensures Taken(calls, i + 1) == Taken(calls, i) + if TookFrame(calls[i].result) then 1 else 0
  {
    assert calls[..i + 1][..i] == calls[..i];
  }

  /** As long as no call breaks off, the n-th call since connecting that takes a frame takes the n-th of the greeting
      followed by the replies, and returns it unless memory runs out. */
  lemma CallsTakeInOrder(acts: seq<Action>, i: nat)
    requires Run(acts).At? && i < |Run(acts).st.calls| && TookFrame(Run(acts).st.calls[i].result)
    requires Unbroken(Run(acts).st.calls[..i])
    ensures var st := Run(acts).st;
            && Taken(st.calls, i) < |st.out|
            && st.calls[i].result.m == st.out[Taken(st.calls, i)]
  {
    hide Run;
    RunInv(acts);
    TakenIn(Run(acts).st, i);
  }

  lemma TakenIn(st: State, i: nat)
    requires Inv(st) && i < |st.calls| && TookFrame(st.calls[i].result) && Unbroken(st.calls[..i])
    ensures Taken(st.calls, i) < |st.out| && st.calls[i].result.m == st.out[Taken(st.calls, i)]
    ensures Taken(st.calls, i) <= Asked(st.calls, i + 1)
  {
    hide ServerSide, StreamSide, FramesTaken, NeverAhead, Boundary, Questions, Requests, Whole;
    var w := Whole(st.calls);
    assert Unbroken(st.calls[..i + 1]);
    WholeCovers(st.calls, i + 1);
    SameCounts(st.calls, |w|, i);
    SameCounts(st.calls, |w|, i + 1);
    FramesTakenGrow(w, i);
    NeverAheadAt(w, i);
  }

  /** The counts at `i` depend on the calls before it only. */
  lemma SameCounts(calls: seq<Call>, n: nat, i: nat)
    requires i <= n <= |calls|
    ensures Taken(calls[..n], i) == Taken(calls, i) && Asked(calls[..n], i) == Asked(calls, i)
  {
    assert calls[..n][..i] == calls[..i];
  }

  lemma {:induction false} NeverAheadAt(calls: seq<Call>, i: nat)
    requires NeverAhead(calls) && i < |calls| && TookFrame(calls[i].result)
    ensures Taken(calls, i) <= Asked(calls, i + 1)
  {
    var last := |calls| - 1;
    if i == last {
      assert calls[..i + 1] == calls;
    } else {
      NeverAheadAt(calls[..last], i);
      assert calls[..last][..i] == calls[..i] && calls[..last][..i + 1] == calls[..i + 1];
    }
  }

  /** The k-th question among the requests is one particular call. */
  lemma {:induction false} QuestionOrigin(ms: seq<Message>, k: nat) returns (j: nat)
    requires k < |Questions(ms)|
    ensures j < |ms| && ms[j].kind != HEARTBEAT && |Questions(ms[..j])| == k && Questions(ms)[k] == ms[j]
  {
    var last := |ms| - 1;
    if k < |Questions(ms[..last])| {
      j := QuestionOrigin(ms[..last], k);
      assert ms[..last][..j] == ms[..j];
    } else {
      j := last;
    }
  }

  /** The n-th frame sent after the greeting is the reply to one particular call. */
  lemma OriginOf(st: State, n: nat) returns (j: nat)
    requires ServerSide(st) && 0 < n < |st.out|
    ensures j < |st.calls| && IsQuestion(st.calls[j]) && Asked(st.calls, j) == n - 1
    ensures st.out[n].id == st.calls[j].request.id
  {
    hide Encode;
    var requests := Requests(st.calls);
    j := QuestionOrigin(requests[..st.served], n - 1);
    assert requests[..st.served][..j] == requests[..j];
    RequestsPrefix(st.calls, j);
  }

  /** A call that does not take the greeting takes the reply to the call that asked the question at its position, never
      to a later call than itself. */
  lemma ReplyOrigin(acts: seq<Action>, i: nat) returns (j: nat)
    requires Run(acts).At? && i < |Run(acts).st.calls| && TookFrame(Run(acts).st.calls[i].result)
    requires Unbroken(Run(acts).st.calls[..i]) && Taken(Run(acts).st.calls, i) > 0
    ensures var calls := Run(acts).st.calls;
            && j <= i && IsQuestion(calls[j]) && Asked(calls, j) == Asked(calls, i) - Behind(calls, i)
            && calls[i].result.m.id == calls[j].request.id
  {
    hide Run;
    RunInv(acts);
    j := OriginIn(Run(acts).st, i);
  }

  lemma OriginIn(st: State, i: nat) returns (j: nat)
    requires Inv(st) && i < |st.calls| && TookFrame(st.calls[i].result) && Unbroken(st.calls[..i])
    requires 0 < Taken(st.calls, i)
    ensures j <= i && IsQuestion(st.calls[j]) && Asked(st.calls, j) == Taken(st.calls, i) - 1
    ensures st.calls[i].result.m.id == st.calls[j].request.id
  {
    hide ServerSide, StreamSide, ClientSide, Taken, Asked;
    TakenIn(st, i);
    j := OriginOf(st, Taken(st.calls, i));
    if j > i {
      AskedGrows(st.calls, i + 1, j);
      assert false;
    }
  }

  lemma SerialsTellApart(a: nat, b: nat)
    requires a < b < a + TWO32
    ensures Low32(a) != Low32(b)
  {
    var d := b - a;
    assert b % TWO32 == (a % TWO32 + d) % TWO32;
  }

  /** A call gets the reply to its own request if and only if it is a question and not a frame behind. The ids are told
      apart as long as fewer than 2^32 of them are in use on the connection; the first frame taken is the greeting. */
  lemma OwnReplyIff(acts: seq<Action>, i: nat)
    requires Run(acts).At? && i < |Run(acts).st.calls| && TookFrame(Run(acts).st.calls[i].result)
    requires Unbroken(Run(acts).st.calls[..i])
    ensures var st := Run(acts).st;
            var c, aligned := st.calls[i], IsQuestion(st.calls[i]) && Behind(st.calls, i) == 0;
            && (Taken(st.calls, i) == 0 ==> st.out != [] && c.result.m == st.out[0] && !aligned)
            && (aligned ==> c.result.m.id == c.request.id)
            && (Taken(st.calls, i) > 0 && st.issued <= st.calls[0].serial + TWO32 ==>
                  (c.result.m.id == c.request.id <==> aligned))
  {
    hide Run;
    var st := Run(acts).st;
    RunInv(acts);
    CallsTakeInOrder(acts, i);
    if Taken(st.calls, i) > 0 {
      var j := ReplyOrigin(acts, i);
      OwnReplyIn(st, i, j);
    }
  }

  /** In any run, whatever calls broke off before: a call that starts where frame `n` begins takes frame `n`, and that
      is the reply to its own request if and only if the call is a question and `n` the number of questions so far. */
  lemma OwnReplyAtBoundaryIff(acts: seq<Action>, n: nat)
    requires Run(acts).At? && Enabled(Run(acts).st, Return) && StandsAt(Run(acts).st, n, 0)
    ensures var st := Run(acts).st;
            var i, m := |st.calls| - 1, ClientParse(st.toClient, Timeout).m;
            && n < |st.out| && m == st.out[n]
            && (n > 0 && st.issued <= st.calls[0].serial + TWO32 ==>
                  (m.id == st.calls[i].request.id <==> IsQuestion(st.calls[i]) && n == 1 + Asked(st.calls, i)))
  {
    hide Run, ClientParse, Asked;
    var st := Run(acts).st;
    RunInv(acts);
    TakeReads(st.out, n, st.toClient);
    if n > 0 {
      var j := OriginOf(st, n);
      OwnReplyIn(st, |st.calls| - 1, j);
    }
  }

  lemma OwnReplyIn(st: State, i: nat, j: nat)
    requires IdsAscend(st.issued, st.calls) && j <= i < |st.calls| && IsQuestion(st.calls[j])
    ensures Asked(st.calls, j) == Asked(st.calls, i) && IsQuestion(st.calls[i]) ==> j == i
    ensures st.issued <= st.calls[0].serial + TWO32 ==> (st.calls[j].request.id == st.calls[i].request.id <==> j == i)
  {
    if j < i {
      AskedNext(st.calls, j);
      AskedGrows(st.calls, j + 1, i);
      if st.issued <= st.calls[0].serial + TWO32 {
        SerialsTellApart(st.calls[j].serial, st.calls[i].serial);
      }
    }
  }

  lemma AskedGrows(calls: seq<Call>, j: nat, i: nat)
    requires j <= i <= |calls|
    ensures Asked(calls, j) <= Asked(calls, i)
  {
    RequestsPrefix(calls, j);
    RequestsPrefix(calls, i);
    QuestionsGrow(Requests(calls), j, i);
  }

  // ---- Falling behind and catching up ----

  /** Questions among the calls from `i` up to `j` that took no frame. */
  function LostQuestions(calls: seq<Call>, i: nat, j: nat): nat
    requires i <= j <= |calls|
  {
    if i == j then 0
    else LostQuestions(calls, i, j - 1) + if IsQuestion(calls[j - 1]) && !TookFrame(calls[j - 1].result) then 1 else 0
  }

  /** HEARTBEATs among them that took one. */
  function DrainingBeats(calls: seq<Call>, i: nat, j: nat): nat
    requires i <= j <= |calls|
  {
    if i == j then 0
    else DrainingBeats(calls, i, j - 1) + if !IsQuestion(calls[j - 1]) && TookFrame(calls[j - 1].result) then 1 else 0
  }

  /** The law of alignment, for any stretch of calls: each question that takes no frame puts the client one further
      behind, each HEARTBEAT that takes one brings it one nearer, and nothing else matters. */
  lemma {:induction false} BehindLaw(calls: seq<Call>, i: nat, j: nat)
    requires i <= j <= |calls|
    ensures Behind(calls, j) == Behind(calls, i) + LostQuestions(calls, i, j) - DrainingBeats(calls, i, j)
  {
    if i < j {
      BehindLaw(calls, i, j - 1);
      AskedNext(calls, j - 1);
      TakenNext(calls, j - 1);
    }
  }

  /** It starts one behind, the greeting, and is never ahead. */
  lemma {:induction false} StartsOneBehind(calls: seq<Call>, i: nat)
    requires NeverAhead(calls) && i <= |calls|
    ensures Behind(calls, 0) == 1 && Behind(calls, i) >= 0
  {
    assert calls[..0] == [];
    if i > 0 {
      StartsOneBehind(calls, i - 1);
      AskedNext(calls, i - 1);
      TakenNext(calls, i - 1);
      if TookFrame(calls[i - 1].result) {
        NeverAheadAt(calls, i - 1);
      }
    }
  }

  lemma BehindIn(st: State, i: nat)
    requires Inv(st) && i <= |st.calls| && Unbroken(st.calls[..i])
    ensures Behind(st.calls, 0) == 1 && Behind(st.calls, i) >= 0
  {
    hide ServerSide, StreamSide, FramesTaken, NeverAhead, Boundary, Questions, Requests, Whole;
    var w := Whole(st.calls);
    WholeCovers(st.calls, i);
    SameCounts(st.calls, |w|, 0);
    SameCounts(st.calls, |w|, i);
    StartsOneBehind(w, i);
  }

  /** Once aligned, from whatever position, calls stay aligned as long as no question fails to take a frame and no call
      breaks off, and HEARTBEATs in between take none. */
  lemma AlignedStaysAligned(acts: seq<Action>, i: nat, j: nat)
    requires Run(acts).At? && i <= j <= |Run(acts).st.calls| && Unbroken(Run(acts).st.calls[..j])
    requires Behind(Run(acts).st.calls, i) == 0 && LostQuestions(Run(acts).st.calls, i, j) == 0
    ensures var calls := Run(acts).st.calls; Behind(calls, j) == 0 && DrainingBeats(calls, i, j) == 0
  {
    hide Run, Inv;
    RunInv(acts);
    BehindLaw(Run(acts).st.calls, i, j);
    BehindIn(Run(acts).st, j);
  }

  /** While no question has failed to take a frame and no call has broken off, a call that takes one gets the reply to
      its own request if some HEARTBEAT before it has taken a frame, whichever one that was, and then it is a question;
      and after the first frame it gets its own reply only then. */
  lemma AlignedIffDrained(acts: seq<Action>, j: nat)
    requires Run(acts).At? && j < |Run(acts).st.calls| && TookFrame(Run(acts).st.calls[j].result)
    requires Unbroken(Run(acts).st.calls[..j]) && LostQuestions(Run(acts).st.calls, 0, j) == 0
    ensures var st := Run(acts).st;
            var c, drained := st.calls[j], DrainingBeats(st.calls, 0, j) > 0;
            && (drained ==> IsQuestion(c) && c.result.m.id == c.request.id)
            && (Taken(st.calls, j) > 0 && st.issued <= st.calls[0].serial + TWO32 ==>
                  (c.result.m.id == c.request.id <==> drained))
  {
    hide Run, Inv, Taken, Asked;
    var calls := Run(acts).st.calls;
    RunInv(acts);
    BehindLaw(calls, 0, j);
    BehindIn(Run(acts).st, j);
    assert Unbroken(calls[..j + 1]);
    BehindIn(Run(acts).st, j + 1);
    AskedNext(calls, j);
    TakenNext(calls, j);
    OwnReplyIff(acts, j);
  }

  /** Each of the first `n` calls is a question and took a frame. */
  predicate AskedAndTook(calls: seq<Call>, n: nat)
    requires n <= |calls|
  {
    forall j :: 0 <= j < n ==> IsQuestion(calls[j]) && TookFrame(calls[j].result)
  }

  /** A client that does not drain the welcome is one reply behind for good: as long as every call is a question that
      takes a frame, the first takes the greeting and every later one the reply to the question before it. */
  lemma UndrainedIsOneBehind(acts: seq<Action>, i: nat)
    requires Run(acts).At? && i < |Run(acts).st.calls|
    requires AskedAndTook(Run(acts).st.calls, i + 1)
    ensures var st := Run(acts).st;
            && (i == 0 ==> st.out != [] && st.calls[i].result.m == st.out[0])
            && (i > 0 ==> st.calls[i].result.m.id == st.calls[i - 1].request.id)
  {
    hide Run;
    var calls := Run(acts).st.calls;
    assert Unbroken(calls[..i]);
    CallsTakeInOrder(acts, i);
    AllQuestions(calls, i);
    if i > 0 {
      var j := ReplyOrigin(acts, i);
      AllQuestions(calls, j);
    }
  }

  lemma {:induction false} AllQuestions(calls: seq<Call>, i: nat)
    requires i <= |calls| && AskedAndTook(calls, i)
    ensures Asked(calls, i) == i && Behind(calls, i) == 1
  {
    if i == 0 {
      assert calls[..0] == [];
    } else {
      AllQuestions(calls, i - 1);
      BehindLaw(calls, i - 1, i);
      AskedNext(calls, i - 1);
    }
  }

  // ---- After a call that broke off ----

  /** In every run, whatever the calls came to, what is still on the connection is the stream from byte `position` on;
      and calls that all succeed read the messages from `n` on if and only if frame `n` begins there. */
  lemma ReadsOnFromBoundary(acts: seq<Action>, n: nat)
    requires Run(acts).At? && n <= |Run(acts).st.out|
    ensures var st := Run(acts).st;
            && StreamSide(st.out, st.position, st.toClient)
            && (ClientReadAll(st.toClient) == (st.out[n..], []) <==> StandsAt(st, n, 0))
  {
    hide Run, Encode, ClientReadAll;
    RunInv(acts);
    ResumeIff(Run(acts).st.out, n, Run(acts).st.position);
  }

  /** A client that is inside the text payload of frame `n`, because a call broke off there, gets to read the frames
      behind it if and only if the rest of the payload is a multiple of 14 bytes long or no frame follows. */
  lemma BrokenCallRealignsIff(acts: seq<Action>, n: nat, k: nat)
    requires Run(acts).At? && n < |Run(acts).st.out| && StandsAt(Run(acts).st, n, k)
    requires HEAD_SIZE <= k <= |Frame(Run(acts).st.out[n])| && IsText(Run(acts).st.out[n].payload)
    ensures var st := Run(acts).st;
            ReadsInTheEnd(st.toClient, st.out[n + 1..]) <==>
            (|Frame(st.out[n])| - k) % HEAD_SIZE == 0 || n + 1 == |st.out|
  {
    hide Run, Encode, Frame, ReadsInTheEnd;
    RunInv(acts);
    TextRealignsIff(Run(acts).st.out, n, k);
  }

  lemma RunNext(acts: seq<Action>, a: Action)
    requires Run(acts).At? && Enabled(Run(acts).st, a)
    ensures Run(acts + [a]) == At(Do(Run(acts).st, a))
  {
    assert (acts + [a])[..|acts + [a]| - 1] == acts;
  }

  /** Such runs exist: on a fresh server a client that registers at once gets the welcome, message 1, as the reply to
      its message 0, before the server has even read the request, whatever the two payloads are. */
  lemma RegisterGetsTheWelcome(greeting: seq<Byte>, document: seq<Byte>) returns (acts: seq<Action>)
    requires |greeting| + HEAD_SIZE < TWO32 && |document| + HEAD_SIZE < TWO32
    ensures Run(acts).At?
    ensures var st := Run(acts).st;
            && |st.calls| == 1 && st.served == 0
            && st.calls[0].request == Message(REGISTER, 0, document)
            && st.calls[0].result == Returned(Message(ACK, 1, greeting))
  {
    hide Run, Frame, ClientParse, ClientConsumed;
    var welcome, request := Message(ACK, 1, greeting), Message(REGISTER, 0, document);
    NothingRun();
    RunNext([], Welcome(1, greeting));
    acts := [] + [Welcome(1, greeting)];
    RunNext(acts, StartCall(REGISTER, document));
    acts := acts + [StartCall(REGISTER, document)];
    var st := Run(acts).st;
    assert st.calls == [] + [Call(0, request, Pending)] == [Call(0, request, Pending)];
    assert st.toClient == [] + Frame(welcome) == Frame(welcome) + [];
    ClientRoundTrip(welcome, [], Timeout);
    RunNext(acts, Return);
    acts := acts + [Return];
  }

  /** A client whose connection is over the limit gets the server's ERROR, message 0, as the answer to its first
      call, and nothing after it: the server has closed its end. */
  lemma RefusedClientGetsTheError(complaint: seq<Byte>, document: seq<Byte>) returns (acts: seq<Action>)
    requires |complaint| + HEAD_SIZE < TWO32 && |document| + HEAD_SIZE < TWO32
    ensures Run(acts).At?
    ensures var st := Run(acts).st;
            && |st.calls| == 1 && st.served == 0 && st.gone && st.toClient == []
            && st.calls[0].result == Returned(Message(3, 0, complaint))
  {
    hide Run, Frame, ClientParse, ClientConsumed;
    var refusal := Message(ERROR_MSG, 0, complaint);
    NothingRun();
    RunNext([], Refuse(complaint));
    acts := [] + [Refuse(complaint)];
    RunNext(acts, StartCall(REGISTER, document));
    acts := acts + [StartCall(REGISTER, document)];
    var st := Run(acts).st;
    assert st.calls == [] + [Call(0, Message(REGISTER, 0, document), Pending)];
    assert st.toClient == [] + Frame(refusal) == Frame(refusal) + [];
    ClientRoundTrip(refusal, [], Timeout);
    RunNext(acts, Return);
    acts := acts + [Return];
  }

  lemma NothingRun()
    ensures Run([]) == At(Init())
  {
  }
}
