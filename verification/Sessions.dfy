/**
 What a server session does with the frames it reads: the three message handlers
 (`registerHandler.cpp`, `queryHandler.cpp`, `heartbeatHandler.cpp`) and the dispatch on the
 message type, as a relation between one frame, the registry and the replies.
 JSON reading and printing are parameters.
 */
module Sessions {
  import opened Bytes
  import opened Wire
  import opened NodeRegistry

  // ---- Payloads ----

  datatype Field = Missing | Str(s: string) | Unsigned(n: nat) | OtherType

  /** The result of parsing a payload. A document that is not an object has every field missing. */
  datatype Json = NotJson | Document(nodeId: Field, bunkerName: Field, ipAddress: Field, capacity: Field)

  datatype ProtocolError = DuplicateNode | UnknownNode | MalformedMessage

  datatype Reply =
    | RegisterAck(nodeId: string)
    | NodeAck(entry: NodeEntry)
    | NodesAck(nodes: seq<NodeEntry>)
    | ErrorReply(code: ProtocolError)

  /** The JSON library: reading a payload, and printing the reply to a given message id. */
  datatype Codec = Codec(parse: seq<Byte> -> Json, render: (U32, Reply) -> seq<Byte>)

  function ReplyMessage(codec: Codec, id: U32, r: Reply): Message {
    Message(if r.ErrorReply? then ERROR_MSG else ACK, id, codec.render(id, r))
  }

  // ---- REGISTER ----

  /** The id under which the session will later be taken OFFLINE: any string `node_id` replaces it, before the
      message is validated and whether or not the registration succeeds. */
  function NamedBy(doc: Json, active: string): string {
    if doc.Document? && doc.nodeId.Str? then doc.nodeId.s else active
  }

  predicate WellFormed(doc: Json) {
    && doc.Document?
    && doc.nodeId.Str? && doc.nodeId.s != ""
    && doc.bunkerName.Str? && doc.ipAddress.Str? && doc.capacity.Unsigned?
  }

  /** The entry a REGISTER asks for. Nothing sets its `last_seen_at`, so that stays at the epoch. */
  function RequestedEntry(doc: Json): (e: NodeEntry)
    requires WellFormed(doc)
    ensures e.nodeId == NamedBy(doc, "")
  {
    NodeEntry(doc.nodeId.s, doc.bunkerName.s, doc.ipAddress.s, doc.capacity.n, Online, EPOCH)
  }

  function RegisterReply(m: Entries, doc: Json): Reply {
    if !WellFormed(doc) then ErrorReply(MalformedMessage)
    else if Accepts(m, RequestedEntry(doc)) then RegisterAck(doc.nodeId.s)
    else ErrorReply(DuplicateNode)
  }

  function AfterRegisterMessage(m: Entries, doc: Json): Entries {
    if WellFormed(doc) then AfterRegister(m, RequestedEntry(doc)) else m
  }

  // ---- QUERY_NODE ----

  function QueryReply(m: Entries, doc: Json): Reply {
    if !(doc.Document? && doc.nodeId.Str?) then ErrorReply(MalformedMessage)
    else if doc.nodeId.s in m then NodeAck(m[doc.nodeId.s])
    else ErrorReply(UnknownNode)
  }

  // ---- One frame ----

  /** One pass through the session loop. `before` is the registry at the moment the handler acts on it. */
  datatype Exchange = Exchange(
    msg: Message, now: Time,
    before: Entries, after: Entries,
    activeBefore: string, activeAfter: string,
    replies: seq<Reply>)

  ghost predicate Handled(codec: Codec, x: Exchange) {
    var doc := codec.parse(x.msg.payload);
    if x.msg.kind == REGISTER then
      && x.activeAfter == NamedBy(doc, x.activeBefore)
      && x.after == AfterRegisterMessage(x.before, doc)
      && x.replies == [RegisterReply(x.before, doc)]
    else
      && x.activeAfter == x.activeBefore
      && (x.msg.kind != HEARTBEAT ==> x.after == x.before)
      && (if x.msg.kind == HEARTBEAT then
            x.after == AfterUpdateLastSeen(x.before, x.activeBefore, x.now) && x.replies == []
          else if x.msg.kind == QUERY_NODE then
            x.replies == [QueryReply(x.before, doc)]
          else if x.msg.kind == LIST_NODES then
            |x.replies| == 1 && x.replies[0].NodesAck? && Snapshot(x.before, x.replies[0].nodes)
          else
            x.replies == [ErrorReply(MalformedMessage)])
  }

  // ---- A whole session ----

  /** A session among others: between two of its frames the registry may have changed in any way. */
  ghost predicate Transcript(codec: Codec, xs: seq<Exchange>, active: string) {
    xs != [] ==>
      var x, earlier := xs[|xs| - 1], xs[..|xs| - 1];
      && Transcript(codec, earlier, active)
      && x.activeBefore == FinalActive(earlier, active)
      && Handled(codec, x)
  }

  function FinalActive(xs: seq<Exchange>, active: string): string {
    if xs == [] then active else xs[|xs| - 1].activeAfter
  }

  function FramesRead(xs: seq<Exchange>): seq<Message> {
    if xs == [] then [] else FramesRead(xs[..|xs| - 1]) + [xs[|xs| - 1].msg]
  }

  function ReplyMessages(codec: Codec, id: U32, rs: seq<Reply>): seq<Message> {
    if rs == [] then [] else ReplyMessages(codec, id, rs[..|rs| - 1]) + [ReplyMessage(codec, id, rs[|rs| - 1])]
  }

  /** Everything the session tries to send, in order. */
  function RepliesSent(codec: Codec, xs: seq<Exchange>): seq<Message> {
    if xs == [] then []
    else
      var x := xs[|xs| - 1];
      RepliesSent(codec, xs[..|xs| - 1]) + ReplyMessages(codec, x.msg.id, x.replies)
  }

  /** The frames that are owed a reply. */
  function Questions(ms: seq<Message>): seq<Message> {
    if ms == [] then []
    else
      var m := ms[|ms| - 1];
      Questions(ms[..|ms| - 1]) + (if m.kind == HEARTBEAT then [] else [m])
  }

  lemma HandledRepliesOnce(codec: Codec, x: Exchange)
    requires Handled(codec, x)
    ensures |x.replies| == if x.msg.kind == HEARTBEAT then 0 else 1
    ensures |x.replies| == 1 ==>
              ReplyMessages(codec, x.msg.id, x.replies) == [ReplyMessage(codec, x.msg.id, x.replies[0])]
  {
    if |x.replies| == 1 {
      assert x.replies[..0] == [];
      assert ReplyMessages(codec, x.msg.id, x.replies[..0]) == [];
    }
  }

  /** The replies the handlers give, in order. */
  function RepliesGiven(xs: seq<Exchange>): seq<Reply> {
    if xs == [] then [] else RepliesGiven(xs[..|xs| - 1]) + xs[|xs| - 1].replies
  }

  /** The frame `sent` answers the frame `asked` with the reply `given`: it echoes the id, it is an ERROR (3) if the
      reply is an error and an ACK (2) otherwise, and it carries what the codec prints for that reply. */
  predicate Conveys(codec: Codec, sent: Message, asked: Message, given: Reply) {
    && sent.id == asked.id
    && sent.kind == (if given.ErrorReply? then 3 else 2)
    && sent.payload == codec.render(asked.id, given)
  }

  predicate AllConveyed(codec: Codec, sent: seq<Message>, asked: seq<Message>, given: seq<Reply>) {
    |sent| == |asked| == |given| && forall i :: 0 <= i < |sent| ==> Conveys(codec, sent[i], asked[i], given[i])
  }

  /** Exactly one frame is sent per frame that is not a HEARTBEAT, in order, conveying the handler's reply to it,
      whatever other sessions do to the registry in between. */
  lemma {:induction false} ReplyDiscipline(codec: Codec, xs: seq<Exchange>, active: string)
    requires Transcript(codec, xs, active)
    ensures AllConveyed(codec, RepliesSent(codec, xs), Questions(FramesRead(xs)), RepliesGiven(xs))
  {
    hide Handled;
    if xs != [] {
      var x, earlier := xs[|xs| - 1], xs[..|xs| - 1];
      ReplyDiscipline(codec, earlier, active);
      HandledRepliesOnce(codec, x);
      assert FramesRead(xs)[..|FramesRead(xs)| - 1] == FramesRead(earlier);
      if |x.replies| == 1 {
        assert x.replies == [x.replies[0]];
        OneMoreConveyed(codec, RepliesSent(codec, earlier), Questions(FramesRead(earlier)), RepliesGiven(earlier),
                        x.msg, x.replies[0]);
      }
    }
  }

  lemma OneMoreConveyed(codec: Codec, sent: seq<Message>, asked: seq<Message>, given: seq<Reply>, m: Message, r: Reply)
    requires AllConveyed(codec, sent, asked, given)
    ensures AllConveyed(codec, sent + [ReplyMessage(codec, m.id, r)], asked + [m], given + [r])
  {
  }

  /** A frame answered with ERROR leaves the registry as it was, and so does any frame answered with an ACK that is
      not a registration. A registration that is acknowledged leaves its node ONLINE under the session's name. */
  lemma AnswersTellTheEffect(codec: Codec, x: Exchange)
    requires Handled(codec, x) && |x.replies| == 1
    ensures x.replies[0].RegisterAck? <==> x.msg.kind == REGISTER && !x.replies[0].ErrorReply?
    ensures x.replies[0].RegisterAck? <==> x.after != x.before
    ensures x.replies[0].RegisterAck? ==>
              var id := x.replies[0].nodeId;
              && id != "" && id == x.activeAfter
              && id in x.after && x.after[id].status == Online && x.after[id].lastSeenAt == EPOCH
              && (id in x.before ==> x.before[id].status == Offline)
              && forall other :: other != id ==> (other in x.after <==> other in x.before)
                                                 && (other in x.before ==> x.after[other] == x.before[other])
  {
    var doc := codec.parse(x.msg.payload);
    if x.msg.kind == REGISTER && WellFormed(doc) {
      var e := RequestedEntry(doc);
      if Accepts(x.before, e) {
        assert e.nodeId in x.before ==> x.before[e.nodeId].status != x.after[e.nodeId].status;
      }
    }
  }

  predicate HasStringId(doc: Json) {
    doc.Document? && doc.nodeId.Str?
  }

  /** ERR_MALFORMED answers exactly the types the server does not support, the REGISTERs that do not validate and the
      QUERY_NODEs without a string id: the code does not tell an unsupported type from a bad payload. */
  lemma MalformedIff(codec: Codec, x: Exchange)
    requires Handled(codec, x)
    ensures x.replies == [ErrorReply(MalformedMessage)] <==>
            var doc := codec.parse(x.msg.payload);
            || x.msg.kind !in {REGISTER, QUERY_NODE, LIST_NODES, HEARTBEAT}
            || (x.msg.kind == REGISTER && !WellFormed(doc))
            || (x.msg.kind == QUERY_NODE && !HasStringId(doc))
  {
    if x.msg.kind == LIST_NODES {
      assert x.replies[0].NodesAck?;
    }
  }

  /** Handling a frame never forgets a node. */
  lemma HandledKeepsIds(codec: Codec, x: Exchange)
    requires Handled(codec, x)
    ensures x.before.Keys <= x.after.Keys
    ensures WellKeyed(x.before) ==> WellKeyed(x.after)
  {
  }

  // ---- What each kind of frame means, in terms of its document ----

  /** A REGISTER (1) that carries the four fields: a missing name is malformed, a name that is ONLINE is a
      duplicate, and any other is stored with exactly those fields. The session goes by the name in every case. */
  lemma RegisterLaw(codec: Codec, x: Exchange, id: string, name: string, address: string, capacity: nat)
    requires Handled(codec, x) && x.msg.kind == 1
    requires codec.parse(x.msg.payload) == Document(Str(id), Str(name), Str(address), Unsigned(capacity))
    ensures x.activeAfter == id
    ensures id == "" ==> x.replies == [ErrorReply(MalformedMessage)] && x.after == x.before
    ensures id != "" && id in x.before && x.before[id].status == Online ==>
              x.replies == [ErrorReply(DuplicateNode)] && x.after == x.before
    ensures id != "" && (id in x.before ==> x.before[id].status == Offline) ==>
              && x.replies == [RegisterAck(id)]
              && x.after == x.before[id := NodeEntry(id, name, address, capacity, Online, EPOCH)]
  {
  }

  /** Conversely, a REGISTER that changed the registry carried exactly the fields now stored under its id. */
  lemma StoredIsWhatWasSent(codec: Codec, x: Exchange)
    requires Handled(codec, x) && x.msg.kind == REGISTER && x.after != x.before
    ensures x.activeAfter in x.after
    ensures var e := x.after[x.activeAfter];
            codec.parse(x.msg.payload) ==
            Document(Str(e.nodeId), Str(e.bunkerName), Str(e.ipAddress), Unsigned(e.capacity))
  {
  }

  /** The frame sent for a REGISTER is an ACK if the registry changed and an ERROR if not. */
  lemma RegisterFrameTellsTheEffect(codec: Codec, x: Exchange)
    requires Handled(codec, x) && x.msg.kind == REGISTER
    ensures var sent := ReplyMessages(codec, x.msg.id, x.replies);
            && |sent| == 1 && sent[0].id == x.msg.id
            && sent[0].kind == if x.after != x.before then 2 else 3
  {
    HandledRepliesOnce(codec, x);
    AnswersTellTheEffect(codec, x);
  }

  /** Asked at once for the node it has registered, a session gets back the fields it sent. */
  lemma QueryAfterRegister(codec: Codec, x: Exchange, y: Exchange)
    requires Handled(codec, x) && x.msg.kind == REGISTER && x.after != x.before
    requires Handled(codec, y) && y.msg.kind == QUERY_NODE && y.before == x.after
    requires HasStringId(codec.parse(y.msg.payload)) && codec.parse(y.msg.payload).nodeId.s == x.activeAfter
    ensures |y.replies| == 1 && y.replies[0].NodeAck?
    ensures var e := y.replies[0].entry;
            && codec.parse(x.msg.payload) ==
               Document(Str(e.nodeId), Str(e.bunkerName), Str(e.ipAddress), Unsigned(e.capacity))
            && e.nodeId == x.activeAfter && e.status == Online
  {
    StoredIsWhatWasSent(codec, x);
  }

  /** A LIST_NODES (5) is answered with every entry exactly once. */
  lemma ListLaw(codec: Codec, x: Exchange, id: string)
    requires Handled(codec, x) && x.msg.kind == 5
    ensures |x.replies| == 1 && x.replies[0].NodesAck?
    ensures var nodes := x.replies[0].nodes;
            && (id in x.before ==> x.before[id] in nodes)
            && (forall i, j :: 0 <= i < j < |nodes| ==> nodes[i].nodeId != nodes[j].nodeId)
            && (forall i :: 0 <= i < |nodes| ==> nodes[i].nodeId in x.before && x.before[nodes[i].nodeId] == nodes[i])
    ensures x.after == x.before && x.activeAfter == x.activeBefore
  {
  }

  /** A QUERY_NODE (4) with a string id is answered with the stored entry if there is one and ERR_NOT_FOUND
      otherwise. */
  lemma QueryLaw(codec: Codec, x: Exchange, id: string)
    requires Handled(codec, x) && x.msg.kind == 4
    requires codec.parse(x.msg.payload).Document? && codec.parse(x.msg.payload).nodeId == Str(id)
    ensures id in x.before ==> x.replies == [NodeAck(x.before[id])]
    ensures id !in x.before ==> x.replies == [ErrorReply(UnknownNode)]
    ensures x.after == x.before && x.activeAfter == x.activeBefore
  {
  }

  /** The session changes its name with every REGISTER that has a string id, refused and malformed ones included,
      and with nothing else. */
  lemma RenamesIff(codec: Codec, x: Exchange)
    requires Handled(codec, x)
    ensures var doc := codec.parse(x.msg.payload);
            x.activeAfter ==
            if x.msg.kind == 1 && doc.Document? && doc.nodeId.Str? then doc.nodeId.s else x.activeBefore
  {
  }

  /** A HEARTBEAT (6) stamps the node the session goes by if that is ONLINE, and does nothing else. */
  lemma HeartbeatLaw(codec: Codec, x: Exchange)
    requires Handled(codec, x) && x.msg.kind == 6
    ensures var id := x.activeBefore;
            if id != "" && id in x.before && x.before[id].status == Online
            then x.after == x.before[id := x.before[id].(lastSeenAt := x.now)]
            else x.after == x.before
  {
  }

  /** The last string node_id among the REGISTER frames, or the name the session began with. */
  function LastName(codec: Codec, ms: seq<Message>, active: string): string {
    if ms == [] then active
    else
      var m := ms[|ms| - 1];
      if m.kind == 1 && HasStringId(codec.parse(m.payload)) then codec.parse(m.payload).nodeId.s
      else LastName(codec, ms[..|ms| - 1], active)
  }

  /** The name a session ends with, under which it takes its node OFFLINE, is the last one it has sent, whatever the
      answers were. */
  lemma {:induction false} EndsWithLastName(codec: Codec, xs: seq<Exchange>, active: string)
    requires Transcript(codec, xs, active)
    ensures FinalActive(xs, active) == LastName(codec, FramesRead(xs), active)
  {
    hide Handled;
    if xs != [] {
      var x, earlier := xs[|xs| - 1], xs[..|xs| - 1];
      EndsWithLastName(codec, earlier, active);
      RenamesIff(codec, x);
      assert FramesRead(xs)[..|FramesRead(xs)| - 1] == FramesRead(earlier);
    }
  }
}
