/**
 The registry shared by any number of sessions and the heartbeat monitor.

 Every registry method holds the registry's lock, so it is one atomic step. Between those steps
 anything may interleave: a session extracts the node id before it registers
 (`connectionWorker.cpp`), and the monitor computes its deadline, takes its snapshot and marks the
 stale nodes in separate steps without looking again (`heartbeatMonitor.cpp`).
 Each step that matters is recorded in a log, against which the results are stated.
 */
module NodeLifecycle {
  import opened NodeRegistry
  import opened Sessions
  import opened HeartbeatMonitor

  // ---- History ----

  /** Who called `setOffline`; a scan is named by its position in the log. */
  datatype Cause = BySession(session: nat) | ByMonitor(scan: nat)

  datatype Event =
    | Joined(entry: NodeEntry, at: Time, session: nat, naming: nat)  // registerNode returned OK
    | Beat(id: string, at: Time)                                     // updateLastSeen returned true
    | Left(id: string, at: Time, cause: Cause)                       // setOffline found the node
    | TickBegan(at: Time)                                            // the deadline was computed
    | Scanned(at: Time, deadline: int)                               // the snapshot was taken
    | TickEnded(at: Time, began: nat, scan: nat)                     // all stale nodes were marked

  type Log = seq<Event>

  datatype LastBeat = Never | Last(at: Time)

  /** What the log alone says about one node. */
  datatype Life =
    | Unknown
    | Up(entry: NodeEntry, beat: LastBeat, session: nat, naming: nat)
    | Down(entry: NodeEntry, since: Time)

  function Live(l: Life, e: Event, id: string): Life {
    match e
    case Joined(entry, _, session, naming) => if entry.nodeId == id then Up(entry, Never, session, naming) else l
    case Beat(who, at) => if who == id && l.Up? then l.(beat := Last(at)) else l
    case Left(who, at, _) => if who == id && !l.Unknown? then Down(l.entry, at) else l
    case _ => l
  }

  function Replay(log: Log, id: string): Life {
    if log == [] then Unknown else Live(Replay(log[..|log| - 1], id), log[|log| - 1], id)
  }

  lemma ReplayNext(log: Log, e: Event, id: string)
    ensures Replay(log + [e], id) == Live(Replay(log, id), e, id)
  {
    assert (log + [e])[..|log + [e]| - 1] == log;
  }

  /** The registry entry a life calls for. */
  function EntryOf(l: Life): NodeEntry
    requires !l.Unknown?
  {
    match l
    case Up(entry, Never, _, _) => entry.(status := Online, lastSeenAt := EPOCH)
    case Up(entry, Last(at), _, _) => entry.(status := Online, lastSeenAt := at)
    case Down(entry, since) => entry.(status := Offline, lastSeenAt := since)
  }

  predicate StaleLife(l: Life, deadline: int) {
    !l.Unknown? && Stale(EntryOf(l), deadline)
  }

  predicate Marks(e: Event, id: string, scan: nat) {
    e.Left? && e.id == id && e.cause == ByMonitor(scan)
  }

  /** The tick that took the snapshot at position `scan` has taken `id` OFFLINE. */
  ghost predicate MarkedBy(log: Log, scan: nat, id: string) {
    exists i :: scan < i < |log| && Marks(log[i], id, scan)
  }

  // ---- The system ----

  datatype Phase = Reading | Registering(entry: NodeEntry) | Closing | Closed

  /** `names` are the string node ids of the REGISTER frames received so far. */
  datatype Session = Session(names: seq<string>, phase: Phase)

  function Active(s: Session): string {
    if s.names == [] then "" else s.names[|s.names| - 1]
  }

  datatype MonitorState =
    | Waiting
    | Begun(began: nat, deadline: int)
    | Marking(began: nat, scan: nat, deadline: int, todo: seq<string>)

  datatype State = State(
    now: Time, entries: Entries, sessions: seq<Session>, monitor: MonitorState, log: Log)

  datatype Action =
    | Elapse(time: nat)
    | Connect
    | RegisterFrame(s: nat, doc: Json)
    | CommitRegister(s: nat)
    | HeartbeatFrame(s: nat)
    | HangUp(s: nat)
    | Teardown(s: nat)
    | BeginTick
    | Scan(order: seq<string>)
    | Mark
    | EndTick

  predicate InPhase(st: State, s: nat, phase: Phase) {
    s < |st.sessions| && st.sessions[s].phase == phase
  }

  predicate Enabled(st: State, a: Action) {
    match a
    case Elapse(_) => true
    case Connect => true
    case RegisterFrame(s, _) => InPhase(st, s, Reading)
    case CommitRegister(s) => s < |st.sessions| && st.sessions[s].phase.Registering?
    case HeartbeatFrame(s) => InPhase(st, s, Reading)
    case HangUp(s) => InPhase(st, s, Reading)
    case Teardown(s) => InPhase(st, s, Closing)
    case BeginTick => st.monitor.Waiting?
    case Scan(order) =>
      st.monitor.Begun? && Distinct(order) && Elements(order) == StaleIds(st.entries, st.monitor.deadline)
    case Mark => st.monitor.Marking? && st.monitor.todo != []
    case EndTick => st.monitor.Marking? && st.monitor.todo == []
  }

  function Record(st: State, e: Event): State {
    st.(log := st.log + [e])
  }

  function WithSession(st: State, s: nat, session: Session): State
    requires s < |st.sessions|
  {
    st.(sessions := st.sessions[s := session])
  }

  function TakeOffline(st: State, id: string, cause: Cause): State {
    var st' := st.(entries := AfterSetOffline(st.entries, id, st.now));
    if id != "" && id in st.entries then Record(st', Left(id, st.now, cause)) else st'
  }

  function Do(interval: nat, st: State, a: Action): State
    requires Enabled(st, a)
  {
    match a
    case Elapse(time) => st.(now := st.now + time)
    case Connect => st.(sessions := st.sessions + [Session([], Reading)])
    case RegisterFrame(s, doc) =>
      var named := if doc.Document? && doc.nodeId.Str? then [doc.nodeId.s] else [];
      WithSession(st, s, Session(
        st.sessions[s].names + named,
        if WellFormed(doc) then Registering(RequestedEntry(doc)) else Reading))
    case CommitRegister(s) =>
      var entry := st.sessions[s].phase.entry;
      var st' := WithSession(st, s, st.sessions[s].(phase := Reading)).(entries := AfterRegister(st.entries, entry));
      if Accepts(st.entries, entry) then Record(st', Joined(entry, st.now, s, |st.sessions[s].names|)) else st'
    case HeartbeatFrame(s) =>
      var id := Active(st.sessions[s]);
      var st' := st.(entries := AfterUpdateLastSeen(st.entries, id, st.now));
      if BeatCounts(st.entries, id) then Record(st', Beat(id, st.now)) else st'
    case HangUp(s) => WithSession(st, s, st.sessions[s].(phase := Closing))
    case Teardown(s) =>
      TakeOffline(WithSession(st, s, st.sessions[s].(phase := Closed)), Active(st.sessions[s]), BySession(s))
    case BeginTick =>
      Record(st.(monitor := Begun(|st.log|, Deadline(st.now, interval))), TickBegan(st.now))
    case Scan(order) =>
      var m := st.monitor;
      Record(st.(monitor := Marking(m.began, |st.log|, m.deadline, order)), Scanned(st.now, m.deadline))
    case Mark =>
      var m := st.monitor;
      TakeOffline(st.(monitor := m.(todo := m.todo[1..])), m.todo[0], ByMonitor(m.scan))
    case EndTick =>
      Record(st.(monitor := Waiting), TickEnded(st.now, st.monitor.began, st.monitor.scan))
  }

  function Init(start: Time): State {
    State(start, map[], [], Waiting, [])
  }

  datatype Outcome = At(st: State) | Impossible

  /** The state after a run: any interleaving is a list of actions, each enabled when its turn comes. */
  function Run(interval: nat, start: Time, acts: seq<Action>): Outcome {
    if acts == [] then At(Init(start))
    else
      var before := Run(interval, start, acts[..|acts| - 1]);
      if before.At? && Enabled(before.st, acts[|acts| - 1])
      then At(Do(interval, before.st, acts[|acts| - 1]))
      else Impossible
  }
}
