/** What every step of every interleaving keeps, for the system of module NodeLifecycle. */
module NodeLifecycleInvariants {
  import opened NodeRegistry
  import opened Sessions
  import opened HeartbeatMonitor
  import opened NodeLifecycle

  // ---- The log explains itself ----

  function LogTime(log: Log): Time {
    if log == [] then 0 else log[|log| - 1].at
  }

  /** The snapshot at position `scan` belongs to the tick begun at position `began`. */
  predicate TickOf(interval: nat, log: Log, began: nat, scan: nat) {
    && began < scan < |log|
    && log[began].TickBegan? && log[scan].Scanned?
    && log[scan].deadline == Deadline(log[began].at, interval)
  }

  ghost predicate AllStaleMarked(log: Log, scan: nat)
    requires scan < |log| && log[scan].Scanned?
  {
    forall id :: StaleLife(Replay(log[..scan], id), log[scan].deadline) ==> MarkedBy(log, scan, id)
  }

  /** Whether the event `e` may follow the history `h`. */
  ghost predicate EventOk(interval: nat, h: Log, e: Event) {
    && LogTime(h) <= e.at
    && match e {
      case Joined(entry, _, _, _) => entry.nodeId != "" && !Replay(h, entry.nodeId).Up?
      case Beat(id, _) => Replay(h, id).Up?
      case Left(id, _, cause) =>
        && !Replay(h, id).Unknown?
        && (cause.ByMonitor? ==>
              && cause.scan < |h| && h[cause.scan].Scanned?
              && StaleLife(Replay(h[..cause.scan], id), h[cause.scan].deadline))
      case TickBegan(_) => true
      case Scanned(at, deadline) => deadline <= Deadline(at, interval)
      case TickEnded(_, began, scan) => TickOf(interval, h, began, scan) && AllStaleMarked(h, scan)
    }
  }

  ghost predicate Lawful(interval: nat, log: Log) {
    log != [] ==> Lawful(interval, log[..|log| - 1]) && EventOk(interval, log[..|log| - 1], log[|log| - 1])
  }

  lemma LawfulNext(interval: nat, log: Log, e: Event)
    requires Lawful(interval, log) && EventOk(interval, log, e)
    ensures Lawful(interval, log + [e])
  {
    assert (log + [e])[..|log + [e]| - 1] == log;
  }

  lemma {:induction false} LawfulAt(interval: nat, log: Log, k: nat)
    requires Lawful(interval, log) && k < |log|
    ensures EventOk(interval, log[..k], log[k]) && Lawful(interval, log[..k])
  {
    var shorter := log[..|log| - 1];
    if k < |log| - 1 {
      LawfulAt(interval, shorter, k);
      assert shorter[..k] == log[..k];
    }
  }

  // ---- The registry mirrors the log ----

  predicate Agrees(entries: Entries, l: Life, id: string) {
    && (id in entries <==> !l.Unknown?)
    && (id in entries ==> entries[id] == EntryOf(l))
  }

  ghost predicate Mirrors(entries: Entries, log: Log) {
    && WellKeyed(entries)
    && forall id :: Agrees(entries, Replay(log, id), id)
  }

  /** One step of registry and log together: only the node the event is about may differ. */
  lemma MirrorsNext(entries: Entries, log: Log, entries': Entries, e: Event)
    requires Mirrors(entries, log) && WellKeyed(entries')
    requires forall id :: Agrees(entries', Live(Replay(log, id), e, id), id)
    ensures Mirrors(entries', log + [e])
  {
    forall id ensures Agrees(entries', Replay(log + [e], id), id) {
      ReplayNext(log, e, id);
    }
  }

  // ---- The monitor remembers its tick ----

  ghost predicate MonitorOk(interval: nat, m: MonitorState, log: Log) {
    match m
    case Waiting => true
    case Begun(began, deadline) =>
      began < |log| && log[began].TickBegan? && deadline == Deadline(log[began].at, interval)
    case Marking(began, scan, deadline, todo) =>
      && TickOf(interval, log, began, scan) && deadline == log[scan].deadline
      && (forall id <- todo :: StaleLife(Replay(log[..scan], id), deadline))
      && (forall id :: StaleLife(Replay(log[..scan], id), deadline) ==> id in todo || MarkedBy(log, scan, id))
  }

  lemma MarkedByNext(log: Log, e: Event, scan: nat, id: string)
    ensures MarkedBy(log, scan, id) ==> MarkedBy(log + [e], scan, id)
    ensures scan < |log| && Marks(e, id, scan) ==> MarkedBy(log + [e], scan, id)
  {
    if MarkedBy(log, scan, id) {
      var i :| scan < i < |log| && Marks(log[i], id, scan);
      assert Marks((log + [e])[i], id, scan);
    }
    if scan < |log| && Marks(e, id, scan) {
      assert Marks((log + [e])[|log|], id, scan);
    }
  }

  lemma MonitorOkNext(interval: nat, m: MonitorState, log: Log, e: Event)
    requires MonitorOk(interval, m, log)
    ensures MonitorOk(interval, m, log + [e])
  {
    if m.Marking? {
      assert (log + [e])[..m.scan] == log[..m.scan];
      forall id | StaleLife(Replay(log[..m.scan], id), m.deadline) && id !in m.todo
        ensures MarkedBy(log + [e], m.scan, id)
      {
        MarkedByNext(log, e, m.scan, id);
      }
    }
  }

  // ---- Sessions answer for the nodes they registered ----

  /** The session registered `id` with its REGISTER number `naming`, and if it has closed since, then under another
      name. */
  predicate Answers(s: Session, naming: nat, id: string) {
    && 0 < naming <= |s.names| && s.names[naming - 1] == id
    && (s.phase.Closed? ==> Active(s) != id)
  }

  ghost predicate SessionsOk(sessions: seq<Session>, log: Log) {
    && (forall s :: 0 <= s < |sessions| && sessions[s].phase.Registering? ==>
          var e := sessions[s].phase.entry;
          e.nodeId != "" && e.nodeId == Active(sessions[s]) && e.status == Online && e.lastSeenAt == EPOCH)
    && (forall id :: var l := Replay(log, id);
          l.Up? ==> l.session < |sessions| && Answers(sessions[l.session], l.naming, id))
  }

  // ---- All together ----

  ghost predicate Inv(interval: nat, st: State) {
    && Lawful(interval, st.log)
    && LogTime(st.log) <= st.now
    && Mirrors(st.entries, st.log)
    && MonitorOk(interval, st.monitor, st.log)
    && SessionsOk(st.sessions, st.log)
  }

  lemma InitInv(interval: nat, start: Time)
    ensures Inv(interval, Init(start))
  {
  }

  /** A step that records nothing and leaves the registry alone. */
  lemma QuietInv(interval: nat, st: State, st': State)
    requires Inv(interval, st)
    requires st'.log == st.log && st'.entries == st.entries && st.now <= st'.now && st'.monitor == st.monitor
    requires SessionsOk(st'.sessions, st.log)
    ensures Inv(interval, st')
  {
  }

  /** A step that records `e`. */
  lemma RecordInv(interval: nat, st: State, st': State, e: Event)
    requires Inv(interval, st)
    requires st'.log == st.log + [e] && e.at == st.now == st'.now
    requires EventOk(interval, st.log, e)
    requires WellKeyed(st'.entries) && forall id :: Agrees(st'.entries, Live(Replay(st.log, id), e, id), id)
    requires st'.monitor == st.monitor || MonitorOk(interval, st'.monitor, st'.log)
    requires SessionsOk(st'.sessions, st'.log)
    ensures Inv(interval, st')
  {
    LawfulNext(interval, st.log, e);
    MirrorsNext(st.entries, st.log, st'.entries, e);
    MonitorOkNext(interval, st.monitor, st.log, e);
  }

  /** The lives after one more event, when the registered nodes keep their sessions. */
  lemma SessionsOkNext(sessions: seq<Session>, sessions': seq<Session>, log: Log, e: Event)
    requires SessionsOk(sessions, log)
    requires forall s :: 0 <= s < |sessions'| && sessions'[s].phase.Registering? ==>
               s < |sessions| && sessions'[s] == sessions[s]
    requires forall id :: var l := Live(Replay(log, id), e, id);
               l.Up? ==> l.session < |sessions'| && Answers(sessions'[l.session], l.naming, id)
    ensures SessionsOk(sessions', log + [e])
  {
    forall id ensures var l := Replay(log + [e], id);
                      l.Up? ==> l.session < |sessions'| && Answers(sessions'[l.session], l.naming, id)
    {
      ReplayNext(log, e, id);
    }
  }

  // ---- Step by step ----

  lemma {:induction false} TimesAscend(interval: nat, log: Log, k: nat)
    requires Lawful(interval, log) && k < |log|
    ensures log[k].at <= LogTime(log)
  {
    if k < |log| - 1 {
      TimesAscend(interval, log[..|log| - 1], k);
    }
  }

  lemma ConnectInv(interval: nat, st: State)
    requires Inv(interval, st)
    ensures Inv(interval, Do(interval, st, Connect))
  {
    var st' := Do(interval, st, Connect);
    assert forall s :: 0 <= s < |st.sessions| ==> st'.sessions[s] == st.sessions[s];
    QuietInv(interval, st, st');
  }

  lemma RegisterFrameInv(interval: nat, st: State, s: nat, doc: Json)
    requires Inv(interval, st) && Enabled(st, RegisterFrame(s, doc))
    ensures Inv(interval, Do(interval, st, RegisterFrame(s, doc)))
  {
    var st' := Do(interval, st, RegisterFrame(s, doc));
    QuietInv(interval, st, st');
  }

  lemma CommitRegisterInv(interval: nat, st: State, s: nat)
    requires Inv(interval, st) && Enabled(st, CommitRegister(s))
    ensures Inv(interval, Do(interval, st, CommitRegister(s)))
  {
    var st', entry := Do(interval, st, CommitRegister(s)), st.sessions[s].phase.entry;
    if Accepts(st.entries, entry) {
      var e := Joined(entry, st.now, s, |st.sessions[s].names|);
      assert Agrees(st.entries, Replay(st.log, entry.nodeId), entry.nodeId);
      SessionsOkNext(st.sessions, st'.sessions, st.log, e);
      RecordInv(interval, st, st', e);
    } else {
      QuietInv(interval, st, st');
    }
  }

  lemma HeartbeatInv(interval: nat, st: State, s: nat)
    requires Inv(interval, st) && Enabled(st, HeartbeatFrame(s))
    ensures Inv(interval, Do(interval, st, HeartbeatFrame(s)))
  {
    var st', id := Do(interval, st, HeartbeatFrame(s)), Active(st.sessions[s]);
    if BeatCounts(st.entries, id) {
      assert Agrees(st.entries, Replay(st.log, id), id);
      SessionsOkNext(st.sessions, st'.sessions, st.log, Beat(id, st.now));
      RecordInv(interval, st, st', Beat(id, st.now));
    } else {
      QuietInv(interval, st, st');
    }
  }

  lemma HangUpInv(interval: nat, st: State, s: nat)
    requires Inv(interval, st) && Enabled(st, HangUp(s))
    ensures Inv(interval, Do(interval, st, HangUp(s)))
  {
    QuietInv(interval, st, Do(interval, st, HangUp(s)));
  }

  /** A session that closes either takes its node with it or had already moved on to another name. */
  lemma TeardownInv(interval: nat, st: State, s: nat)
    requires Inv(interval, st) && Enabled(st, Teardown(s))
    ensures Inv(interval, Do(interval, st, Teardown(s)))
  {
    hide Lawful, MonitorOk, Replay, LogTime;
    var st', id := Do(interval, st, Teardown(s)), Active(st.sessions[s]);
    var e := Left(id, st.now, BySession(s));
    assert Agrees(st.entries, Replay(st.log, id), id);
    if id in st.entries {
      SessionsOkNext(st.sessions, st'.sessions, st.log, e);
      RecordInv(interval, st, st', e);
    } else {
      QuietInv(interval, st, st');
    }
  }

  lemma BeginTickInv(interval: nat, st: State)
    requires Inv(interval, st) && Enabled(st, BeginTick)
    ensures Inv(interval, Do(interval, st, BeginTick))
  {
    var st' := Do(interval, st, BeginTick);
    SessionsOkNext(st.sessions, st'.sessions, st.log, TickBegan(st.now));
    RecordInv(interval, st, st', TickBegan(st.now));
  }

  /** The snapshot singles out exactly the nodes that are stale in the log. */
  lemma StaleIdsAreStaleLives(entries: Entries, log: Log, deadline: int, id: string)
    requires Mirrors(entries, log)
    ensures id in StaleIds(entries, deadline) <==> StaleLife(Replay(log, id), deadline)
  {
    assert Agrees(entries, Replay(log, id), id);
  }

  lemma ScanInv(interval: nat, st: State, order: seq<string>)
    requires Inv(interval, st) && Enabled(st, Scan(order))
    ensures Inv(interval, Do(interval, st, Scan(order)))
  {
    var st', m := Do(interval, st, Scan(order)), st.monitor;
    var e := Scanned(st.now, m.deadline);
    TimesAscend(interval, st.log, m.began);
    assert st'.log[..|st.log|] == st.log;
    forall id ensures StaleLife(Replay(st.log, id), m.deadline) <==> id in order {
      StaleIdsAreStaleLives(st.entries, st.log, m.deadline, id);
      assert id in order <==> id in Elements(order);
    }
    SessionsOkNext(st.sessions, st'.sessions, st.log, e);
    RecordInv(interval, st, st', e);
  }

  /** Entries are never removed: a node that was stale in some prefix of the log is still registered. */
  lemma {:induction false} KnownStaysKnown(log: Log, k: nat, id: string)
    requires k <= |log| && !Replay(log[..k], id).Unknown?
    ensures !Replay(log, id).Unknown?
  {
    if k == |log| {
      assert log[..k] == log;
    } else {
      var shorter := log[..|log| - 1];
      assert shorter[..k] == log[..k];
      KnownStaysKnown(shorter, k, id);
    }
  }

  lemma MarkInv(interval: nat, st: State)
    requires Inv(interval, st) && Enabled(st, Mark)
    ensures Inv(interval, Do(interval, st, Mark))
  {
    var st', m := Do(interval, st, Mark), st.monitor;
    var id := m.todo[0];
    var e := Left(id, st.now, ByMonitor(m.scan));
    KnownStaysKnown(st.log, m.scan, id);
    assert Agrees(st.entries, Replay(st.log, id), id);
    assert st'.log == st.log + [e];
    assert st'.log[..m.scan] == st.log[..m.scan];
    forall other | StaleLife(Replay(st.log[..m.scan], other), m.deadline)
      ensures other in m.todo[1..] || MarkedBy(st'.log, m.scan, other)
    {
      MarkedByNext(st.log, e, m.scan, other);
    }
    SessionsOkNext(st.sessions, st'.sessions, st.log, e);
    RecordInv(interval, st, st', e);
  }

  lemma EndTickInv(interval: nat, st: State)
    requires Inv(interval, st) && Enabled(st, EndTick)
    ensures Inv(interval, Do(interval, st, EndTick))
  {
    var st' := Do(interval, st, EndTick);
    var e := TickEnded(st.now, st.monitor.began, st.monitor.scan);
    SessionsOkNext(st.sessions, st'.sessions, st.log, e);
    RecordInv(interval, st, st', e);
  }

  lemma StepInv(interval: nat, st: State, a: Action)
    requires Inv(interval, st) && Enabled(st, a)
    ensures Inv(interval, Do(interval, st, a))
  {
    match a
    case Elapse(_) => QuietInv(interval, st, Do(interval, st, a));
    case Connect => ConnectInv(interval, st);
    case RegisterFrame(s, doc) => RegisterFrameInv(interval, st, s, doc);
    case CommitRegister(s) => CommitRegisterInv(interval, st, s);
    case HeartbeatFrame(s) => HeartbeatInv(interval, st, s);
    case HangUp(s) => HangUpInv(interval, st, s);
    case Teardown(s) => TeardownInv(interval, st, s);
    case BeginTick => BeginTickInv(interval, st);
    case Scan(order) => ScanInv(interval, st, order);
    case Mark => MarkInv(interval, st);
    case EndTick => EndTickInv(interval, st);
  }

  /** Every reachable state, under every interleaving, satisfies the invariant. */
  lemma {:induction false} RunInv(interval: nat, start: Time, acts: seq<Action>)
    requires Run(interval, start, acts).At?
    ensures Inv(interval, Run(interval, start, acts).st)
  {
    if acts == [] {
      InitInv(interval, start);
    } else {
      RunInv(interval, start, acts[..|acts| - 1]);
      StepInv(interval, Run(interval, start, acts[..|acts| - 1]).st, acts[|acts| - 1]);
    }
  }
}
