/** What holds of the registry, the sessions and the monitor over whole runs, under every interleaving. */
module NodeLifecycleResults {
  import opened NodeRegistry
  import opened Sessions
  import opened HeartbeatMonitor
  import opened NodeLifecycle
  import opened NodeLifecycleInvariants
  import Wire

  // ---- The registry over a whole run ----

  predicate Joins(e: Event, id: string) {
    e.Joined? && e.entry.nodeId == id
  }

  predicate Leaves(e: Event, id: string) {
    e.Left? && e.id == id
  }

  predicate Beats(e: Event, id: string) {
    e.Beat? && e.id == id
  }

  predicate NoJoin(log: Log, from: nat, id: string) {
    forall i :: from <= i < |log| ==> !Joins(log[i], id)
  }

  predicate NoLeave(log: Log, from: nat, id: string) {
    forall i :: from <= i < |log| ==> !Leaves(log[i], id)
  }

  predicate NoBeat(log: Log, from: nat, id: string) {
    forall i :: from <= i < |log| ==> !Beats(log[i], id)
  }

  /** Reading a life off the log by positions: the metadata are those of the latest registration, an ONLINE node has
      not been taken OFFLINE since and carries its latest heartbeat, and an OFFLINE one carries the time of the latest
      `setOffline`. */
  lemma {:induction false} LifeByPositions(log: Log, id: string) returns (join: nat, beat: nat, leave: nat)
    ensures var l := Replay(log, id);
            && (l.Unknown? ==> NoJoin(log, 0, id))
            && (!l.Unknown? ==>
                  join < |log| && Joins(log[join], id) && l.entry == log[join].entry && NoJoin(log, join + 1, id))
            && (l.Up? ==> NoLeave(log, join + 1, id))
            && (l.Up? && l.beat.Never? ==> NoBeat(log, join + 1, id))
            && (l.Up? && l.beat.Last? ==>
                  join < beat < |log| && log[beat] == Beat(id, l.beat.at) && NoBeat(log, beat + 1, id))
            && (l.Down? ==>
                  && join < leave < |log| && Leaves(log[leave], id)
                  && l.since == log[leave].at && NoLeave(log, leave + 1, id))
  {
    join, beat, leave := 0, 0, 0;
    if log != [] {
      var last := |log| - 1;
      join, beat, leave := LifeByPositions(log[..last], id);
      if Joins(log[last], id) {
        join := last;
      } else if Beats(log[last], id) {
        beat := last;
      } else if Leaves(log[last], id) {
        leave := last;
      }
    }
  }

  /** The registry is a function of what happened: every entry is filed under its own non-empty id and is the one the
      log calls for. */
  lemma RegistryIsItsHistory(interval: nat, start: Time, acts: seq<Action>, id: string)
    requires Run(interval, start, acts).At?
    ensures var st := Run(interval, start, acts).st;
            && (id in st.entries <==> !Replay(st.log, id).Unknown?)
            && (id in st.entries ==> st.entries[id] == EntryOf(Replay(st.log, id)))
            && (id in st.entries ==> id != "" && st.entries[id].nodeId == id)
  {
    RunInv(interval, start, acts);
    assert Agrees(Run(interval, start, acts).st.entries, Replay(Run(interval, start, acts).st.log, id), id);
  }

  /** Between two successful registrations of one id, that id is taken OFFLINE. */
  lemma RegistrationsAreSeparated(interval: nat, start: Time, acts: seq<Action>, id: string, i: nat, j: nat)
    returns (k: nat)
    requires Run(interval, start, acts).At?
    requires i < j < |Run(interval, start, acts).st.log|
    requires Joins(Run(interval, start, acts).st.log[i], id) && Joins(Run(interval, start, acts).st.log[j], id)
    ensures i < k < j && Leaves(Run(interval, start, acts).st.log[k], id)
  {
    var log := Run(interval, start, acts).st.log;
    RunInv(interval, start, acts);
    LawfulAt(interval, log, j);
    var h := log[..j];
    var join, beat, leave := LifeByPositions(h, id);
    assert Joins(h[i], id);
    k := leave;
  }

  lemma StepKeepsIds(interval: nat, st: State, a: Action)
    requires Enabled(st, a)
    ensures st.entries.Keys <= Do(interval, st, a).entries.Keys
    ensures st.log <= Do(interval, st, a).log
  {
  }

  /** An id, once registered, stays registered whatever happens next, and history is only ever added to. */
  lemma {:induction false} IdsOnlyGrow(interval: nat, start: Time, acts: seq<Action>, more: seq<Action>)
    requires Run(interval, start, acts + more).At?
    ensures Run(interval, start, acts).At?
    ensures Run(interval, start, acts).st.entries.Keys <= Run(interval, start, acts + more).st.entries.Keys
    ensures Run(interval, start, acts).st.log <= Run(interval, start, acts + more).st.log
  {
    if more == [] {
      assert acts + more == acts;
    } else {
      var all, fewer := acts + more, more[..|more| - 1];
      assert all[..|all| - 1] == acts + fewer;
      IdsOnlyGrow(interval, start, acts, fewer);
      StepKeepsIds(interval, Run(interval, start, acts + fewer).st, all[|all| - 1]);
    }
  }

  /** A registration that was acknowledged: its id is in the registry ever after. */
  lemma AcknowledgedIdStays(interval: nat, start: Time, acts: seq<Action>, s: nat, more: seq<Action>)
    requires Run(interval, start, acts).At? && Enabled(Run(interval, start, acts).st, CommitRegister(s))
    requires var st := Run(interval, start, acts).st; Accepts(st.entries, st.sessions[s].phase.entry)
    requires Run(interval, start, acts + [CommitRegister(s)] + more).At?
    ensures Run(interval, start, acts).st.sessions[s].phase.entry.nodeId
            in Run(interval, start, acts + [CommitRegister(s)] + more).st.entries
  {
    RunNext(interval, start, acts, CommitRegister(s));
    IdsOnlyGrow(interval, start, acts + [CommitRegister(s)], more);
  }

  /** Undisturbed, the two steps of a REGISTER and the one step of a HEARTBEAT do what the session's handlers do. */
  lemma StepsAreExchanges(interval: nat, st: State, s: nat, codec: Codec, x: Exchange)
    requires InPhase(st, s, Reading) && Handled(codec, x)
    requires x.before == st.entries && x.activeBefore == Active(st.sessions[s]) && x.now == st.now
    ensures x.msg.kind == Wire.HEARTBEAT ==> Do(interval, st, HeartbeatFrame(s)).entries == x.after
    ensures x.msg.kind == Wire.REGISTER ==>
              var st1 := Do(interval, st, RegisterFrame(s, codec.parse(x.msg.payload)));
              var st2 := if Enabled(st1, CommitRegister(s)) then Do(interval, st1, CommitRegister(s)) else st1;
              InPhase(st2, s, Reading) && st2.entries == x.after && Active(st2.sessions[s]) == x.activeAfter
  {
  }

  // ---- Logs of runs ----

  /** `log` is the history of some run. */
  ghost predicate LogOfRun(interval: nat, log: Log) {
    exists start: Time, acts: seq<Action> ::
      Run(interval, start, acts).At? && Run(interval, start, acts).st.log == log
  }

  lemma LogsAreLawful(interval: nat, log: Log)
    requires LogOfRun(interval, log)
    ensures Lawful(interval, log)
  {
    var start: Time, acts: seq<Action> :|
      Run(interval, start, acts).At? && Run(interval, start, acts).st.log == log;
    RunInv(interval, start, acts);
  }

  // ---- Which nodes the monitor takes OFFLINE ----

  /** The tick whose snapshot is at position `scan` has run to its end. */
  predicate Finished(log: Log, scan: nat) {
    exists e :: 0 <= e < |log| && log[e].TickEnded? && log[e].scan == scan
  }

  /** A tick takes a node OFFLINE only if it was stale at the snapshot, however much later the marking happens, and by
      its end it has taken all of those. */
  lemma MonitorMarksExactlyTheStale(interval: nat, log: Log, scan: nat, id: string)
    requires LogOfRun(interval, log) && scan < |log| && log[scan].Scanned?
    ensures MarkedBy(log, scan, id) ==> StaleLife(Replay(log[..scan], id), log[scan].deadline)
    ensures Finished(log, scan) ==>
              (MarkedBy(log, scan, id) <==> StaleLife(Replay(log[..scan], id), log[scan].deadline))
  {
    hide LogOfRun, Lawful, Replay;
    LogsAreLawful(interval, log);
    if MarkedBy(log, scan, id) {
      var i :| scan < i < |log| && Marks(log[i], id, scan);
      LawfulAt(interval, log, i);
      assert log[..i][..scan] == log[..scan];
    }
    if Finished(log, scan) && StaleLife(Replay(log[..scan], id), log[scan].deadline) {
      var e :| 0 <= e < |log| && log[e].TickEnded? && log[e].scan == scan;
      LawfulAt(interval, log, e);
      assert log[..e][..scan] == log[..scan];
      assert MarkedBy(log[..e], scan, id);
      var i :| scan < i < e && Marks(log[..e][i], id, scan);
      assert Marks(log[i], id, scan);
    }
  }

  /** Once it has begun to send heartbeats, the node is never silent for more than twice the interval while ONLINE. */
  ghost predicate Punctual(interval: nat, log: Log, id: string) {
    forall k :: 0 <= k < |log| ==> PunctualAt(interval, Replay(log[..k], id), log[k].at)
  }

  predicate PunctualAt(interval: nat, l: Life, now: Time) {
    l.Up? && l.beat.Last? ==> now - l.beat.at <= 2 * interval
  }

  /** Registered, and no heartbeat since. */
  predicate Unheard(l: Life) {
    l.Up? && l.beat.Never?
  }

  /** For a punctual node a finished tick is exact about one thing only: it takes the node OFFLINE if and only if the
      node, at the snapshot, had registered but not yet sent a heartbeat. (A deadline that does not lie after the epoch
      spares even those.) */
  lemma PunctualNodeMarkedIff(interval: nat, log: Log, scan: nat, id: string)
    requires LogOfRun(interval, log) && Punctual(interval, log, id)
    requires scan < |log| && log[scan].Scanned?
    ensures MarkedBy(log, scan, id) ==> Unheard(Replay(log[..scan], id)) && EPOCH < log[scan].deadline
    ensures Finished(log, scan) ==>
              (MarkedBy(log, scan, id) <==> Unheard(Replay(log[..scan], id)) && EPOCH < log[scan].deadline)
  {
    var l := Replay(log[..scan], id);
    LogsAreLawful(interval, log);
    MonitorMarksExactlyTheStale(interval, log, scan, id);
    LawfulAt(interval, log, scan);
    assert PunctualAt(interval, l, log[scan].at);
    assert StaleLife(l, log[scan].deadline) ==> l.Up?;
    assert Unheard(l) ==> EntryOf(l).lastSeenAt == EPOCH;
    assert l.Up? && l.beat.Last? ==> EntryOf(l).lastSeenAt == l.beat.at;
  }

  /** So a punctual node that gets its first heartbeat in before the next snapshot, after every registration, is never
      taken OFFLINE by the monitor, in any interleaving. */
  lemma NoFalseOffline(interval: nat, start: Time, acts: seq<Action>, id: string)
    requires Run(interval, start, acts).At?
    requires Punctual(interval, Run(interval, start, acts).st.log, id)
    requires var log := Run(interval, start, acts).st.log;
             forall scan :: 0 <= scan < |log| && log[scan].Scanned? ==>
               var l := Replay(log[..scan], id); l.Up? ==> l.beat.Last?
    ensures var log := Run(interval, start, acts).st.log;
            forall i, scan: nat :: 0 <= i < |log| ==> !Marks(log[i], id, scan)
  {
    var log := Run(interval, start, acts).st.log;
    RunInv(interval, start, acts);
    forall i, scan: nat | 0 <= i < |log| ensures !Marks(log[i], id, scan) {
      LawfulAt(interval, log, i);
      if scan < i && log[scan].Scanned? {
        assert log[..i][..scan] == log[..scan];
        PunctualIsNotStale(interval, log, scan, id);
      }
    }
  }

  /** Seen from a snapshot, a punctual node that has sent a heartbeat is fresh. */
  lemma PunctualIsNotStale(interval: nat, log: Log, scan: nat, id: string)
    requires Lawful(interval, log) && scan < |log| && log[scan].Scanned? && Punctual(interval, log, id)
    requires Replay(log[..scan], id).Up? ==> Replay(log[..scan], id).beat.Last?
    ensures !StaleLife(Replay(log[..scan], id), log[scan].deadline)
  {
    LawfulAt(interval, log, scan);
    assert PunctualAt(interval, Replay(log[..scan], id), log[scan].at);
  }

  // ---- How soon a silent node is noticed ----

  /** Without registrations and heartbeats of `id` from position `from` on, its life stays what it was or ends. */
  lemma {:induction false} QuietLife(log: Log, from: nat, id: string)
    requires from <= |log| && NoJoin(log, from, id) && NoBeat(log, from, id)
    requires !Replay(log[..from], id).Unknown?
    ensures Replay(log, id).Down? || Replay(log, id) == Replay(log[..from], id)
    ensures (Replay(log[..from], id).Down? || !NoLeave(log, from, id)) ==> Replay(log, id).Down?
  {
    if from == |log| {
      assert log[..from] == log;
    } else {
      var shorter := log[..|log| - 1];
      assert shorter[..from] == log[..from];
      QuietLife(shorter, from, id);
      if NoLeave(shorter, from, id) && !NoLeave(log, from, id) {
        assert Leaves(log[|log| - 1], id);
      }
    }
  }

  /** A tick that begins more than twice the interval after a known node was last heard of leaves it OFFLINE, unless the
      node registers or is heard of again meanwhile. */
  lemma SilentNodeIsOffline(interval: nat, log: Log, end: nat, id: string, heard: Time)
    requires Lawful(interval, log) && end < |log| && log[end].TickEnded?
    requires log[end].began < end && log[log[end].began].TickBegan?
    requires heard + 2 * interval < log[log[end].began].at
    requires NoJoin(log[..end], log[end].began, id) && NoBeat(log[..end], log[end].began, id)
    requires var l := Replay(log[..log[end].began], id);
             !l.Unknown? && (l.Up? ==> EntryOf(l).lastSeenAt <= heard)
    ensures Replay(log[..end], id).Down?
  {
    var h, began, scan := log[..end], log[end].began, log[end].scan;
    LawfulAt(interval, log, end);
    assert h[..scan][..began] == log[..began];
    QuietLife(h[..scan], began, id);
    if !Replay(h[..scan], id).Down? {
      assert StaleLife(Replay(h[..scan], id), h[scan].deadline);
      assert MarkedBy(h, scan, id);
      var i :| scan < i < |h| && Marks(h[i], id, scan);
      assert Leaves(h[i], id);
    }
    QuietLife(h, scan, id);
  }

  predicate TickAt(log: Log, b: int) {
    0 <= b < |log| && log[b].TickBegan?
  }

  /** Some tick before position `b` began at most `period` before `moment`. */
  predicate TickWithin(log: Log, b: int, moment: Time, period: nat) {
    exists a :: 0 <= a < b && TickAt(log, a) && moment <= log[a].at + period
  }

  /** Ticks begin at most `period` apart, up to `now`: each one but the first has an earlier one that close, and so has
      the present moment once there has been one. */
  predicate Cadence(log: Log, now: Time, period: nat) {
    forall a, b :: 0 <= a < b <= |log| && TickAt(log, a) && (b == |log| || TickAt(log, b)) ==>
      TickWithin(log, b, if b == |log| then now else log[b].at, period)
  }

  /** The first tick from position `a` up to `b` that begins after `moment`. */
  lemma {:induction false} FirstAfter(log: Log, a: nat, b: nat, moment: Time) returns (first: nat)
    requires a <= b && TickAt(log, b) && moment < log[b].at
    ensures a <= first <= b && TickAt(log, first) && moment < log[first].at
    ensures forall c :: a <= c < first && TickAt(log, c) ==> log[c].at <= moment
  {
    if c :| a <= c < b && TickAt(log, c) && moment < log[c].at {
      first := FirstAfter(log, a, c, moment);
    } else {
      first := b;
    }
  }

  lemma TimesInOrder(interval: nat, log: Log, i: nat, j: nat)
    requires Lawful(interval, log) && i <= j < |log|
    ensures log[i].at <= log[j].at
  {
    if i < j {
      LawfulAt(interval, log, j);
      TimesAscend(interval, log[..j], i);
    }
  }

  /** Some tick does begin in time: once the clock has passed `moment + period`, the first tick after `moment` has
      begun, no later than that. */
  lemma TickBeginsInTime(interval: nat, log: Log, now: Time, period: nat, moment: Time, a: nat) returns (b: nat)
    requires LogOfRun(interval, log) && Cadence(log, now, period)
    requires TickAt(log, a) && log[a].at <= moment && moment + period < now
    ensures a < b && TickAt(log, b) && moment < log[b].at <= moment + period
    ensures forall c :: 0 <= c < b && TickAt(log, c) ==> log[c].at <= moment
  {
    hide LogOfRun, Lawful;
    LogsAreLawful(interval, log);
    assert !TickAt(log, |log|);
    assert TickWithin(log, |log|, now, period);
    var last :| 0 <= last < |log| && TickAt(log, last) && now <= log[last].at + period;
    b := FirstAfter(log, 0, last, moment);
    if b <= a {
      TimesInOrder(interval, log, b, a);
    }
    assert TickWithin(log, b, log[b].at, period);
  }

  /** Position `end` closes the first tick that begins after `moment`, and an earlier tick had begun by then. */
  predicate FirstTickAfter(log: Log, end: nat, moment: Time) {
    && end < |log| && log[end].TickEnded?
    && log[end].began < end && TickAt(log, log[end].began)
    && moment < log[log[end].began].at
    && (exists a :: 0 <= a < log[end].began && TickAt(log, a))
    && (forall a :: 0 <= a < log[end].began && TickAt(log, a) ==> log[a].at <= moment)
  }

  /** A known node that was last heard of no later than `heard` and neither registers nor is heard of between the
      positions `from` and `to`. */
  predicate SilentSince(log: Log, from: nat, to: nat, id: string, heard: Time)
    requires from <= to <= |log|
  {
    var l := Replay(log[..from], id);
    && !l.Unknown? && (l.Up? ==> EntryOf(l).lastSeenAt <= heard)
    && NoJoin(log[..to], from, id) && NoBeat(log[..to], from, id)
  }

  /** The detection bound: a node last heard of at `heard` is OFFLINE at the end of the first tick that begins after
      `heard + 2 * interval`, and that tick begins within one period of that moment. */
  lemma DetectionBound(interval: nat, log: Log, now: Time, period: nat, end: nat, id: string, heard: Time)
    requires LogOfRun(interval, log) && Cadence(log, now, period)
    requires FirstTickAfter(log, end, heard + 2 * interval)
    requires SilentSince(log, log[end].began, end, id, heard)
    ensures Replay(log[..end], id).Down?
    ensures log[log[end].began].at <= heard + 2 * interval + period
  {
    hide LogOfRun, Lawful, Replay;
    LogsAreLawful(interval, log);
    SilentNodeIsOffline(interval, log, end, id, heard);
    assert TickWithin(log, log[end].began, log[log[end].began].at, period);
  }

  /** And there is such a tick: once the clock has passed `heard + 2 * interval + period` one has begun in that window
      which, when it ends, leaves every node OFFLINE that was last heard of by `heard` and has been silent since. */
  lemma SilentNodesAreDetected(interval: nat, log: Log, now: Time, period: nat, heard: Time, a: nat) returns (b: nat)
    requires LogOfRun(interval, log) && Cadence(log, now, period)
    requires TickAt(log, a) && log[a].at <= heard + 2 * interval && heard + 2 * interval + period < now
    ensures TickAt(log, b) && heard + 2 * interval < log[b].at <= heard + 2 * interval + period
    ensures forall end, id :: EndsSilent(log, b, end, id, heard) ==> Replay(log[..end], id).Down?
  {
    b := TickBeginsInTime(interval, log, now, period, heard + 2 * interval, a);
    forall end, id | EndsSilent(log, b, end, id, heard) ensures Replay(log[..end], id).Down? {
      DetectionBound(interval, log, now, period, end, id, heard);
    }
  }

  /** The tick begun at position `b` has ended at `end`, and `id` has been silent. */
  predicate EndsSilent(log: Log, b: nat, end: int, id: string, heard: Time) {
    b < end < |log| && log[end].TickEnded? && log[end].began == b && SilentSince(log, b, end, id, heard)
  }

  // ---- Which session answers for an ONLINE node ----

  predicate HasLiveSession(st: State, id: string) {
    exists s :: 0 <= s < |st.sessions| && !st.sessions[s].phase.Closed? && Active(st.sessions[s]) == id
  }

  /** The session through which `id` registered last. */
  function Registrar(log: Log, id: string): nat
    requires Replay(log, id).Up?
  {
    Replay(log, id).session
  }

  /** In every reachable state an ONLINE node was registered by one particular session with a REGISTER that named
      it, and that session is live and still answers for the node if and only if the last name it sent is that of the
      node. */
  lemma OnlineNodeIsAnsweredFor(interval: nat, start: Time, acts: seq<Action>, id: string)
    requires Run(interval, start, acts).At?
    requires var st := Run(interval, start, acts).st; id in st.entries && st.entries[id].status == Online
    ensures var st := Run(interval, start, acts).st;
            && Replay(st.log, id).Up? && Registrar(st.log, id) < |st.sessions|
            && var s := st.sessions[Registrar(st.log, id)];
            && id in s.names
            && (!s.phase.Closed? && Active(s) == id <==> s.names[|s.names| - 1] == id)
            && (Active(s) == id ==> HasLiveSession(st, id))
  {
    hide Run;
    RunInv(interval, start, acts);
    RegistrarAnswers(interval, Run(interval, start, acts).st, id);
  }

  lemma RegistrarAnswers(interval: nat, st: State, id: string)
    requires Inv(interval, st) && id in st.entries && st.entries[id].status == Online
    ensures Replay(st.log, id).Up? && Registrar(st.log, id) < |st.sessions|
    ensures Answers(st.sessions[Registrar(st.log, id)], Replay(st.log, id).naming, id)
    ensures Active(st.sessions[Registrar(st.log, id)]) == id ==> HasLiveSession(st, id)
  {
    hide Lawful, MonitorOk, Replay;
    assert Agrees(st.entries, Replay(st.log, id), id);
  }

  /** A session that closes takes an ONLINE node OFFLINE if and only if the last name it sent is that of the node;
      otherwise it leaves the entry as it is. So a node outlives the session that registered it exactly if that session
      has sent another name since. */
  lemma TeardownTakesIff(interval: nat, st: State, s: nat, id: string)
    requires Enabled(st, Teardown(s)) && id != "" && id in st.entries && st.entries[id].status == Online
    ensures var st' := Do(interval, st, Teardown(s));
            && id in st'.entries
            && (st'.entries[id].status == Offline <==> Active(st.sessions[s]) == id)
            && (Active(st.sessions[s]) != id ==> st'.entries[id] == st.entries[id])
  {
  }

  /** Every REGISTER frame of a session names the same node. */
  predicate OneNameEach(st: State) {
    forall s, i, j :: 0 <= s < |st.sessions| && 0 <= i < j < |st.sessions[s].names| ==>
      st.sessions[s].names[i] == st.sessions[s].names[j]
  }

  /** With one name per session every ONLINE node has a live session, however often it was registered elsewhere; once
      all sessions are closed every node is OFFLINE. */
  lemma OneNameSessions(interval: nat, start: Time, acts: seq<Action>, id: string)
    requires Run(interval, start, acts).At? && OneNameEach(Run(interval, start, acts).st)
    requires id in Run(interval, start, acts).st.entries
    ensures var st := Run(interval, start, acts).st;
            && (st.entries[id].status == Online ==> HasLiveSession(st, id))
            && ((forall s :: 0 <= s < |st.sessions| ==> st.sessions[s].phase.Closed?) ==>
                  st.entries[id].status == Offline)
  {
    var st := Run(interval, start, acts).st;
    if st.entries[id].status == Online {
      OnlineNodeIsAnsweredFor(interval, start, acts, id);
      var names := st.sessions[Registrar(st.log, id)].names;
      var i :| 0 <= i < |names| && names[i] == id;
      assert names[|names| - 1] == id;
    }
  }

  // ---- Who took an OFFLINE node OFFLINE ----

  /** A session takes a node OFFLINE by closing with that name as its last. */
  predicate Explained(sessions: seq<Session>, e: Event) {
    e.Left? && e.cause.BySession? ==>
      && e.cause.session < |sessions|
      && sessions[e.cause.session].phase.Closed? && Active(sessions[e.cause.session]) == e.id
  }

  predicate AllExplained(st: State) {
    forall i :: 0 <= i < |st.log| ==> Explained(st.sessions, st.log[i])
  }

  /** A closed session stays as it is. */
  lemma ClosedForGood(interval: nat, st: State, a: Action, s: nat)
    requires Enabled(st, a) && s < |st.sessions| && st.sessions[s].phase.Closed?
    ensures var st' := Do(interval, st, a); s < |st'.sessions| && st'.sessions[s] == st.sessions[s]
  {
  }

  lemma StepExplains(interval: nat, st: State, a: Action)
    requires Enabled(st, a) && AllExplained(st)
    ensures AllExplained(Do(interval, st, a))
  {
    var st' := Do(interval, st, a);
    StepKeepsIds(interval, st, a);
    forall i | 0 <= i < |st'.log| ensures Explained(st'.sessions, st'.log[i]) {
      if i < |st.log| {
        assert st'.log[i] == st.log[i] && Explained(st.sessions, st.log[i]);
        if st.log[i].Left? && st.log[i].cause.BySession? {
          ClosedForGood(interval, st, a, st.log[i].cause.session);
        }
      }
    }
  }

  lemma {:induction false} LeavesAreExplained(interval: nat, start: Time, acts: seq<Action>)
    requires Run(interval, start, acts).At?
    ensures AllExplained(Run(interval, start, acts).st)
  {
    if acts != [] {
      LeavesAreExplained(interval, start, acts[..|acts| - 1]);
      StepExplains(interval, Run(interval, start, acts[..|acts| - 1]).st, acts[|acts| - 1]);
    }
  }

  /** The event at `k` took `id` OFFLINE, and it has not registered since. */
  predicate TakenAt(log: Log, k: int, id: string) {
    0 <= k < |log| && Leaves(log[k], id) && NoJoin(log, k + 1, id)
  }

  /** In every reachable state a known node is OFFLINE if and only if it has been taken OFFLINE since it last
      registered; and whatever took it was a closed session whose last name was the node's, registered by it or not, or
      a scan that found it stale. */
  lemma OfflineIff(interval: nat, start: Time, acts: seq<Action>, id: string)
    requires Run(interval, start, acts).At? && id in Run(interval, start, acts).st.entries
    ensures var st := Run(interval, start, acts).st;
            && (st.entries[id].status == Offline <==> exists k :: TakenAt(st.log, k, id))
            && forall k :: TakenAt(st.log, k, id) ==>
                 && Explained(st.sessions, st.log[k])
                 && (st.log[k].cause.ByMonitor? ==>
                       var scan := st.log[k].cause.scan;
                       && scan < k && st.log[scan].Scanned?
                       && StaleLife(Replay(st.log[..scan], id), st.log[scan].deadline))
  {
    hide Run;
    var st := Run(interval, start, acts).st;
    RunInv(interval, start, acts);
    LeavesAreExplained(interval, start, acts);
    assert Agrees(st.entries, Replay(st.log, id), id);
    DownIff(st.log, id);
    forall k | TakenAt(st.log, k, id) && st.log[k].cause.ByMonitor?
      ensures var scan := st.log[k].cause.scan;
              && scan < k && st.log[scan].Scanned?
              && StaleLife(Replay(st.log[..scan], id), st.log[scan].deadline)
    {
      LawfulAt(interval, st.log, k);
      assert st.log[..k][..st.log[k].cause.scan] == st.log[..st.log[k].cause.scan];
    }
  }

  lemma DownIff(log: Log, id: string)
    requires !Replay(log, id).Unknown?
    ensures Replay(log, id).Down? <==> exists k :: TakenAt(log, k, id)
  {
    hide Replay;
    var join, beat, leave := LifeByPositions(log, id);
    if Replay(log, id).Down? {
      assert TakenAt(log, leave, id);
    }
    if k :| TakenAt(log, k, id) {
      assert Joins(log[join], id);
      assert join < k;
    }
  }

  /** So a known node that no scan has taken is ONLINE as long as no session closes with its name as the last. */
  lemma OnlineUnlessTaken(interval: nat, start: Time, acts: seq<Action>, id: string)
    requires Run(interval, start, acts).At? && id in Run(interval, start, acts).st.entries
    requires var st := Run(interval, start, acts).st;
             && (forall k :: 0 <= k < |st.log| && Leaves(st.log[k], id) ==> st.log[k].cause.BySession?)
             && (forall s :: 0 <= s < |st.sessions| && st.sessions[s].phase.Closed? ==> Active(st.sessions[s]) != id)
    ensures Run(interval, start, acts).st.entries[id].status == Online
  {
    hide Run;
    OfflineIff(interval, start, acts, id);
  }

  // ---- Runs that show the conditions are needed ----

  lemma RunNext(interval: nat, start: Time, acts: seq<Action>, a: Action)
    requires Run(interval, start, acts).At? && Enabled(Run(interval, start, acts).st, a)
    ensures Run(interval, start, acts + [a]) == At(Do(interval, Run(interval, start, acts).st, a))
  {
    assert (acts + [a])[..|acts + [a]| - 1] == acts;
  }

  function Asking(id: string): (doc: Json)
    ensures WellFormed(doc) <==> id != ""
  {
    Document(Str(id), Str(""), Str(""), Unsigned(0))
  }

  /** One session registers `id`, leaving the node ONLINE with no heartbeat. */
  lemma RegisterRun(interval: nat, start: Time, id: string) returns (acts: seq<Action>)
    requires id != ""
    ensures Run(interval, start, acts).At?
    ensures var e := RequestedEntry(Asking(id));
            Run(interval, start, acts).st ==
            State(start, map[id := e], [Session([id], Reading)], Waiting, [Joined(e, start, 0, 1)])
  {
    var doc := Asking(id);
    RunNext(interval, start, [], Connect);
    acts := [] + [Connect];
    assert Run(interval, start, acts).st.sessions == [Session([], Reading)];
    RunNext(interval, start, acts, RegisterFrame(0, doc));
    acts := acts + [RegisterFrame(0, doc)];
    assert [] + [id] == [id];
    assert Run(interval, start, acts).st.sessions == [Session([id], Registering(RequestedEntry(doc)))];
    RunNext(interval, start, acts, CommitRegister(0));
    acts := acts + [CommitRegister(0)];
    var st := Run(interval, start, acts).st;
    assert st.sessions == [Session([id], Reading)];
    assert st.log == [Joined(RequestedEntry(doc), start, 0, 1)];
  }

  lemma PunctualNext(interval: nat, log: Log, e: Event, id: string)
    requires Punctual(interval, log, id) && PunctualAt(interval, Replay(log, id), e.at)
    ensures Punctual(interval, log + [e], id)
  {
    forall k | 0 <= k < |log + [e]| ensures PunctualAt(interval, Replay((log + [e])[..k], id), (log + [e])[k].at) {
      if k < |log| {
        assert (log + [e])[..k] == log[..k];
      } else {
        assert (log + [e])[..k] == log;
      }
    }
  }

  /** The same for a list of events, all at one moment: a node that beats then and there is punctual throughout. */
  lemma {:induction false} PunctualAtOnce(interval: nat, log: Log, now: Time, id: string)
    requires forall i :: 0 <= i < |log| ==> log[i].at == now
    ensures Punctual(interval, log, id)
    ensures Replay(log, id).Up? && Replay(log, id).beat.Last? ==> Replay(log, id).beat.at == now
  {
    if log != [] {
      var last := |log| - 1;
      PunctualAtOnce(interval, log[..last], now, id);
      PunctualNext(interval, log[..last], log[last], id);
      assert log == log[..last] + [log[last]];
    }
  }

  /** A node registers, the monitor takes its snapshot, the node sends its first heartbeat, and the same tick then takes
      it OFFLINE: punctual, heard of at this very moment, and OFFLINE all the same. */
  lemma HeartbeatAfterSnapshotIsLost(id: string) returns (acts: seq<Action>)
    requires id != ""
    ensures Run(1, 100, acts).At?
    ensures var st := Run(1, 100, acts).st;
            && Punctual(1, st.log, id)
            && |st.log| > 0 && Marks(st.log[|st.log| - 1], id, 2)
            && Replay(st.log[..|st.log| - 1], id).Up? && Replay(st.log[..|st.log| - 1], id).beat == Last(st.now)
            && id in st.entries && st.entries[id].status == Offline
  {
    acts := ScannedRun(id);
    var st := Run(1, 100, acts).st;
    assert Agrees(st.entries, Replay(st.log, id), id) by { RunInv(1, 100, acts); }
    RunNext(1, 100, acts, HeartbeatFrame(0));
    acts := acts + [HeartbeatFrame(0)];
    ReplayNext(st.log, Beat(id, 100), id);
    RunNext(1, 100, acts, Mark);
    acts := acts + [Mark];
    var log := st.log + [Beat(id, 100)] + [Left(id, 100, ByMonitor(2))];
    assert log[..|log| - 1] == st.log + [Beat(id, 100)];
    PunctualAtOnce(1, log, 100, id);
  }

  /** Up to and including the snapshot. */
  lemma ScannedRun(id: string) returns (acts: seq<Action>)
    requires id != ""
    ensures Run(1, 100, acts).At?
    ensures var e, st := RequestedEntry(Asking(id)), Run(1, 100, acts).st;
            && st.now == 100 && st.entries == map[id := e] && st.sessions == [Session([id], Reading)]
            && st.monitor == Marking(1, 2, 98, [id])
            && st.log == [Joined(e, 100, 0, 1), TickBegan(100), Scanned(100, 98)]
  {
    acts := RegisterRun(1, 100, id);
    RunNext(1, 100, acts, BeginTick);
    acts := acts + [BeginTick];
    assert StaleIds(Run(1, 100, acts).st.entries, 98) == {id} == Elements([id]);
    RunNext(1, 100, acts, Scan([id]));
    acts := acts + [Scan([id])];
  }

  /** A session that registers `a` and then `b` leaves `a` ONLINE for good: it hangs up, no session is live, and only
      `b` is taken OFFLINE. */
  lemma SecondNameOrphansTheFirst(interval: nat, start: Time, a: string, b: string) returns (acts: seq<Action>)
    requires a != "" && b != "" && a != b
    ensures Run(interval, start, acts).At?
    ensures var st := Run(interval, start, acts).st;
            && (forall s :: 0 <= s < |st.sessions| ==> st.sessions[s].phase.Closed?)
            && a in st.entries && st.entries[a].status == Online
            && b in st.entries && st.entries[b].status == Offline
  {
    acts := RegisterRun(interval, start, a);
    RunNext(interval, start, acts, RegisterFrame(0, Asking(b)));
    acts := acts + [RegisterFrame(0, Asking(b))];
    RunNext(interval, start, acts, CommitRegister(0));
    acts := acts + [CommitRegister(0)];
    RunNext(interval, start, acts, HangUp(0));
    acts := acts + [HangUp(0)];
    RunNext(interval, start, acts, Teardown(0));
    acts := acts + [Teardown(0)];
  }

  /** A second session asks for a name that is taken, is refused, and hangs up: that takes the node OFFLINE although the
      session that registered it is live and has named no other. */
  lemma RefusedRegisterTakesTheNode(interval: nat, start: Time, id: string) returns (acts: seq<Action>)
    requires id != ""
    ensures Run(interval, start, acts).At?
    ensures var st, e := Run(interval, start, acts).st, RequestedEntry(Asking(id));
            && st.sessions == [Session([id], Reading), Session([id], Closed)]
            && st.log == [Joined(e, start, 0, 1), Left(id, start, BySession(1))]
            && id in st.entries && st.entries[id].status == Offline
  {
    acts := RegisterRun(interval, start, id);
    acts := RefusedRun(interval, start, id, acts);
    hide Run;
    RunNext(interval, start, acts, HangUp(1));
    acts := acts + [HangUp(1)];
    assert Run(interval, start, acts).st.sessions == [Session([id], Reading), Session([id], Closing)];
    RunNext(interval, start, acts, Teardown(1));
    acts := acts + [Teardown(1)];
    assert Run(interval, start, acts).st.sessions == [Session([id], Reading), Session([id], Closed)];
  }

  /** Up to and including the refusal: the registry and the log are as before. */
  lemma RefusedRun(interval: nat, start: Time, id: string, before: seq<Action>) returns (acts: seq<Action>)
    requires id != "" && Run(interval, start, before).At?
    requires var e := RequestedEntry(Asking(id));
             Run(interval, start, before).st ==
             State(start, map[id := e], [Session([id], Reading)], Waiting, [Joined(e, start, 0, 1)])
    ensures Run(interval, start, acts).At?
    ensures Run(interval, start, acts).st ==
            Run(interval, start, before).st.(sessions := [Session([id], Reading), Session([id], Reading)])
    ensures RegisterReply(Run(interval, start, before).st.entries, Asking(id)) == ErrorReply(DuplicateNode)
  {
    hide Run;
    var doc := Asking(id);
    RunNext(interval, start, before, Connect);
    acts := before + [Connect];
    assert Run(interval, start, acts).st.sessions == [Session([id], Reading), Session([], Reading)];
    RunNext(interval, start, acts, RegisterFrame(1, doc));
    acts := acts + [RegisterFrame(1, doc)];
    assert [] + [id] == [id];
    assert Run(interval, start, acts).st.sessions ==
           [Session([id], Reading), Session([id], Registering(RequestedEntry(doc)))];
    RunNext(interval, start, acts, CommitRegister(1));
    acts := acts + [CommitRegister(1)];
    assert Run(interval, start, acts).st.sessions == [Session([id], Reading), Session([id], Reading)];
  }
}
