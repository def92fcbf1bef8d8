/** One scan of the heartbeat monitor (`heartbeatMonitor.cpp`), run without interference. */
module HeartbeatMonitor {
  import opened NodeRegistry

  /** Two missed heartbeats: the oldest `last_seen_at` a scan begun at `now` still tolerates. */
  function Deadline(now: Time, intervalSecs: nat): int {
    now - 2 * intervalSecs
  }

  predicate Stale(e: NodeEntry, deadline: int) {
    e.status == Online && e.lastSeenAt < deadline
  }

  function StaleIds(m: Entries, deadline: int): set<string> {
    set id | id in m && Stale(m[id], deadline)
  }

  predicate Distinct(ids: seq<string>) {
    forall i, j :: 0 <= i < j < |ids| ==> ids[i] != ids[j]
  }

  function Elements(ids: seq<string>): set<string> {
    set id | id in ids
  }

  /** The entries once all of `ids` have been taken OFFLINE, each at its own time. */
  function Marked(m: Entries, ids: set<string>, clock: string -> Time): Entries {
    map id | id in m :: if id in ids then m[id].(status := Offline, lastSeenAt := clock(id)) else m[id]
  }

  lemma MarkOneMore(m: Entries, ids: set<string>, clock: string -> Time, id: string)
    requires WellKeyed(m) && id in m
    ensures AfterSetOffline(Marked(m, ids, clock), id, clock(id)) == Marked(m, ids + {id}, clock)
  {
    assert Marked(m, ids, clock).Keys == m.Keys == Marked(m, ids + {id}, clock).Keys;
  }

  class Monitor {
    const registry: Registry
    const intervalSecs: nat

    constructor (registry: Registry, intervalSecs: nat)
      ensures this.registry == registry && this.intervalSecs == intervalSecs
    {
      this.registry, this.intervalSecs := registry, intervalSecs;
    }

    /** Phase 1 over the snapshot. */
    static method Collect(snapshot: seq<NodeEntry>, deadline: int, ghost m: Entries) returns (stale: seq<string>)
      requires WellKeyed(m) && Snapshot(m, snapshot)
      ensures Distinct(stale)
      ensures Elements(stale) == StaleIds(m, deadline)
    {
      stale := [];
      for i := 0 to |snapshot|
        invariant forall j :: 0 <= j < |stale| ==> stale[j] in StaleIds(m, deadline)
        invariant forall k :: 0 <= k < i && Stale(snapshot[k], deadline) ==> snapshot[k].nodeId in stale
        invariant forall id <- stale :: exists k :: 0 <= k < i && snapshot[k].nodeId == id
        invariant Distinct(stale)
      {
        if Stale(snapshot[i], deadline) {
          assert snapshot[i].nodeId !in stale;
          stale := stale + [snapshot[i].nodeId];
        }
      }
      forall id <- StaleIds(m, deadline) ensures id in stale {
        var k :| 0 <= k < |snapshot| && snapshot[k] == m[id];
        assert m[snapshot[k].nodeId] == snapshot[k];
      }
    }

    /** Takes every stale node, and no other, OFFLINE; `clock` says when each one is marked. */
    method Tick(now: Time, clock: string -> Time)
      requires registry.Valid()
      modifies registry
      ensures registry.Valid()
      ensures registry.entries ==
              Marked(old(registry.entries), StaleIds(old(registry.entries), Deadline(now, intervalSecs)), clock)
    {
      var deadline := Deadline(now, intervalSecs);
      ghost var m := registry.entries;
      var snapshot := registry.ListNodes();
      var stale := Collect(snapshot, deadline, m);
      for i := 0 to |stale|
        invariant registry.Valid()
        invariant registry.entries == Marked(m, Elements(stale[..i]), clock)
      {
        assert stale[i] in Elements(stale);
        MarkOneMore(m, Elements(stale[..i]), clock, stale[i]);
        assert Elements(stale[..i + 1]) == Elements(stale[..i]) + {stale[i]};
        registry.SetOffline(stale[i], clock(stale[i]));
      }
      assert stale[..|stale|] == stale;
    }
  }
}
