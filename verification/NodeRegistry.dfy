/** The shared registry of nodes (`nodeRegistry.cpp`): what each operation does to its entries. */
module NodeRegistry {

  datatype NodeStatus = Online | Offline

  /** Points of `system_clock`; the epoch is a default-constructed one. */
  type Time = nat
  const EPOCH: Time := 0

  datatype NodeEntry = NodeEntry(
    nodeId: string, bunkerName: string, ipAddress: string, capacity: nat,
    status: NodeStatus, lastSeenAt: Time)

  type Entries = map<string, NodeEntry>

  datatype RegisterResult = RegisterOk | ErrDuplicate

  datatype Lookup = Found(entry: NodeEntry) | NotFound

  /** Every entry is filed under its own, non-empty id. */
  predicate WellKeyed(m: Entries) {
    forall id <- m :: id != "" && m[id].nodeId == id
  }

  predicate Accepts(m: Entries, e: NodeEntry) {
    e.nodeId != "" && (e.nodeId in m ==> m[e.nodeId].status == Offline)
  }

  function AfterRegister(m: Entries, e: NodeEntry): Entries {
    if Accepts(m, e) then m[e.nodeId := e.(status := Online)] else m
  }

  function AfterSetOffline(m: Entries, id: string, now: Time): Entries {
    if id != "" && id in m then m[id := m[id].(status := Offline, lastSeenAt := now)] else m
  }

  predicate BeatCounts(m: Entries, id: string) {
    id != "" && id in m && m[id].status == Online
  }

  function AfterUpdateLastSeen(m: Entries, id: string, now: Time): Entries {
    if BeatCounts(m, id) then m[id := m[id].(lastSeenAt := now)] else m
  }

  /** The entries of `ids`, each exactly once, in some order. */
  ghost predicate Listing(m: Entries, ids: set<string>, nodes: seq<NodeEntry>) {
    && (forall i :: 0 <= i < |nodes| ==> nodes[i].nodeId in ids * m.Keys && m[nodes[i].nodeId] == nodes[i])
    && (forall i, j :: 0 <= i < j < |nodes| ==> nodes[i].nodeId != nodes[j].nodeId)
    && (forall id <- ids :: id in m && m[id] in nodes)
  }

  /** A copy of all entries, in the hash map's iteration order. */
  ghost predicate Snapshot(m: Entries, nodes: seq<NodeEntry>) {
    Listing(m, m.Keys, nodes)
  }

  lemma ListingGrows(m: Entries, ids: set<string>, nodes: seq<NodeEntry>, id: string)
    requires WellKeyed(m) && Listing(m, ids, nodes)
    requires id in m && id !in ids
    ensures Listing(m, ids + {id}, nodes + [m[id]])
  {
    var grown := nodes + [m[id]];
    assert grown[|nodes|] == m[id];
    forall x <- ids + {id} ensures m[x] in grown {
      if x != id {
        assert m[x] in nodes;
      }
    }
  }

  class Registry {
    var entries: Entries

    ghost predicate Valid()
      reads this
    {
      WellKeyed(entries)
    }

    constructor ()
      ensures Valid() && entries == map[]
    {
      entries := map[];
    }

    method RegisterNode(entry: NodeEntry) returns (r: RegisterResult)
      requires Valid()
      modifies this
      ensures Valid()
      ensures r == RegisterOk <==> Accepts(old(entries), entry)
      ensures entries == AfterRegister(old(entries), entry)
    {
      if entry.nodeId == "" {
        return ErrDuplicate;
      }
      if entry.nodeId in entries {
        if entries[entry.nodeId].status == Online {
          return ErrDuplicate;
        }
        entries := entries[entry.nodeId := entry.(status := Online)];
        return RegisterOk;
      }
      entries := entries[entry.nodeId := entry.(status := Online)];
      return RegisterOk;
    }

    method QueryNode(id: string) returns (r: Lookup)
      ensures r.Found? <==> id in entries
      ensures r.Found? ==> r.entry == entries[id]
    {
      if id !in entries {
        return NotFound;
      }
      return Found(entries[id]);
    }

    method ListNodes() returns (nodes: seq<NodeEntry>)
      requires Valid()
      ensures Snapshot(entries, nodes)
    {
      nodes := [];
      var rest := entries.Keys;
      while rest != {}
        invariant rest <= entries.Keys
        invariant Listing(entries, entries.Keys - rest, nodes)
        decreases rest
      {
        var id :| id in rest;
        ListingGrows(entries, entries.Keys - rest, nodes, id);
        nodes := nodes + [entries[id]];
        rest := rest - {id};
        assert entries.Keys - rest == entries.Keys - (rest + {id}) + {id};
      }
      assert entries.Keys - rest == entries.Keys;
    }

    method SetOffline(id: string, now: Time)
      requires Valid()
      modifies this
      ensures Valid()
      ensures entries == AfterSetOffline(old(entries), id, now)
    {
      if id == "" {
        return;
      }
      if id in entries {
        entries := entries[id := entries[id].(status := Offline, lastSeenAt := now)];
      }
    }

    method UpdateLastSeen(id: string, now: Time) returns (updated: bool)
      requires Valid()
      modifies this
      ensures Valid()
      ensures updated <==> BeatCounts(old(entries), id)
      ensures entries == AfterUpdateLastSeen(old(entries), id, now)
    {
      if id == "" {
        return false;
      }
      if id in entries && entries[id].status == Online {
        entries := entries[id := entries[id].(lastSeenAt := now)];
        return true;
      }
      return false;
    }
  }
}
