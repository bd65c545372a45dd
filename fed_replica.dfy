/**
 * FedReplicaManager as an object whose fields its operations update in place:
 * the zone list, the federation log table and last_index. Every method is
 * proved against the matching function of FedLog (what it returns and what the
 * new state is). The methods that change state keep FedLog.Inv, except the raw
 * table write InsertLogRecord; before get_last_index has read
 * last_index only the weaker FedLog.Stored holds.
 *
 * ZoneServers entries are values in the zones map; an update of a zone's
 * cursor reassigns its entry.
 */
module FedReplica {
  import opened Options
  import opened FedLog

  class FedReplicaManager {
    /** Zone id -> the zone's servers and the next log index to send to it. */
    var zones: map<int, Zone>

    /** The federation log table: index -> sql command. */
    var log: map<nat, string>

    /** Index of the last record in the log. */
    var lastIndex: nat

    /** Number of records the periodic purge keeps; the purge itself is not part of this model. */
    const logRetention: nat

    /** The fields as a FedLog state. */
    function State(): FedState
      reads this
    {
      FedState(zones, log, lastIndex)
    }

    ghost predicate Valid()
      reads this
    {
      Inv(State())
    }

    /**
     * A manager over an existing log table with no zones yet. last_index is
     * read from the table only by start_replica_threads; until then it is 0.
     */
    constructor (table: map<nat, string>, retention: nat)
      requires Contiguous(table)
      ensures Stored(State())
      ensures zones == map[] && log == table && lastIndex == 0 && logRetention == retention
    {
      zones := map[];
      log := table;
      lastIndex := 0;
      logRetention := retention;
    }

    /** get_log_record: 0 and the stored sql when index is in the log, -1 otherwise. */
    method GetLogRecord(index: int) returns (rc: int, sql: string)
      ensures rc == 0 || rc == -1
      ensures rc == 0 <==> LogRecord(State(), index).Some?
      ensures rc == 0 ==> sql == LogRecord(State(), index).value
    {
      if index >= 0 && index in log {
        rc, sql := 0, log[index];
      } else {
        rc, sql := -1, "";
      }
    }

    /** insert_log_record: stores sql at index and sets last_index to index; 0 on success, -1 on a DB error. */
    method InsertLogRecord(index: nat, sql: string, dbOk: bool) returns (rc: int)
      modifies this
      ensures Reply(State(), rc) == FedLog.InsertLogRecord(old(State()), index, sql, dbOk)
    {
      if dbOk {
        log := log[index := sql];
        lastIndex := index;
        rc := 0;
      } else {
        rc := -1;
      }
    }

    /** replicate: appends sql to the log at last_index + 1; 0 on success, -1 otherwise. */
    method Replicate(sql: string, dbOk: bool) returns (rc: int)
      requires Valid()
      modifies this
      ensures Valid()
      ensures Reply(State(), rc) == FedLog.Replicate(old(State()), sql, dbOk)
    {
      ghost var s := State();
      rc := InsertLogRecord(lastIndex + 1, sql, dbOk);
      InsertNextKeepsInv(s, sql, dbOk);
    }

    /** apply_log_record: applies and stores the record only when index is last_index + 1. */
    method ApplyLogRecord(index: int, sql: string, dbOk: bool) returns (outcome: ApplyOutcome)
      requires Valid()
      modifies this
      ensures Valid()
      ensures Reply(State(), outcome) == FedLog.ApplyLogRecord(old(State()), index, sql, dbOk)
    {
      if index != lastIndex + 1 {
        return MissingRecords(lastIndex);
      }
      if !dbOk {
        return DbError;
      }
      ghost var s := State();
      var rc := InsertLogRecord(index, sql, true);
      InsertNextKeepsInv(s, sql, true);
      outcome := Applied;
    }

    /** get_next_record: 0 with the zone's next record and servers when one is pending, -1 otherwise. */
    method GetNextRecord(zoneId: int) returns (rc: int, index: nat, sql: string, servers: map<int, string>)
      ensures rc == 0 || rc == -1
      ensures rc == 0 <==> NextRecord(State(), zoneId).Some?
      ensures rc == 0 ==> NextRecord(State(), zoneId).value == (index, sql, servers)
    {
      if zoneId !in zones {
        return -1, 0, "", map[];
      }
      var zs := zones[zoneId];
      servers := zs.servers;
      index := zs.next;
      if zs.next > lastIndex {
        return -1, index, "", servers;
      }
      rc, sql := GetLogRecord(index);
    }

    /**
     * replicate_success: the record at the zone's cursor was applied there;
     * the cursor moves on and `pending` says whether to send the next one.
     */
    method ReplicateSuccess(zoneId: int) returns (pending: bool)
      requires Valid() && Outstanding(State(), zoneId)
      modifies this
      ensures Valid()
      ensures Reply(State(), pending) == FedLog.ReplicateSuccess(old(State()), zoneId)
    {
      if zoneId !in zones {
        return false;
      }
      var zs := zones[zoneId];
      zs := zs.(next := zs.next + 1);
      zones := zones[zoneId := zs];
      pending := zs.next <= lastIndex;
      SuccessAdvancesCursor(old(State()), zoneId);
    }

    /**
     * replicate_failure: the zone could not apply the record and reported its
     * last index; the cursor is set just after it and `pending` says whether to resend.
     */
    method ReplicateFailure(zoneId: int, zoneLast: int) returns (pending: bool)
      requires Valid()
      modifies this
      ensures Valid()
      ensures Reply(State(), pending) == FedLog.ReplicateFailure(old(State()), zoneId, zoneLast)
    {
      if zoneId !in zones {
        return false;
      }
      var zs := zones[zoneId];
      if 0 <= zoneLast <= lastIndex {
        zs := zs.(next := zoneLast + 1);
      }
      zones := zones[zoneId := zs];
      pending := zs.next <= lastIndex;
      FailureResetsCursor(old(State()), zoneId, zoneLast);
    }

    /** add_zone: registers a zone not yet replicated to, with its servers and cursor last_index + 1. */
    method AddZone(zoneId: int, servers: map<int, string>)
      requires Valid()
      modifies this
      ensures Valid()
      ensures State() == FedLog.AddZone(old(State()), zoneId, servers)
    {
      if zoneId !in zones {
        zones := zones[zoneId := Zone(servers, lastIndex + 1)];
      }
    }

    /** delete_zone: removes the zone from the replication list. */
    method DeleteZone(zoneId: int)
      requires Valid()
      modifies this
      ensures Valid()
      ensures State() == FedLog.DeleteZone(old(State()), zoneId)
    {
      zones := zones - {zoneId};
    }

    /** update_zones: the zone list becomes the given membership; zids lists its zone ids. */
    method UpdateZones(membership: map<int, map<int, string>>) returns (zids: set<int>)
      requires Stored(State())
      modifies this
      ensures Stored(State())
      ensures old(Valid()) ==> Valid()
      ensures Reply(State(), zids) == FedLog.UpdateZones(old(State()), membership)
    {
      ghost var s := State();
      zones := map z | z in membership :: Zone(membership[z], if z in zones then zones[z].next else lastIndex + 1);
      zids := membership.Keys;
      UpdateZonesMatches(s, membership);
    }

    /**
     * get_last_index for initialization: last_index is read from the log
     * table, after which the manager, master or slave, satisfies the
     * invariant and can replicate or apply records.
     */
    method GetLastIndex()
      requires Stored(State())
      modifies this
      ensures Valid()
      ensures lastIndex == LastLoggedIndex(old(log))
      ensures zones == old(zones) && log == old(log)
    {
      ghost var s := State();
      lastIndex := LastLoggedIndex(log);
      ReadLastIndexRestores(s);
    }

    /**
     * start_replica_threads: refreshes the zones, then reads last_index back
     * from the log table; zids are the zones to start threads for.
     */
    method StartReplicaThreads(membership: map<int, map<int, string>>) returns (zids: set<int>)
      requires Stored(State())
      modifies this
      ensures Valid()
      ensures lastIndex == LastLoggedIndex(old(log))
      ensures zones.Keys == membership.Keys
      ensures forall z :: z in membership && z !in old(zones) ==> zones[z].next == old(lastIndex) + 1
      ensures Reply(State(), zids) == FedLog.StartReplicaThreads(old(State()), membership)
    {
      ghost var s := State();
      zids := UpdateZones(membership);
      GetLastIndex();
      StartReplicaThreadsLoads(s, membership);
    }
  }
}
