/**
 * The federation replication log of FedReplicaManager as a state machine on values:
 * the zone registry (zone id -> ZoneServers), the log table (index -> sql) and
 * last_index, with one function per operation that reads or changes them.
 * The class FedReplica.FedReplicaManager is proved against these functions; the
 * lemmas here state what each operation promises and what it preserves.
 *
 * Outcomes of database writes are inputs (`dbOk`); the shared mutex becomes a
 * single sequential owner of the state.
 */
module FedLog {
  import opened Options

  /** ZoneServers: the servers of one zone (server id -> XML-RPC endpoint) and the next log index to send to it. */
  datatype Zone = Zone(servers: map<int, string>, next: nat)

  /** The state the manager's mutex protects: the zones, the log table and last_index. */
  datatype FedState = FedState(zones: map<int, Zone>, log: map<nat, string>, lastIndex: nat)

  /** The state after an operation, together with what the operation returns to its caller. */
  datatype Reply<R> = Reply(state: FedState, value: R)

  /** How apply_log_record ends: the record was applied, records are missing (carrying the zone's last index), or a DB error. */
  datatype ApplyOutcome = Applied | MissingRecords(last: nat) | DbError

  /** A freshly bootstrapped manager: no zones, an empty log, last_index 0. */
  const Empty := FedState(map[], map[], 0)

  /** The log holds exactly the records 1..last_index, and every zone's cursor lies in 1..last_index + 1. */
  ghost predicate Inv(s: FedState)
  {
    && (forall i :: i in s.log <==> 1 <= i <= s.lastIndex)
    && (forall z :: z in s.zones ==> 1 <= s.zones[z].next <= s.lastIndex + 1)
  }

  /** The log table holds the records 1..n for some n, with no gap: what replicate and apply_log_record write. */
  ghost predicate Contiguous(log: map<nat, string>)
  {
    forall i :: i in log <==> 1 <= i <= LastLoggedIndex(log)
  }

  /**
   * A manager whose last_index has not yet been read from its log table: the
   * table has no gap, last_index is at most its last record, and every cursor
   * lies in 1..last_index + 1. start_replica_threads reads last_index back.
   */
  ghost predicate Stored(s: FedState)
  {
    && Contiguous(s.log)
    && s.lastIndex <= LastLoggedIndex(s.log)
    && (forall z :: z in s.zones ==> 1 <= s.zones[z].next <= s.lastIndex + 1)
  }

  // ---------------------------------------------------------------------------
  // Log table
  // ---------------------------------------------------------------------------

  /** get_log_record: the sql stored at index, if any. */
  function LogRecord(s: FedState, index: int): (r: Option<string>)
    ensures r.Some? <==> index >= 0 && index in s.log
    ensures r.Some? ==> r.value == s.log[index]
  {
    if index >= 0 && index in s.log then Some(s.log[index]) else None
  }

  /** m is the greatest element of keys. */
  predicate IsMaxOf(m: nat, keys: set<nat>)
  {
    m in keys && forall i :: i in keys ==> i <= m
  }

  /** Every non-empty finite set of indices has a greatest element. */
  lemma {:induction false} MaxExists(keys: set<nat>)
    requires keys != {}
    ensures exists m :: IsMaxOf(m, keys)
  {
    var x :| x in keys;
    if keys == {x} {
      assert IsMaxOf(x, keys);
    } else {
      var rest := keys - {x};
      MaxExists(rest);
      var m :| IsMaxOf(m, rest);
      var big := if x <= m then m else x;
      forall i | i in keys
        ensures i <= big
      {
        if i != x {
          assert i in rest;
        }
      }
      assert IsMaxOf(big, keys);
    }
  }

  /** get_last_index: the greatest index stored in the log table, 0 when it is empty. */
  function LastLoggedIndex(log: map<nat, string>): (r: nat)
    ensures log == map[] ==> r == 0
    ensures log != map[] ==> r in log && forall i :: i in log ==> i <= r
  {
    if log.Keys == {} then 0
    else
      MaxExists(log.Keys);
      var m: nat :| IsMaxOf(m, log.Keys);
      m
  }

  /** Under the invariant, reading the last index back from the log gives last_index, and the state is one start_replica_threads accepts. */
  lemma LastLoggedIndexRecovers(s: FedState)
    requires Inv(s)
    ensures LastLoggedIndex(s.log) == s.lastIndex
    ensures Stored(s)
  {
    if s.lastIndex > 0 {
      assert s.lastIndex in s.log;
    } else {
      assert s.log.Keys == {};
    }
  }

  /** insert_log_record: stores sql at index and moves last_index to index; 0 on success, -1 when the DB write fails. */
  function InsertLogRecord(s: FedState, index: nat, sql: string, dbOk: bool): (r: Reply<int>)
    ensures r.value == 0 <==> dbOk
    ensures dbOk ==> r.state.log == s.log[index := sql] && r.state.lastIndex == index && r.state.zones == s.zones
    ensures !dbOk ==> r.value == -1 && r.state == s
  {
    if dbOk then Reply(s.(log := s.log[index := sql], lastIndex := index), 0)
    else Reply(s, -1)
  }

  /** Inserting at last_index + 1 keeps the invariant. */
  lemma InsertNextKeepsInv(s: FedState, sql: string, dbOk: bool)
    requires Inv(s)
    ensures Inv(InsertLogRecord(s, s.lastIndex + 1, sql, dbOk).state)
  {
  }

  // ---------------------------------------------------------------------------
  // Master side: replicate
  // ---------------------------------------------------------------------------

  /** replicate: a new record at last_index + 1; 0 on success, -1 otherwise. */
  function Replicate(s: FedState, sql: string, dbOk: bool): Reply<int>
  {
    InsertLogRecord(s, s.lastIndex + 1, sql, dbOk)
  }

  /** replicate creates exactly one new record, at the index after last_index, or changes nothing and returns -1. */
  lemma ReplicateAppendsOne(s: FedState, sql: string, dbOk: bool)
    requires Inv(s)
    ensures var r := Replicate(s, sql, dbOk);
      && Inv(r.state)
      && (r.value == 0 <==> dbOk)
      && (r.value == 0 ==>
            && s.lastIndex + 1 !in s.log
            && r.state.lastIndex == s.lastIndex + 1
            && r.state.log == s.log[s.lastIndex + 1 := sql]
            && |r.state.log| == |s.log| + 1
            && r.state.zones == s.zones)
      && (r.value != 0 ==> r.value == -1 && r.state == s)
  {
    InsertNextKeepsInv(s, sql, dbOk);
    if dbOk {
      assert s.lastIndex + 1 !in s.log;
    }
  }

  /** A sequence of successful replicate calls, one per command, in order. */
  function ReplicateAll(s: FedState, cmds: seq<string>): FedState
    decreases |cmds|
  {
    if cmds == [] then s else ReplicateAll(Replicate(s, cmds[0], true).state, cmds[1..])
  }

  /** Successive replicate calls keep the invariant, advance last_index by one per command and keep older records and the zones. */
  lemma {:induction false} ReplicateAllKeeps(s: FedState, cmds: seq<string>)
    requires Inv(s)
    decreases |cmds|
    ensures var t := ReplicateAll(s, cmds);
      && Inv(t)
      && t.lastIndex == s.lastIndex + |cmds|
      && t.zones == s.zones
      && (forall i :: i in s.log ==> t.log[i] == s.log[i])
  {
    if cmds != [] {
      var s1 := Replicate(s, cmds[0], true).state;
      InsertNextKeepsInv(s, cmds[0], true);
      ReplicateAllKeeps(s1, cmds[1..]);
      forall i | i in s.log
        ensures ReplicateAll(s1, cmds[1..]).log[i] == s.log[i]
      {
        assert i in s1.log;
      }
    }
  }

  /** Successive replicate calls number their records consecutively after last_index: the k-th command is stored at last_index + 1 + k. */
  lemma {:induction false} ReplicateAllAt(s: FedState, cmds: seq<string>, k: nat)
    requires Inv(s) && k < |cmds|
    decreases |cmds|
    ensures s.lastIndex + 1 + k in ReplicateAll(s, cmds).log
    ensures ReplicateAll(s, cmds).log[s.lastIndex + 1 + k] == cmds[k]
  {
    var s1 := Replicate(s, cmds[0], true).state;
    InsertNextKeepsInv(s, cmds[0], true);
    if k == 0 {
      ReplicateAllKeeps(s1, cmds[1..]);
      assert s.lastIndex + 1 in s1.log;
    } else {
      ReplicateAllAt(s1, cmds[1..], k - 1);
      assert cmds[1..][k - 1] == cmds[k];
    }
  }

  /** From an empty log, the k-th replicated command is stored at index k and last_index counts the commands. */
  lemma ReplicateFromEmpty(s: FedState, cmds: seq<string>)
    requires Inv(s) && s.lastIndex == 0
    ensures ReplicateAll(s, cmds).lastIndex == |cmds|
    ensures forall i :: i in ReplicateAll(s, cmds).log <==> 1 <= i <= |cmds|
    ensures forall k :: 1 <= k <= |cmds| ==> ReplicateAll(s, cmds).log[k] == cmds[k - 1]
  {
    ReplicateAllKeeps(s, cmds);
    forall k | 1 <= k <= |cmds|
      ensures ReplicateAll(s, cmds).log[k] == cmds[k - 1]
    {
      ReplicateAllAt(s, cmds, k - 1);
    }
  }

  // ---------------------------------------------------------------------------
  // Zone side: apply_log_record
  // ---------------------------------------------------------------------------

  /**
   * apply_log_record: a record is applied only when its index is the next one
   * expected (last_index + 1); any other index, a gap or a record already
   * applied, leaves everything as it is and reports last_index. `dbOk` is the
   * outcome of executing the command and storing the record.
   */
  function ApplyLogRecord(s: FedState, index: int, sql: string, dbOk: bool): Reply<ApplyOutcome>
  {
    if index != s.lastIndex + 1 then Reply(s, MissingRecords(s.lastIndex))
    else if !dbOk then Reply(s, DbError)
    else Reply(InsertLogRecord(s, s.lastIndex + 1, sql, true).state, Applied)
  }

  /** The three ways apply_log_record ends, and that the tagged outcome tells whether the record was stored. */
  lemma ApplyOutcomes(s: FedState, index: int, sql: string, dbOk: bool)
    requires Inv(s)
    ensures var r := ApplyLogRecord(s, index, sql, dbOk);
      && Inv(r.state)
      && (r.value == Applied <==> index == s.lastIndex + 1 && dbOk)
      && (r.value == Applied <==> r.state.lastIndex == s.lastIndex + 1)
      && (r.value == Applied ==>
            && r.state.lastIndex == index
            && r.state.log == s.log[index := sql]
            && r.state.zones == s.zones)
      && (r.value.MissingRecords? <==> index != s.lastIndex + 1)
      && (r.value.MissingRecords? ==> r.value.last == s.lastIndex && r.state == s)
      && (r.value == DbError ==> r.state == s)
  {
  }

  /** A gap (index last_index + 2) is detected: nothing is applied and the prior last_index is reported. */
  lemma ApplyDetectsGap(s: FedState, sql: string, dbOk: bool)
    ensures ApplyLogRecord(s, s.lastIndex + 2, sql, dbOk) == Reply(s, MissingRecords(s.lastIndex))
  {
  }

  /** Delivering the same record twice has the effect of delivering it once; the retransmission reports the record's index. */
  lemma ApplyTwiceIsApplyOnce(s: FedState, index: int, sql: string, dbOk: bool)
    requires Inv(s)
    ensures var r1 := ApplyLogRecord(s, index, sql, dbOk);
      var r2 := ApplyLogRecord(r1.state, index, sql, dbOk);
      && r2.state == r1.state
      && (r1.value == Applied ==> r2.value == MissingRecords(index))
  {
  }

  /** The int apply_log_record returns: 0 on success, last_index when records are missing, -1 on DB error. */
  function ReturnCode(o: ApplyOutcome): (rc: int)
    ensures rc >= -1
    ensures rc == -1 <==> o == DbError
    ensures o == Applied ==> rc == 0
    ensures o.MissingRecords? ==> rc == o.last
  {
    match o
    case Applied => 0
    case MissingRecords(last) => last
    case DbError => -1
  }

  /**
   * As written, the int return code cannot tell success from a gap on a zone
   * whose log is empty: record 2 sent to an empty zone is not applied, yet the
   * code is 0, the success value.
   */
  lemma ReturnCodeAmbiguous()
    ensures var r := ApplyLogRecord(Empty, 2, "", true);
      && r.state == Empty
      && r.value != Applied
      && ReturnCode(r.value) == ReturnCode(Applied)
  {
  }

  /** Once a zone holds at least one record, the int code 0 does mean the record was applied. */
  lemma ReturnCodeExactOnceStarted(s: FedState, index: int, sql: string, dbOk: bool)
    requires s.lastIndex > 0
    ensures var r := ApplyLogRecord(s, index, sql, dbOk);
      ReturnCode(r.value) == 0 <==> r.value == Applied
  {
  }

  // ---------------------------------------------------------------------------
  // Master side: zone cursors
  // ---------------------------------------------------------------------------

  /** get_next_record: the index and sql of the zone's next record and the zone's servers, when the zone exists and has one pending. */
  function NextRecord(s: FedState, zoneId: int): Option<(nat, string, map<int, string>)>
  {
    if zoneId in s.zones && s.zones[zoneId].next <= s.lastIndex && s.zones[zoneId].next in s.log then
      Some((s.zones[zoneId].next, s.log[s.zones[zoneId].next], s.zones[zoneId].servers))
    else None
  }

  /** Under the invariant, a zone has a next record exactly when it exists and its cursor is at most last_index. */
  lemma NextRecordPending(s: FedState, zoneId: int)
    requires Inv(s)
    ensures NextRecord(s, zoneId).Some? <==> zoneId in s.zones && s.zones[zoneId].next <= s.lastIndex
    ensures NextRecord(s, zoneId).Some? ==>
      NextRecord(s, zoneId).value == (s.zones[zoneId].next, s.log[s.zones[zoneId].next], s.zones[zoneId].servers)
  {
  }

  /**
   * replicate_success: the zone's cursor moves one record forward; the reply
   * says whether more records are pending for it (so they are sent at once).
   * An unknown zone is ignored.
   */
  function ReplicateSuccess(s: FedState, zoneId: int): Reply<bool>
  {
    if zoneId !in s.zones then Reply(s, false)
    else
      var z := s.zones[zoneId];
      Reply(s.(zones := s.zones[zoneId := z.(next := z.next + 1)]), z.next + 1 <= s.lastIndex)
  }

  /** The zone's record at its cursor was handed out and is outstanding. */
  ghost predicate Outstanding(s: FedState, zoneId: int)
  {
    zoneId in s.zones ==> s.zones[zoneId].next <= s.lastIndex
  }

  /** replicate_success advances that zone's cursor by exactly one and changes no other zone, server list or record. */
  lemma SuccessAdvancesCursor(s: FedState, zoneId: int)
    requires Inv(s) && Outstanding(s, zoneId)
    ensures var r := ReplicateSuccess(s, zoneId);
      && Inv(r.state)
      && r.state.log == s.log && r.state.lastIndex == s.lastIndex
      && r.state.zones.Keys == s.zones.Keys
      && (forall z :: z in s.zones && z != zoneId ==> r.state.zones[z] == s.zones[z])
      && (zoneId in s.zones ==>
            && r.state.zones[zoneId].next == s.zones[zoneId].next + 1
            && r.state.zones[zoneId].servers == s.zones[zoneId].servers)
      && (r.value <==> NextRecord(r.state, zoneId).Some?)
      && (zoneId !in s.zones ==> r.state == s)
  {
  }

  /** k successive deliveries to a zone. */
  function Successes(s: FedState, zoneId: int, k: nat): FedState
    decreases k
  {
    if k == 0 then s else Successes(ReplicateSuccess(s, zoneId).state, zoneId, k - 1)
  }

  /** A run of successful deliveries moves the cursor by one each, never past last_index + 1. */
  lemma {:induction false} SuccessesAdvance(s: FedState, zoneId: int, k: nat)
    requires Inv(s) && zoneId in s.zones
    requires s.zones[zoneId].next + k <= s.lastIndex + 1
    decreases k
    ensures var t := Successes(s, zoneId, k);
      && Inv(t)
      && zoneId in t.zones
      && t.zones[zoneId].next == s.zones[zoneId].next + k
      && t.log == s.log && t.lastIndex == s.lastIndex
      && t.zones.Keys == s.zones.Keys
      && (forall z :: z in s.zones && z != zoneId ==> t.zones[z] == s.zones[z])
  {
    if k > 0 {
      SuccessAdvancesCursor(s, zoneId);
      var s1 := ReplicateSuccess(s, zoneId).state;
      SuccessesAdvance(s1, zoneId, k - 1);
    }
  }

  /**
   * replicate_failure: the zone could not apply the record and reported its
   * last index; when that index is one the log holds (0..last_index) the
   * zone's cursor is set just after it, lowered when the zone is behind and
   * raised when an acknowledgement was lost. The reply says whether records
   * are pending. An unknown zone is ignored.
   */
  function ReplicateFailure(s: FedState, zoneId: int, zoneLast: int): Reply<bool>
  {
    if zoneId !in s.zones then Reply(s, false)
    else
      var z := s.zones[zoneId];
      var next := if 0 <= zoneLast <= s.lastIndex then zoneLast + 1 else z.next;
      Reply(s.(zones := s.zones[zoneId := z.(next := next)]), next <= s.lastIndex)
  }

  /** replicate_failure moves that zone's cursor to just after its reported position and changes nothing else. */
  lemma FailureResetsCursor(s: FedState, zoneId: int, zoneLast: int)
    requires Inv(s)
    ensures var r := ReplicateFailure(s, zoneId, zoneLast);
      && Inv(r.state)
      && r.state.log == s.log && r.state.lastIndex == s.lastIndex
      && r.state.zones.Keys == s.zones.Keys
      && (forall z :: z in s.zones && z != zoneId ==> r.state.zones[z] == s.zones[z])
      && (zoneId in s.zones ==>
            && r.state.zones[zoneId].servers == s.zones[zoneId].servers
            && (0 <= zoneLast <= s.lastIndex ==> r.state.zones[zoneId].next == zoneLast + 1)
            && (zoneLast < 0 || zoneLast > s.lastIndex ==> r.state.zones[zoneId].next == s.zones[zoneId].next))
      && (r.value <==> NextRecord(r.state, zoneId).Some?)
      && (zoneId !in s.zones ==> r.state == s)
  {
  }

  /**
   * Master and zone agree again after one refused delivery: when the zone
   * refuses the record at its cursor and the master is told the zone's last
   * index, the master's next record for the zone is the one the zone expects,
   * whether the zone was behind or an acknowledgement was lost.
   */
  lemma FailureResyncs(master: FedState, zoneId: int, zone: FedState, dbOk: bool)
    requires Inv(master) && Inv(zone)
    requires zoneId in master.zones && zone.lastIndex <= master.lastIndex
    requires master.zones[zoneId].next <= master.lastIndex
    ensures var k := master.zones[zoneId].next;
      var a := ApplyLogRecord(zone, k, master.log[k], dbOk);
      var f := ReplicateFailure(master, zoneId, ReturnCode(a.value));
      a.value.MissingRecords? ==>
        && a.state == zone
        && f.state.zones[zoneId].next == zone.lastIndex + 1
        && (f.value <==> zone.lastIndex < master.lastIndex)
        && (f.value ==> NextRecord(f.state, zoneId).value.0 == zone.lastIndex + 1)
  {
    var k := master.zones[zoneId].next;
    var a := ApplyLogRecord(zone, k, master.log[k], dbOk);
    if a.value.MissingRecords? {
      FailureResetsCursor(master, zoneId, ReturnCode(a.value));
    }
  }

  // ---------------------------------------------------------------------------
  // Zone registry
  // ---------------------------------------------------------------------------

  /** add_zone: a zone not yet replicated to is registered with its servers and a cursor at last_index + 1. */
  function AddZone(s: FedState, zoneId: int, servers: map<int, string>): FedState
  {
    if zoneId in s.zones then s
    else s.(zones := s.zones[zoneId := Zone(servers, s.lastIndex + 1)])
  }

  /** add_zone inserts exactly the new zone, with the given servers, and leaves every other zone and the log alone. */
  lemma AddZoneInserts(s: FedState, zoneId: int, servers: map<int, string>)
    requires Inv(s)
    ensures var t := AddZone(s, zoneId, servers);
      && Inv(t)
      && t.log == s.log && t.lastIndex == s.lastIndex
      && t.zones.Keys == s.zones.Keys + {zoneId}
      && (forall z :: z in s.zones ==> t.zones[z] == s.zones[z])
      && (zoneId !in s.zones ==> t.zones[zoneId] == Zone(servers, s.lastIndex + 1))
  {
  }

  /** delete_zone: the zone is removed from the replication list. */
  function DeleteZone(s: FedState, zoneId: int): FedState
  {
    s.(zones := s.zones - {zoneId})
  }

  /** delete_zone removes exactly that zone and leaves every other zone and the log alone. */
  lemma DeleteZoneRemoves(s: FedState, zoneId: int)
    requires Inv(s)
    ensures var t := DeleteZone(s, zoneId);
      && Inv(t)
      && t.log == s.log && t.lastIndex == s.lastIndex
      && t.zones.Keys == s.zones.Keys - {zoneId}
      && (forall z :: z in t.zones ==> t.zones[z] == s.zones[z])
  {
  }

  /** Deleting a zone that was just added restores the registry. */
  lemma DeleteUndoesAdd(s: FedState, zoneId: int, servers: map<int, string>)
    requires zoneId !in s.zones
    ensures DeleteZone(AddZone(s, zoneId, servers), zoneId) == s
  {
    assert (s.zones[zoneId := Zone(servers, s.lastIndex + 1)] - {zoneId}) == s.zones;
  }

  /**
   * update_zones: the zone list becomes the membership (zone id -> servers);
   * zones already known keep their cursor with refreshed servers, new zones
   * start at last_index + 1, zones no longer present are dropped. The reply is
   * the set of zone ids.
   */
  function UpdateZones(s: FedState, membership: map<int, map<int, string>>): Reply<set<int>>
  {
    var zones := map z | z in membership :: Zone(membership[z], if z in s.zones then s.zones[z].next else s.lastIndex + 1);
    Reply(s.(zones := zones), membership.Keys)
  }

  /** update_zones makes the registry match the membership and keeps the invariant, or the weaker one before last_index is read. */
  lemma UpdateZonesMatches(s: FedState, membership: map<int, map<int, string>>)
    requires Stored(s)
    ensures var r := UpdateZones(s, membership);
      && Stored(r.state)
      && (Inv(s) ==> Inv(r.state))
      && r.value == membership.Keys
      && r.state.zones.Keys == membership.Keys
      && r.state.log == s.log && r.state.lastIndex == s.lastIndex
      && (forall z :: z in membership ==> r.state.zones[z].servers == membership[z])
      && (forall z :: z in membership && z in s.zones ==> r.state.zones[z].next == s.zones[z].next)
      && (forall z :: z in membership && z !in s.zones ==> r.state.zones[z].next == s.lastIndex + 1)
  {
  }

  /** Refreshing twice with the same membership is the same as refreshing once. */
  lemma UpdateZonesIdempotent(s: FedState, membership: map<int, map<int, string>>)
    ensures var u := UpdateZones(s, membership).state;
      UpdateZones(u, membership) == UpdateZones(s, membership)
  {
    var u := UpdateZones(s, membership).state;
    assert UpdateZones(u, membership).state.zones == u.zones;
  }

  /** get_last_index used for initialization: last_index is read back from the log table. */
  function ReadLastIndex(s: FedState): FedState
  {
    s.(lastIndex := LastLoggedIndex(s.log))
  }

  /**
   * Reading last_index from a gap-free table establishes the invariant, so a
   * manager restarted over an existing log, master or slave, can go on from
   * the table's last record. Nothing but last_index changes.
   */
  lemma ReadLastIndexRestores(s: FedState)
    requires Stored(s)
    ensures var t := ReadLastIndex(s);
      && Inv(t)
      && t.lastIndex == LastLoggedIndex(s.log)
      && t.lastIndex >= s.lastIndex
      && t.zones == s.zones && t.log == s.log
  {
  }

  /** start_replica_threads: refresh the zones first, then reload last_index from the log; the reply lists the zones to start threads for. */
  function StartReplicaThreads(s: FedState, membership: map<int, map<int, string>>): Reply<set<int>>
  {
    var u := UpdateZones(s, membership);
    Reply(ReadLastIndex(u.state), u.value)
  }

  /**
   * Starting from a table not yet read: last_index becomes the table's last
   * record, the zones match the membership, and a zone new to the registry
   * gets the cursor last_index + 1 as it was before the reload, since
   * update_zones runs first.
   */
  lemma StartReplicaThreadsLoads(s: FedState, membership: map<int, map<int, string>>)
    requires Stored(s)
    ensures var r := StartReplicaThreads(s, membership);
      && Inv(r.state)
      && r.value == membership.Keys
      && r.state.log == s.log
      && r.state.lastIndex == LastLoggedIndex(s.log)
      && r.state.zones.Keys == membership.Keys
      && (forall z :: z in membership ==> r.state.zones[z].servers == membership[z])
      && (forall z :: z in membership && z in s.zones ==> r.state.zones[z].next == s.zones[z].next)
      && (forall z :: z in membership && z !in s.zones ==> r.state.zones[z].next == s.lastIndex + 1)
  {
    UpdateZonesMatches(s, membership);
    ReadLastIndexRestores(UpdateZones(s, membership).state);
  }

  /** Restarting a manager whose last_index is already current changes last_index not at all. */
  lemma StartReplicaThreadsRecovers(s: FedState, membership: map<int, map<int, string>>)
    requires Inv(s)
    ensures var r := StartReplicaThreads(s, membership);
      && Inv(r.state)
      && r.value == membership.Keys
      && r.state.zones == UpdateZones(s, membership).state.zones
      && r.state.log == s.log
      && r.state.lastIndex == s.lastIndex
  {
    LastLoggedIndexRecovers(s);
    UpdateZonesMatches(s, membership);
    LastLoggedIndexRecovers(UpdateZones(s, membership).state);
  }

  // ---------------------------------------------------------------------------
  // Delivery scenarios
  // ---------------------------------------------------------------------------

  /** A zone registered on an empty log receives records 1 and 2 in order and is then caught up. */
  lemma CatchUpScenario(zoneId: int)
    ensures
      var s0 := AddZone(Empty, zoneId, map[]);
      var s1 := Replicate(s0, "A", true).state;
      var s2 := Replicate(s1, "B", true).state;
      var d1 := ReplicateSuccess(s2, zoneId);
      var d2 := ReplicateSuccess(d1.state, zoneId);
      && NextRecord(s2, zoneId) == Some((1, "A", map[]))
      && d1.value && NextRecord(d1.state, zoneId) == Some((2, "B", map[]))
      && !d2.value && d2.state.zones[zoneId].next == 3
      && NextRecord(d2.state, zoneId) == None
  {
  }

  /** With records 1..5 and a zone at cursor 3, a failure reporting last index 1 makes the next delivery resend record 2. */
  lemma ResyncScenario(zoneId: int, cmds: seq<string>)
    requires |cmds| == 5
    ensures
      var s0 := ReplicateAll(AddZone(Empty, zoneId, map[]), cmds);
      var s1 := Successes(s0, zoneId, 2);
      var r := ReplicateFailure(s1, zoneId, 1);
      && zoneId in s1.zones && s1.zones[zoneId].next == 3
      && r.value
      && r.state.zones[zoneId].next == 2
      && NextRecord(r.state, zoneId) == Some((2, cmds[1], map[]))
  {
    var a := AddZone(Empty, zoneId, map[]);
    AddZoneInserts(Empty, zoneId, map[]);
    ReplicateAllKeeps(a, cmds);
    ReplicateAllAt(a, cmds, 1);
    var s0 := ReplicateAll(a, cmds);
    SuccessesAdvance(s0, zoneId, 2);
    var s1 := Successes(s0, zoneId, 2);
    FailureResetsCursor(s1, zoneId, 1);
    assert s1.log[2] == cmds[1] by {
      assert 2 == a.lastIndex + 1 + 1;
    }
  }

  /**
   * A manager restarted over a table of two records reads last_index 2, but a
   * zone it has not seen yet gets the cursor 1 from before the reload. The
   * zone, already holding both records, refuses record 1 and reports 2; the
   * failure moves the cursor to 3 and nothing is resent.
   */
  lemma RestartScenario(zoneId: int)
    ensures
      var table := map[1 := "A", 2 := "B"];
      var r := StartReplicaThreads(FedState(map[], table, 0), map[zoneId := map[]]);
      var zone := FedState(map[], table, 2);
      var a := ApplyLogRecord(zone, 1, "A", true);
      var f := ReplicateFailure(r.state, zoneId, ReturnCode(a.value));
      && r.state.lastIndex == 2
      && r.state.zones[zoneId].next == 1
      && NextRecord(r.state, zoneId) == Some((1, "A", map[]))
      && a == Reply(zone, MissingRecords(2))
      && f.state.zones[zoneId].next == 3
      && !f.value
  {
    var table := map[1 := "A", 2 := "B"];
    var n := LastLoggedIndex(table);
    assert 2 in table;
    assert n == 2;
  }

  /**
   * A slave restarted over records 1 and 2 reads last_index 2; it then
   * refuses a resent record 1, reporting 2, and applies record 3.
   */
  lemma SlaveRestartScenario()
    ensures
      var table := map[1 := "A", 2 := "B"];
      var t := ReadLastIndex(FedState(map[], table, 0));
      var a := ApplyLogRecord(t, 3, "C", true);
      && t.lastIndex == 2
      && ApplyLogRecord(t, 1, "A", true) == Reply(t, MissingRecords(2))
      && a.value == Applied
      && a.state.log == table[3 := "C"]
      && a.state.lastIndex == 3
  {
    var table := map[1 := "A", 2 := "B"];
    assert 2 in table;
    assert LastLoggedIndex(table) == 2;
  }
}
