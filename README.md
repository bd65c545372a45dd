# OpenNebula federation log replication and template rendering in Dafny

This project models two parts of OpenNebula and proves properties of them.

**The federation replica manager** (`include/FedReplicaManager.h`). In a
federation the master zone records every shared database change as a
numbered record in a federation log and replicates the records, in order, to
every slave zone. The manager keeps three things under its mutex:

- `last_index`, the index of the last record;
- the log table, mapping an index to an SQL command;
- one `ZoneServers` entry per zone: the zone's servers and `next`, the index of
  the next record to send to that zone.

The master appends records with `replicate`. It walks each zone's cursor with
`get_next_record`, `replicate_success` and `replicate_failure`. A slave accepts
a record with `apply_log_record` only when its index is `last_index + 1`.

- Module `FedLog` holds the state as a value (`FedState`), with one function per
  operation and lemmas about each. Its invariant `Inv` says two things. The log
  holds exactly the records `1..last_index`. Every zone cursor lies in
  `1..last_index + 1`.
- Module `FedReplica` holds class `FedReplicaManager`. Its fields `zones`, `log`
  and `lastIndex` are updated in place. Each method is proved equal to the
  matching `FedLog` function. Every method except `InsertLogRecord` also keeps
  `Inv`. `InsertLogRecord` is the raw table write at any index. Only its
  callers, which write at `last_index + 1`, keep `Inv`.
- The constructor takes the existing log table. `last_index` stays 0 until
  `get_last_index` reads it from the table (`GetLastIndex`). Until then the
  weaker predicate `Stored` holds: the table has no gap and `last_index` is at
  most its last record. After the read the invariant holds, so a restarted
  slave can go on applying records (`FedLog.SlaveRestartScenario`). On the
  master, `start_replica_threads` refreshes the zones first and then reads
  `last_index`. A zone new to the registry therefore gets the cursor from
  before the read. The first delivery to such a zone may be refused. The
  failure reply then moves the cursor to the zone's position
  (`FedLog.RestartScenario`).

**Template rendering** (`JSONUtils#template_to_str` in
`src/sunstone/models/OpenNebulaJSON/JSONUtils.rb`). This turns an attribute
hash into OpenNebula template text:

- a scalar becomes `KEY="value"`;
- a hash becomes a `KEY=[ ... ]` block;
- an array repeats its key once per element;
- a nil or empty value is dropped.

Module `Template` models the collect / compact / join as functions. The
per-attribute buffer that the array loop appends to is the method
`StrLine`, proved equal to the function `Line`. Module `TemplateParse` is a
reference reader for the scalar fragment. It is proved to invert
`template_to_str`.

Database writes and executions are not modelled. Their outcome is a boolean
input `dbOk`. On failure nothing changes.

`replicate` is documented to return `0 on success -1 otherwise`
(`FedReplicaManager.h:49`), and the model returns that code.

The header describes `replicate_failure` as "decrease next index"
(`FedReplicaManager.h:70`). The model sets the zone's cursor to the zone's
reported last index + 1 whenever 0 <= the reported index <= `last_index`. This lowers the
cursor when the zone is behind. It raises the cursor when the zone applied a
record whose acknowledgement was lost. A cursor that could only be lowered
would resend that record forever, because the zone refuses it each time.

## Model

| member | source | states |
|---|---|---|
| FedLog.LogRecord | include/FedReplicaManager.h:233-239 | a record is found exactly when the index is non-negative and present in the log table, and it is the stored sql |
| FedReplica.FedReplicaManager.GetLogRecord | include/FedReplicaManager.h:233-239 | returns 0 and the stored sql when the record exists and -1 otherwise; state unchanged |
| FedLog.MaxExists | include/FedReplicaManager.h:250-255 | a non-empty set of log indices has a greatest element (what get_last_index reads) |
| FedLog.LastLoggedIndex | include/FedReplicaManager.h:250-255 | the last index read from the table is 0 for an empty log and otherwise a stored index no smaller than any other |
| FedLog.LastLoggedIndexRecovers | include/FedReplicaManager.h:250-255 | under the invariant, reading the last index from the table gives back last_index, and the state also satisfies the weaker predicate start_replica_threads needs |
| FedLog.InsertLogRecord | include/FedReplicaManager.h:241-248 | on success the record is stored at index and last_index becomes index, returning 0; on a DB error -1 and nothing changes |
| FedReplica.FedReplicaManager.InsertLogRecord | include/FedReplicaManager.h:241-248 | the new fields and return code are those of FedLog.InsertLogRecord |
| FedLog.InsertNextKeepsInv | include/FedReplicaManager.h:241-248 | inserting at last_index + 1 keeps the log equal to records 1..last_index and every cursor in range |
| FedLog.ReplicateAppendsOne | include/FedReplicaManager.h:45-51 | replicate returns 0 exactly when the write succeeds; then it adds one record, at last_index + 1 which was free, and the log grows by one; otherwise it returns -1 with no change |
| FedReplica.FedReplicaManager.Replicate | include/FedReplicaManager.h:45-51 | the new state and return code are FedLog.Replicate of the old state, and the invariant is kept |
| FedLog.ReplicateAllKeeps | include/FedReplicaManager.h:45-51 | n successive replicate calls advance last_index by n and keep the invariant, the zones and every older record |
| FedLog.ReplicateAllAt | include/FedReplicaManager.h:45-51 | the k-th of successive replicate calls stores its command at last_index + 1 + k |
| FedLog.ReplicateFromEmpty | include/FedReplicaManager.h:45-51 | from an empty log the records are exactly 1..n and record k holds the k-th command |
| FedLog.ApplyOutcomes | include/FedReplicaManager.h:53-60 | a record is applied exactly when its index is last_index + 1 and the DB accepts it, which is exactly when last_index advances; otherwise missing records report last_index, or a DB error leaves the state unchanged |
| FedReplica.FedReplicaManager.ApplyLogRecord | include/FedReplicaManager.h:53-60 | the new state and outcome are FedLog.ApplyLogRecord of the old state, and the invariant is kept |
| FedLog.ApplyDetectsGap | include/FedReplicaManager.h:53-60 | a record two past last_index is refused, reporting last_index, and nothing changes |
| FedLog.ApplyTwiceIsApplyOnce | include/FedReplicaManager.h:53-60 | a retransmitted record changes nothing, and the retransmission reports the record's own index as last index |
| FedLog.ReturnCode | include/FedReplicaManager.h:58 | the int code is 0 for an applied record, the reported last index when records are missing, and -1 exactly on a DB error; it is never below -1 |
| FedLog.ReturnCodeAmbiguous | include/FedReplicaManager.h:58-60 | as written, record 2 sent to a zone with an empty log is not applied and changes nothing, yet its code equals the success code 0 |
| FedLog.ReturnCodeExactOnceStarted | include/FedReplicaManager.h:58-60 | once last_index is positive, code 0 means exactly that the record was applied |
| FedLog.NextRecordPending | include/FedReplicaManager.h:257-265 | under the invariant a zone has a next record exactly when it exists and its cursor is at most last_index; the record is the cursor's index, the logged sql and the zone's servers |
| FedReplica.FedReplicaManager.GetNextRecord | include/FedReplicaManager.h:257-265 | returns 0 with the zone's next index, sql and servers when FedLog.NextRecord has one, -1 otherwise; state unchanged |
| FedLog.SuccessAdvancesCursor | include/FedReplicaManager.h:62-67 | a success moves only that zone's cursor, by exactly one, keeps its servers, the log and every other zone, keeps the invariant; the reply says whether a record is pending |
| FedReplica.FedReplicaManager.ReplicateSuccess | include/FedReplicaManager.h:62-67 | the new state and pending flag are FedLog.ReplicateSuccess of the old state, and the invariant is kept |
| FedLog.SuccessesAdvance | include/FedReplicaManager.h:62-67 | k successes move the cursor by exactly k and change nothing else |
| FedLog.FailureResetsCursor | include/FedReplicaManager.h:69-74 | a failure sets only that zone's cursor to the reported last index + 1 when 0 <= the reported index <= last_index, and otherwise leaves it unchanged; it keeps the zone's servers, the log, the other zones and the invariant; the reply says whether a record is pending |
| FedLog.FailureResyncs | include/FedReplicaManager.h:53-74 | when a zone refuses the record at its cursor (a MissingRecords outcome) and the master's failure handler is given the code the zone returned, the master's cursor becomes the zone's last index + 1, so the next record sent is the one the zone expects; this holds both when the zone is behind and when an acknowledgement was lost; for a zone with an empty log that code is 0, which a caller reading only the int would take for success (see Findings), so the lemma assumes the refusal is known |
| FedReplica.FedReplicaManager.ReplicateFailure | include/FedReplicaManager.h:69-74 | the new state and pending flag are FedLog.ReplicateFailure of the old state, and the invariant is kept |
| FedLog.AddZoneInserts | include/FedReplicaManager.h:122-127 | add_zone registers exactly the new zone, with its servers and cursor last_index + 1, and leaves the other zones, the log and the invariant alone |
| FedReplica.FedReplicaManager.AddZone | include/FedReplicaManager.h:122-127 | the new state is FedLog.AddZone of the old state, and the invariant is kept |
| FedLog.DeleteZoneRemoves | include/FedReplicaManager.h:129-134 | delete_zone removes exactly that zone and keeps the other zones, the log and the invariant |
| FedReplica.FedReplicaManager.DeleteZone | include/FedReplicaManager.h:129-134 | the new state is FedLog.DeleteZone of the old state, and the invariant is kept |
| FedLog.DeleteUndoesAdd | include/FedReplicaManager.h:122-134 | deleting a zone just added restores the state |
| FedLog.UpdateZonesMatches | include/FedReplicaManager.h:114-120 | after update_zones the zone ids are the membership's, every zone has the membership's servers, known zones keep their cursor, new ones start at last_index + 1; the log is kept, the ids are returned, and both the invariant and the weaker pre-start predicate are kept |
| FedReplica.FedReplicaManager.UpdateZones | include/FedReplicaManager.h:114-120 | the new state and returned ids are FedLog.UpdateZones of the old state; the pre-start predicate is kept, and so is the invariant when it held |
| FedLog.UpdateZonesIdempotent | include/FedReplicaManager.h:114-120 | refreshing twice with the same membership equals refreshing once |
| FedLog.ReadLastIndexRestores | include/FedReplicaManager.h:250-255 | reading last_index from a gap-free table sets it to the table's last record, never lowers it, keeps the zones and the log, and establishes the invariant |
| FedReplica.FedReplicaManager.GetLastIndex | include/FedReplicaManager.h:250-255 | from the pre-start predicate, last_index becomes the last record of the table, zones and log are unchanged, and the invariant holds |
| FedLog.SlaveRestartScenario | include/FedReplicaManager.h:53-60 | a slave restarted over records 1 and 2 reads last_index 2, refuses a resent record 1 reporting 2, and applies record 3 |
| FedLog.StartReplicaThreadsLoads | include/FedReplicaManager.h:100-112 | from a gap-free table not yet read, start_replica_threads sets last_index to the table's last record and establishes the invariant; the zones match the membership, and a new zone's cursor is last_index + 1 from before the read, since the zones are refreshed first; the log is kept and the membership's ids are returned |
| FedLog.StartReplicaThreadsRecovers | include/FedReplicaManager.h:100-112 | when last_index is already current, start_replica_threads reads it back unchanged, keeps the invariant, and returns the membership's ids |
| FedReplica.FedReplicaManager.StartReplicaThreads | include/FedReplicaManager.h:100-112 | from the pre-start predicate, last_index becomes the last record of the old table, the zones are the membership's, a new zone's cursor is the old last_index + 1, and the invariant holds; the whole new state and ids are FedLog.StartReplicaThreads of the old state |
| FedReplica.FedReplicaManager.constructor | include/FedReplicaManager.h:35-41 | a new manager over an existing gap-free log table keeps that table, has no zones, has last_index 0 until it is read, keeps the given log retention, and satisfies the pre-start predicate |
| FedLog.CatchUpScenario | include/FedReplicaManager.h:45-67 | a zone added to an empty log is sent records 1 then 2 as each is acknowledged, and is then caught up |
| FedLog.ResyncScenario | include/FedReplicaManager.h:62-74 | with five records and the cursor at 3, a failure reporting last index 1 rewinds to 2 and the next record sent is record 2 |
| FedLog.RestartScenario | include/FedReplicaManager.h:53-74 | a manager restarted over two records reads last_index 2 but gives a zone it has not seen yet the cursor 1; the up-to-date zone refuses record 1 and reports 2; the failure moves the cursor to 3, with nothing pending |
| Template.UpcaseProperties | src/sunstone/models/OpenNebulaJSON/JSONUtils.rb:85 | upper-cased keys hold no lower-case ASCII letter, keep every other character, and upper-casing twice is upper-casing once |
| Template.StrLine | src/sunstone/models/OpenNebulaJSON/JSONUtils.rb:74-111 | the buffer built element by element for one attribute is the attribute's Line: none for nil or empty, else the scalar, hash block or concatenated element outputs |
| Template.AppendHash | src/sunstone/models/OpenNebulaJSON/JSONUtils.rb:96-105 | appending a hash value adds exactly its block: key, `=[`, break, entries joined by `,\n`, `\n]\n` |
| Template.AppendElem | src/sunstone/models/OpenNebulaJSON/JSONUtils.rb:80-95 | appending one array element adds exactly that element's output, nothing for a nil or empty element |
| Template.LinesAppend | src/sunstone/models/OpenNebulaJSON/JSONUtils.rb:73-112 | the lines of two attribute lists in sequence are the lines of each, in order |
| Template.BlankAttributeDropped | src/sunstone/models/OpenNebulaJSON/JSONUtils.rb:74 | a nil or empty attribute anywhere contributes nothing to the text |
| Template.ArrayOutSnoc | src/sunstone/models/OpenNebulaJSON/JSONUtils.rb:80-95 | one more element appends exactly its output to the array's text |
| Template.ArrayOutAppend | src/sunstone/models/OpenNebulaJSON/JSONUtils.rb:80-95 | the text of two runs of elements is the concatenation of their texts, in order |
| Template.ArrayOutOfBlanks | src/sunstone/models/OpenNebulaJSON/JSONUtils.rb:81 | elements that are all nil or empty produce no text |
| Template.BlankArrayKeepsEmptyLine | src/sunstone/models/OpenNebulaJSON/JSONUtils.rb:74-112 | a non-empty array of blank elements still yields a line, the empty one, since compact drops only nil |
| Template.BlankArrayExample | src/sunstone/models/OpenNebulaJSON/JSONUtils.rb:73-112 | such an array between two scalars leaves an empty line: `CPU="1"`, empty line, `VCPU="2"` |
| Template.TemplateOfOne | src/sunstone/models/OpenNebulaJSON/JSONUtils.rb:112 | the text of a single attribute is its line |
| Template.IndentedHashExample | src/sunstone/models/OpenNebulaJSON/JSONUtils.rb:64-67 | with indentation a hash renders with a break after `DISK=[`, two spaces before each entry, and a key without a quoted value for a falsy value |
| Template.CompactHashExample | src/sunstone/models/OpenNebulaJSON/JSONUtils.rb:68-71 | without indentation the same hash has no break after `DISK=[` and one space before each entry |
| Template.ArrayExample | src/sunstone/models/OpenNebulaJSON/JSONUtils.rb:80-95 | an array repeats the key per element: a scalar line with its newline, nothing for nil, then a block |
| Template.KeysEmittedUpcased | src/sunstone/models/OpenNebulaJSON/JSONUtils.rb:85-108 | the lines depend on every key, top-level or nested, only through its upper-cased form |
| Template.TemplateKeysUpcased | src/sunstone/models/OpenNebulaJSON/JSONUtils.rb:64-115 | upper-casing every key beforehand leaves the text unchanged |
| Template.ScalarLinesIgnoreLayout | src/sunstone/models/OpenNebulaJSON/JSONUtils.rb:108 | scalar and blank attributes produce the same lines under any layout |
| Template.IndentIrrelevantForScalars | src/sunstone/models/OpenNebulaJSON/JSONUtils.rb:64-71 | the indent flag changes nothing when every value is a scalar or blank |
| TemplateParse.ParseLine | src/sunstone/models/OpenNebulaJSON/JSONUtils.rb:108 | a parsed line is the key, `=`, then the quoted value, and the key holds no `=` |
| TemplateParse.SplitJoin | src/sunstone/models/OpenNebulaJSON/JSONUtils.rb:112 | cutting at newlines undoes the final join of non-empty, newline-free lines |
| TemplateParse.ParseLineRendered | src/sunstone/models/OpenNebulaJSON/JSONUtils.rb:108 | a `KEY="value"` line reads back as its key and value when the key has no `=` |
| TemplateParse.ParseRender | src/sunstone/models/OpenNebulaJSON/JSONUtils.rb:108 | a list of such lines reads back as its pairs, in order |
| TemplateParse.ScalarLinesRender | src/sunstone/models/OpenNebulaJSON/JSONUtils.rb:73-112 | for scalar attributes the lines are `KEY="value"` for the upper-cased key of each non-blank attribute, in order |
| TemplateParse.RoundTrip | src/sunstone/models/OpenNebulaJSON/JSONUtils.rb:64-115 | reading back the text for scalar attributes gives each non-blank attribute's upper-cased key and value, in order, with or without indentation |

## Left out

- Threads, the mutex and the ActionManager loop are left out. The model is one sequential owner of the state. The timer that purges the log is left out too, so `log_retention` is only stored.
- `xmlrpc_replicate_log` and the replica threads that call it are left out: they are network I/O. Their result reaches the model as the arguments of `ReplicateSuccess` and `ReplicateFailure`.
- SQL is left out. This covers the table and bootstrap statements, executing `sql` on the slave, and how records are stored. Each database outcome is the input `dbOk`.
- `update_zones` reads the zone pool. Here the membership (zone id to servers) is an argument. `start_replica_threads` hands the returned ids to ReplicaManager, which is not part of this model.
- `add_zone` and `delete_zone` start and stop a replica thread. Only their effect on the zone list is modelled.
- FedLog.AddZone and FedReplica.FedReplicaManager.AddZone: `add_zone(int zone_id)` looks the zone's servers up in the zone pool. Here the servers are an argument, as for `update_zones`.
- FedReplica.FedReplicaManager.GetLastIndex: a failing read of the table is not modelled; the read always succeeds.
- FedReplica.FedReplicaManager.constructor: the constructor's timer, purge timeout and database handle are left out. The log table it will read is an argument, and it must have no gap (records 1..n), as `replicate` and `apply_log_record` write it. A table thinned by the purge is not modelled. The header gives `last_index` no initial value. The model takes 0 until `get_last_index` reads the table.
- FedLog.ReplicateFailure: a reported last index beyond the master's `last_index`, or a negative one, leaves the cursor unchanged. The header does not say what happens then.
- A `ZoneServers` entry is a value in a map, not a heap object shared by pointer.
- `last_index` and `next` are unsigned 32-bit in C++. Wrap-around after 2^32 records is not modelled.
- FedReplica.FedReplicaManager.ReplicateSuccess: requires that the zone's record is outstanding (cursor at most last_index). Without that, a spurious success would push the cursor past last_index + 1, and the invariant could not be kept. The pure function `FedLog.ReplicateSuccess` has no such requirement.
- `String#upcase` is modelled for ASCII letters only. Unicode case mapping is left out.
- Values are strings. `to_s` of other Ruby objects, and `empty?` raising on numbers, are left out. An array element that is itself an array is also left out.
- Template.TemplateToStr: the Ruby default `indent=true` is not a member of its own. Every caller passes the flag explicitly.
- `TemplateParse` reads only the scalar fragment. It does not read hash blocks, nor values containing newlines.

## Findings

| source | as written | input that shows it | evidently intended | confidence | as-written member | corrected member |
|---|---|---|---|---|---|---|
| include/FedReplicaManager.h:58-60 | apply_log_record returns 0 on success and last_index when records are missing | a slave whose log is empty (last_index 0) receives record 2: nothing is applied, yet the code is 0, the success code | the caller can tell an applied record from a gap | not executed | FedLog.ReturnCodeAmbiguous | FedLog.ApplyOutcomes |
