# Verified model of the storage and replication core

A Dafny model of the distributed key-value store's hard parts, with proofs that hold for
all inputs and all runs:

- **Storage engine** (`Bytes`, `Records`, `Store`, `Table`, `HashMap`, `Links`, `View`, `PMap`,
  `Replay`, `Iterate`, `Defrag`, `Runs`, `Laws`, `Capacity`, `Persist`, `Departures`,
  `RemappedKey`): an append-only byte log with length headers and trailers, indexed by an
  open-addressed table with lazy deletion and doubling. One representation invariant joins
  unbroken probe chains, one live bucket per key, store indices on record boundaries, stale
  pairs behind deleted buckets, the log fold and the byte account; Set, CAS, Del, expansion,
  reopening, iteration and defragmentation are proved against the abstract `Dictionary`, and
  whole runs against an abstract machine that determines every outcome of a write.
- **Checksum** (`MapSums`, `Checksum`, `Reports`): the incremental, order-insensitive checksum,
  its three time windows, and what polls report over whole runs.
- **Replication** (`Client`, `Cluster`, `CasChain`): last-writer-wins Sets, Get with
  read-repair and CAS through a ranked master, as steps over replicas and messages that may
  be lost, repeated and reordered.
- **Client connection** (`Queue`, `Broker`, `Message`, `BuffConn`): the deadline queue as a
  doubly linked list, exactly-once completion of requests, and the framed byte stream.
- **Chunk state** (`Chunk`): presence, protection timers, replacement by defragmentation.

`dafny verify dfyconfig.toml` checks the project.

## How the model reads the code

- Machine words are bounded integers. Bitwise operators are defined on naturals; timestamps
  are the 64-bit words of the value header read as signed nanoseconds. The zero `time.Time`
  is a time before all of them.
- The mapped file is an array of bytes, zeroed when new. Store indices have 32 bits, so a
  store has at most 2^32 bytes.
- The five copies of the probe loop are one method, `PMap.Probe`; what follows the loop in
  each operation stays in that operation. `floor(size * 0.7)` is `size * 7 / 10`.
- The expected hash argument of `Set`, `CAS`, `Del` and `Get` is the FNV-1a hash of the key,
  as every caller passes it.
- TCP delivers any non-empty part of what is left; goroutines that share a mutex are steps in
  any order; clocks are parameters.
- `Represents`, `Balanced` and the definitions behind `Asked` are guarded by a marker predicate
  that always holds, so that proofs look inside only where a lemma says so.

## What the code does not do

These are results of the model; the code is modelled as it is.

- `Get` does not remap hashes 0 and 1 while `Set` does. Such keys (`uuniruc` is one,
  `RemappedHash`) are stored, not found by `Get`, and skipped by iteration and defragmentation
  (`RemappedKeyIsLost`, `IterationExact`). Under hash 1 `Get` can even return a deleted pair
  (`DeletedPairIsRead`, `GhostKey`). It is right exactly for the other keys.
- Iteration compares eight header bytes only. It is exact iff no record imitates the current
  one and `Get` sees exactly the map (`SelectionExact`); distinct and late timestamps exclude
  imitation (`HonestNoImitation`). Set, Del and Set at one time imitate, and defragmentation
  then brings the deleted value back (`DeletedValueReturns`) or, when the lengths of the
  tombstone spell that time, panics (`TombstonePanics`).
- The comment on CAS asks that two tests pass. For a pair that does not exist the code accepts
  a CAS that passes one of them (`CasDeparture`, `StaleCasCreates`, `WrongOldValueAccepted`).
- CAS does not check that the new timestamp is later, so a client whose clock is behind lowers
  a timestamp (`LoweringCas`); that is the only step that does (`MonotoneIff`).
- A CAS refused by a full store has already taken the old pair out of the checksum
  (`RefusedCasDrifts`); a Del whose tombstone is refused removes the pair from memory but not
  from the log, so it is back after reopening (`UnburiedPairReturns`).
- Reopening stops at a record with an empty key and drops what follows it, and it drops
  without an error every record from the first one that finds the index full (`Open`).
- `queue.push` falls through after its "to head" branch and leaves a cycle when the new
  deadline is before the head's; the walk of `clean` is then one node short (`PushEarly`).
- `buffconn.Read` spins when the buffer position leaves no room for a header, for example
  after a first message of 2048 bytes.
- A checksum event exactly on a window end is counted as if it were before it.

## Model

| member | source | states |
|---|---|---|
| `Runs.RunAll` | atomic-distributed-NoSqlDB-Engine/core/pmap/pmap.go:140-390 | over every sequence of Get, Set, Del, CAS and checksum polls, index plus log give the final map, log, index load, byte counts and checksum windows of an abstract machine and its replies, capacity errors included, through any expansions; only a Get of a key with hash 1 is left open to pairs of the log; durability is lost only by a refused tombstone, the checksum only by a CAS of a live pair on a full store |
| `Runs.Apply` | atomic-distributed-NoSqlDB-Engine/core/pmap/pmap.go:180-390 | one operation is one step of the abstract machine |
| `Laws.DelByTime` | atomic-distributed-NoSqlDB-Engine/core/pmap/pmap.go:371-382 | a Del at time t' of a pair of time t removes it iff t' >= t, counts its bytes as deleted and touches no other pair; an earlier Del changes nothing |
| `Laws.SetByTime` | atomic-distributed-NoSqlDB-Engine/core/pmap/pmap.go:249-266 | a Set that finds room replaces a pair iff its time is later |
| `Laws.CasByTime` | atomic-distributed-NoSqlDB-Engine/core/pmap/pmap.go:330-336 | a CAS of a live pair fails by time iff the expected time differs, by hash iff the time agrees and the payload hash does not |
| `Laws.CasOfAbsent` | atomic-distributed-NoSqlDB-Engine/core/pmap/pmap.go:304-308 | a CAS of an absent pair fails iff neither time 0 nor the empty payload is expected |
| `Laws.ErrorsByCause` | atomic-distributed-NoSqlDB-Engine/core/pmap/pmap.go:209-235 | short values, a full index and a full store, each exactly when, in this order |
| `Laws.PairSurvives` | atomic-distributed-NoSqlDB-Engine/core/pmap/pmap.go:180-390 | a pair survives every run whose Dels of it are earlier, Sets not later and CASes expect another time |
| `Laws.StaysDeleted` | atomic-distributed-NoSqlDB-Engine/core/pmap/pmap.go:355-390 | a deleted pair stays away over every run that does not write it |
| `Laws.ByteAccount` | atomic-distributed-NoSqlDB-Engine/core/pmap/pmap.go:376-385 | every byte of the log is live, counted as deleted, overwritten or a tombstone |
| `Capacity.NoCapacityError` | atomic-distributed-NoSqlDB-Engine/core/pmap/pmap.go:213-219 | if the offered bytes fit the store and keys, markers and deletions stay below the largest load limit, no reply of a run is a capacity error |
| `Capacity.RunInRoom` | atomic-distributed-NoSqlDB-Engine/core/pmap/pmap.go:209-390 | such a run of a map loses neither durability nor checksum |
| `Persistence.RunAndReopen` | atomic-distributed-NoSqlDB-Engine/core/pmap/pmap.go:57-82 | such a run of a new map with non-empty keys and four bytes to spare reopens to the same map |
| `Persistence.InsertionsCount` | atomic-distributed-NoSqlDB-Engine/core/pmap/pmap.go:85-138 | the records of a log that take a bucket are its live pairs plus its tombstones |
| `Capacity.StepMarkers` | atomic-distributed-NoSqlDB-Engine/core/pmap/pmap.go:380-382 | only a deletion adds a deleted marker, and bytes used grow by no more than was offered |
| `PMaps.PMap.Probe` | atomic-distributed-NoSqlDB-Engine/core/pmap/pmap.go:184-203 | the linear probe ends, having passed only non-empty slots that do not match, at an empty slot or at a bucket of the hash whose record has the key |
| `PMaps.PMap.Find` | atomic-distributed-NoSqlDB-Engine/core/pmap/pmap.go:221-248 | with the remapped hash the probe finds a slot exactly for the live keys, and the slot is the key's own bucket |
| `PMaps.PMap.Get` | atomic-distributed-NoSqlDB-Engine/core/pmap/pmap.go:180-204 | returns the pair that its own view of the index holds: the map's for hashes of at least 2, nothing for hash 0, and nothing for hash 1 without deleted buckets |
| `Views.SeenExact` | atomic-distributed-NoSqlDB-Engine/core/pmap/pmap.go:180-204 | Get finds a key iff a bucket of its unremapped hash and key can be reached from the home slot over filled slots |
| `Views.RemappedView` | atomic-distributed-NoSqlDB-Engine/core/pmap/pmap.go:180-204 | what Get sees of a remapped key is a pair that is no longer current, behind a deleted bucket |
| `Views.ViewIsMap` | atomic-distributed-NoSqlDB-Engine/core/pmap/pmap.go:180-204 | Get sees exactly the map iff no live key is remapped and no deleted pair shows through |
| `Departures.DeletedPairIsRead` | atomic-distributed-NoSqlDB-Engine/core/pmap/pmap.go:180-204 | once slots 1 and 2 are filled, Get still returns a value for a deleted key with hash 1 |
| `Departures.GhostKey` | atomic-distributed-NoSqlDB-Engine/core/pmap/pmap.go:355-390 | there are such keys: after three Sets and a Del the deleted value is read |
| `Departures.RemappedKeyIsLost` | atomic-distributed-NoSqlDB-Engine/core/pmap/pmap.go:180-204 | the key condition of Get is exact: every key whose hash is remapped is in the map after Set, is not found by Get and is dropped by defragmentation |
| `Departures.LostKey` | atomic-distributed-NoSqlDB-Engine/core/pmap/pmap.go:221-235 | there is such a key, and its value is never read again |
| `RemappedKeys.RemappedHash` | atomic-distributed-NoSqlDB-Engine/hashing/hashing.go:8-16 | the FNV-1a hash of "uuniruc" has a low half of 0 |
| `Departures.DeletedValueReturns` | atomic-distributed-NoSqlDB-Engine/core/defrag.go:34-41 | after Set, Del and Set of a key at one time the map has the second value, and defragmentation brings back the first |
| `Departures.TombstonePanics` | atomic-distributed-NoSqlDB-Engine/core/defrag.go:34-41 | when that time is what the length words of the tombstone spell, defragmentation panics |
| `Departures.RefusedCasDrifts` | atomic-distributed-NoSqlDB-Engine/core/pmap/pmap.go:337-341 | after a CAS refused by a full store the checksum is that of the map without the pair |
| `Departures.UnburiedPairReturns` | atomic-distributed-NoSqlDB-Engine/core/pmap/pmap.go:380-385 | a pair whose tombstone was refused is gone, and is back after reopening |
| `PMaps.PMap.Set` | atomic-distributed-NoSqlDB-Engine/core/pmap/pmap.go:209-272 | exact error for every input; writes iff absent or strictly newer; keeps the invariant, durability and checksum; a failing Set leaves the map unchanged |
| `PMaps.PMap.CAS` | atomic-distributed-NoSqlDB-Engine/core/pmap/pmap.go:284-350 | exact error for every input; a failure keeps the map; on a full store the checksum has lost the old pair |
| `Dictionary.CasDeparture` | atomic-distributed-NoSqlDB-Engine/core/pmap/pmap.go:274-310 | the code follows the documented rule, both tests, iff it is not a CAS on an absent key that passes exactly one of them; what the rule accepts the code accepts |
| `Clients.StaleCasCreates` | atomic-distributed-NoSqlDB-Engine/core/pmap/pmap.go:304-318 | whatever time it expects, a client CAS with an empty old value creates an absent pair |
| `Clients.MismatchedCasCreates` | atomic-distributed-NoSqlDB-Engine/core/pmap/pmap.go:304-318 | whatever old value it names, a client CAS that expects time 0 creates an absent pair |
| `Departures.WrongOldValueAccepted` | atomic-distributed-NoSqlDB-Engine/core/pmap/pmap.go:304-318 | an old value with another hash than the empty one is accepted so |
| `PMaps.PMap.Del` | atomic-distributed-NoSqlDB-Engine/core/pmap/pmap.go:355-390 | removes the pair unless it is strictly newer, even when the tombstone is refused; the map stays durable iff the tombstone was written |
| `PMaps.PMap.EnsureRoom` | atomic-distributed-NoSqlDB-Engine/core/pmap/pmap.go:213-219 | the load check fails iff the table is at its load limit and cannot double; otherwise one more key fits and the map is the same |
| `PMaps.PMap.Write` | atomic-distributed-NoSqlDB-Engine/core/pmap/pmap.go:228-234 | put plus bucket update keeps the representation invariant and changes exactly one pair, or is refused by the store without a trace |
| `PMaps.PMap.constructor` | atomic-distributed-NoSqlDB-Engine/core/pmap/pmap.go:47-54 | a new map is empty, durable and has the checksum of the empty map |
| `Representation.PutRepresents` | atomic-distributed-NoSqlDB-Engine/core/pmap/pmap.go:259-266 | appending a record and aiming its key's bucket at it keeps: live buckets = current records, chains on record boundaries, log fold, byte account |
| `Representation.EraseRepresents` | atomic-distributed-NoSqlDB-Engine/core/pmap/pmap.go:380-382 | lazy deletion of a bucket represents the map without the key, its bytes moving from live to deleted |
| `Representation.TombstoneRepresents` | atomic-distributed-NoSqlDB-Engine/core/pmap/pmap.go:383-385 | the tombstone keeps the invariant and makes the log fold agree again |
| `Representation.MirrorRepresents` | atomic-distributed-NoSqlDB-Engine/core/pmap/hashmap.go:59-88 | an expanded index represents the same map over the same log |
| `Links.MissIsAbsent` | atomic-distributed-NoSqlDB-Engine/core/pmap/pmap.go:97-108 | a probe that ends at an empty slot proves that the key is not live |
| `Links.HitIsCurrent` | atomic-distributed-NoSqlDB-Engine/core/pmap/pmap.go:109-117 | a matching live bucket is the bucket of the key's last record |
| `Links.LiveKeys` | atomic-distributed-NoSqlDB-Engine/core/pmap/hashmap.go:59-88 | there are exactly as many live buckets as live keys, so the load after an expansion is the size of the map |
| `Links.LinkedPut` | atomic-distributed-NoSqlDB-Engine/core/pmap/pmap.go:232-234 | one live bucket per key, and one key per live bucket, survive a write |
| `HashMaps.HashMap.Expand` | atomic-distributed-NoSqlDB-Engine/core/pmap/hashmap.go:59-88 | fails iff the doubled size passes the limit; otherwise exactly the live buckets remain, no deleted marker, all chains hold under the new mask and the count is the number of live buckets, below the load limit |
| `HashMaps.HashMap.Insert` | atomic-distributed-NoSqlDB-Engine/core/pmap/hashmap.go:69-85 | the inner search of expand ends and adds one live bucket |
| `HashMaps.HashMap.FindEmpty` | atomic-distributed-NoSqlDB-Engine/core/pmap/hashmap.go:71-84 | the first empty slot in probe order exists and is reached over non-empty slots only |
| `HashMaps.HashMap.SetSize` | atomic-distributed-NoSqlDB-Engine/core/pmap/hashmap.go:48-56 | size is 2^k, the mask built bit by bit is size - 1, the load limit is 7/10 of the size |
| `HashMaps.HashMap.Masks` | atomic-distributed-NoSqlDB-Engine/core/pmap/hashmap.go:91-103 | masking a hash is the home slot and masking index + 1 the cyclic successor |
| `Bits.AndMask` | atomic-distributed-NoSqlDB-Engine/core/pmap/hashmap.go:48-54 | x & (2^k - 1) is x mod 2^k |
| `Tables.PlaceKeepsChains` | atomic-distributed-NoSqlDB-Engine/core/pmap/hashmap.go:73-78 | filling the end of a probe, replacing a bucket of the same hash and lazy deletion all keep every probe chain unbroken |
| `Tables.ProbeReaches` | atomic-distributed-NoSqlDB-Engine/core/pmap/pmap.go:184-203 | from its home slot a live bucket comes before any empty slot |
| `Tables.EmptySlot` | atomic-distributed-NoSqlDB-Engine/core/pmap/hashmap.go:48-56 | a table below its load limit has an empty slot, so probes end |
| `Stores.Store.Put` | atomic-distributed-NoSqlDB-Engine/core/pmap/store.go:175-193 | denied iff the record would reach the file end; otherwise the file image grows by exactly that record, whose offset is returned, and blank bytes after it stay blank |
| `Records.ReadBack` | atomic-distributed-NoSqlDB-Engine/core/pmap/store.go:141-172 | every record of the log reads back with its key, value and lengths, and prev inverts the forward step |
| `Bytes.LEFour` | atomic-distributed-NoSqlDB-Engine/core/pmap/store.go:141-172 | the least significant byte of a length comes first |
| `Records.RecordInImage` | atomic-distributed-NoSqlDB-Engine/core/pmap/store.go:21-33 | records are laid out back to back between consecutive offsets |
| `Records.LastPosIsLast` | atomic-distributed-NoSqlDB-Engine/core/pmap/pmap.go:62-79 | the replay fold points at the last record of a key, which is a pair |
| `Replay.Open` | atomic-distributed-NoSqlDB-Engine/core/pmap/pmap.go:57-82 | replaying rebuilds the last-record-wins map of the records that the index takes before it runs out of room, its checksum and the windows; with room for all, that is the whole log, and every byte of it is live or deleted |
| `Replay.Reopen` | atomic-distributed-NoSqlDB-Engine/core/pmap/pmap.go:57-82 | reopening replays the records before the first empty key; for a durable map without empty keys and with room for its records that is the same map |
| `Replay.RestorableCovered` | atomic-distributed-NoSqlDB-Engine/core/pmap/pmap.go:85-92 | the index takes the whole log iff it has room for each record when its turn comes |
| `Replay.FewInsertionsRestorable` | atomic-distributed-NoSqlDB-Engine/core/pmap/pmap.go:85-92 | room is only taken by records that find their key without a pair: any log with fewer such records than the largest load limit is restored, however many overwrites it has |
| `Replay.RestorePair` | atomic-distributed-NoSqlDB-Engine/core/pmap/pmap.go:85-138 | one record is indexed as new, replacing or burying, with its effect on the checksum windows; it is dropped iff the index has no room |
| `Replay.TombstoneOnDisk` | atomic-distributed-NoSqlDB-Engine/core/pmap/pmap.go:114 | the time taken for a tombstone is made of its trailer and the next key length |
| `Replay.ReplayStops` | atomic-distributed-NoSqlDB-Engine/core/pmap/pmap.go:63-66 | after the replayable records the file reads a zero key length |
| `HashMaps.RoomBelowLimit` | atomic-distributed-NoSqlDB-Engine/core/pmap/hashmap.go:59-63 | with fewer buckets in use than the largest load limit an expansion never fails |
| `HashMaps.LoadLimits` | atomic-distributed-NoSqlDB-Engine/core/pmap/hashmap.go:48-56 | the load limits of the first and the largest table |
| `Iteration.Iterate` | atomic-distributed-NoSqlDB-Engine/core/pmap/pmap.go:439-456 | feeds the callback the records that isPresent selects, in log order, up to its first refusal |
| `Iteration.BackwardsIterate` | atomic-distributed-NoSqlDB-Engine/core/pmap/pmap.go:405-435 | the same in the opposite direction |
| `Iteration.TestPresent` | atomic-distributed-NoSqlDB-Engine/core/pmap/pmap.go:392-401 | true iff Get finds the key and the header word of the record equals that of the pair Get sees; a tombstone's word is its trailer and the next key length |
| `Iteration.PresentMeans` | atomic-distributed-NoSqlDB-Engine/core/pmap/pmap.go:392-401 | selected are the records that Get sees and those that imitate them: another pair with the same stamp, or a tombstone whose length words look like it |
| `Iteration.SelectionExact` | atomic-distributed-NoSqlDB-Engine/core/pmap/pmap.go:392-456 | an iteration lists every live pair exactly once and nothing else iff Get sees exactly the current records and no record imitates one |
| `Iteration.HonestNoImitation` | atomic-distributed-NoSqlDB-Engine/core/pmap/pmap.go:399-400 | different timestamps per key, all at least size * 2^32, exclude imitation |
| `Iteration.HonestAppend` | atomic-distributed-NoSqlDB-Engine/core/pmap/pmap.go:252-263 | appending a record stamped later than every other of its key keeps that condition, so a clock that moves on maintains it |
| `Iteration.IterationExact` | atomic-distributed-NoSqlDB-Engine/core/pmap/pmap.go:405-456 | a callback that never stops sees all selected records, backward order is the exact reverse, and they are the map iff no record imitates, no live key is remapped and no deleted pair shows through |
| `Iteration.FedStops` | atomic-distributed-NoSqlDB-Engine/core/pmap/pmap.go:439-456 | a callback gets records in order up to the first it refuses, and none behind it |
| `Iteration.StepBack` | atomic-distributed-NoSqlDB-Engine/core/pmap/store.go:157-162 | prev gives the previous record boundary and -1 at the start |
| `Defragmentation.Defragment` | atomic-distributed-NoSqlDB-Engine/core/defrag.go:34-41 | a Set fails, and the code panics, iff a tombstone was selected or the largest index was full before the last selected record; otherwise the copy has the first selected record of each key, durable and summed, in a log of live bytes only, and is the same map iff Get sees every live key and those records have the current values |
| `Defragmentation.CopyExact` | atomic-distributed-NoSqlDB-Engine/core/defrag.go:34-41 | when the copied records are the map, in terms of the log |
| `Defragmentation.CopyOne` | atomic-distributed-NoSqlDB-Engine/core/defrag.go:34-41 | the callback's Set succeeds iff the value is not empty and the pairs so far are fewer than the largest load limit; bytes always fit the file and, without repeats, the new table never outgrows the old one |
| `Defragmentation.HonestCopyable` | atomic-distributed-NoSqlDB-Engine/core/defrag.go:34-41 | without imitation no Set fails |
| `Defragmentation.CopyIsSet` | atomic-distributed-NoSqlDB-Engine/core/pmap/pmap.go:250-258 | a later record with the same stamp is not newer, so the first copied value stays |
| `Defragmentation.HaulBounded` | atomic-distributed-NoSqlDB-Engine/core/defrag.go:34-41 | selected records belong to keys that Get sees, of which there are no more than occupied buckets, share one stamp per key and fit the old log |
| `Chunks.MetaChunk.Defragment` | atomic-distributed-NoSqlDB-Engine/core/defrag.go:26-42 | the revision is counted and the chunk's map replaced by its copy, equal under the same exact condition |
| `Dictionary.SetsKeepNewest` | atomic-distributed-NoSqlDB-Engine/core/pmap/pmap.go:206-272 | after any Sets a key holds an offered value with the greatest timestamp |
| `Dictionary.Convergence` | atomic-distributed-NoSqlDB-Engine/core/pmap/pmap.go:206-272 | the same set of writes in any order, with any repetition, ends in the same map |
| `Runs.ReplicasConverge` | atomic-distributed-NoSqlDB-Engine/core/pmap/pmap.go:206-272 | two maps whose Sets all succeeded with the same set of writes have the same pairs and the same newest checksum |
| `Dictionary.ChecksumReplace` | atomic-distributed-NoSqlDB-Engine/core/pmap/pmap.go:263-266 | sub then sum turns the checksum of the old map into that of the new one, modulo 2^64 |
| `Dictionary.ChecksumTellsStamps` | atomic-distributed-NoSqlDB-Engine/core/pmap/pmap.go:235-236 | two versions of a pair have the same checksum iff they have the same timestamp |
| `Dictionary.ChecksumTellsKeys` | atomic-distributed-NoSqlDB-Engine/core/pmap/pmap.go:235-236 | one value under two keys has the same checksum iff the keys have the same hash |
| `MapSums.SumRemove` | atomic-distributed-NoSqlDB-Engine/core/pmap/syncchecksum.go:10-35 | the sum over the pairs does not depend on an order |
| `Runs.SettledChecksum` | atomic-distributed-NoSqlDB-Engine/core/pmap/pmap.go:140-143 | two polls in later seconds without writes report the checksum of the map |
| `Reports.AfterWindows` | atomic-distributed-NoSqlDB-Engine/core/pmap/pmap.go:209-390 | the checksum windows after any run are those of the events its writes cause, each at the time the operation carries |
| `Reports.ReportExact` | atomic-distributed-NoSqlDB-Engine/core/pmap/syncchecksum.go:10-35 | in every run of a new map off whole seconds a poll reports exactly the events strictly before the end of the oldest window |
| `Reports.OldMapReported` | atomic-distributed-NoSqlDB-Engine/core/pmap/syncchecksum.go:10-35 | when writes come in the order of their times, a poll reports the checksum of the map as it stood at that moment |
| `Laws.RecentWriteUnreported` | atomic-distributed-NoSqlDB-Engine/core/pmap/syncchecksum.go:28-34 | a Set, Del or CAS in the last two windows leaves the reported sum alone |
| `Laws.LateSetReported` | atomic-distributed-NoSqlDB-Engine/core/pmap/syncchecksum.go:28-34 | a new pair from before the oldest window is reported at once |
| `Laws.WindowsShift` | atomic-distributed-NoSqlDB-Engine/core/pmap/syncchecksum.go:19-27 | a later event moves each window on and ends the newest at the next whole second |
| `Checksums.SyncChecksum.Sum` | atomic-distributed-NoSqlDB-Engine/core/pmap/syncchecksum.go:19-35 | one event advances the three windows |
| `Checksums.WindowsExact` | atomic-distributed-NoSqlDB-Engine/core/pmap/syncchecksum.go:19-35 | for every arrival order of events off whole seconds the windows hold exactly the events strictly before their times |
| `Checksums.AdvanceExact` | atomic-distributed-NoSqlDB-Engine/core/pmap/syncchecksum.go:19-35 | an event keeps all events strictly before the current end iff it does not fall on that end |
| `Checksums.BoundaryEventMiscounted` | atomic-distributed-NoSqlDB-Engine/core/pmap/syncchecksum.go:20-27 | an event on a window end is counted as before it |
| `Checksums.QuietWindows` | atomic-distributed-NoSqlDB-Engine/core/pmap/syncchecksum.go:10-13 | after two shifts without writes all three checksums agree |
| `Clients.Collect` | atomic-distributed-NoSqlDB-Engine/client/client.go:63-82 | Get's loop returns the first response with the greatest timestamp and each holder's time |
| `Clients.TieGoesToFirst` | atomic-distributed-NoSqlDB-Engine/client/client.go:75-78 | of two answers of one time the first counts |
| `Clients.ReadRepair` | atomic-distributed-NoSqlDB-Engine/client/client.go:87-93 | writes to exactly the holders that answered something older, nothing or not at all |
| `Clients.SelectMaster` | atomic-distributed-NoSqlDB-Engine/client/client.go:159-179 | the first holder with the greatest rank; a present holder with a positive hash keeps empty slots from being chosen, and the chosen hash is the greatest |
| `Clients.MasterOrderFree` | atomic-distributed-NoSqlDB-Engine/client/client.go:159-179 | clients that list the holders in other orders choose the same server |
| `Clients.StampedFields` | atomic-distributed-NoSqlDB-Engine/client/client.go:111-116 | the timestamp and payload of a Set are read back by Get |
| `Clients.CasArgumentMeans` | atomic-distributed-NoSqlDB-Engine/client/client.go:153-158 | a client's CAS argument is accepted iff the stored pair has the timestamp and payload hash it read |
| `Clusters.RunSourced` | atomic-distributed-NoSqlDB-Engine/client/client.go:47-144 | over every run with loss, reordering and duplication, whatever the clocks, each stored, sent or answered pair was written by a client |
| `Clusters.MonotoneIff` | atomic-distributed-NoSqlDB-Engine/core/pmap/pmap.go:330-345 | a step keeps every lower bound on timestamps iff it is no accepted CAS with a new time before the expected one |
| `Clusters.LoweringCas` | atomic-distributed-NoSqlDB-Engine/core/pmap/pmap.go:330-345 | such a CAS is accepted: a run from an empty cluster puts time 5 over time 9 |
| `Clusters.RunSafe` | atomic-distributed-NoSqlDB-Engine/client/client.go:47-144 | over every run without such a CAS no holder's timestamp goes back, and what was applied or answered stays matched |
| `Clusters.SafeFromStart` | atomic-distributed-NoSqlDB-Engine/client/client.go:47-144 | both from an empty cluster |
| `Clusters.RepairCompletes` | atomic-distributed-NoSqlDB-Engine/client/client.go:83-94 | once its repair messages are delivered, every present holder is at least as new as what the Get returned, in all later states |
| `Clusters.RepairsExact` | atomic-distributed-NoSqlDB-Engine/client/client.go:87-93 | a finished Get writes what it returns to exactly the present holders that are behind |
| `Clusters.ServeFrom` | atomic-distributed-NoSqlDB-Engine/core/pmap/pmap.go:180-204 | the primitive Get of a map without deleted buckets answers as a holder of the cluster does |
| `Clusters.ReadsSeeWrites` | atomic-distributed-NoSqlDB-Engine/client/client.go:47-144 | once the messages of a Set of a plain key have arrived, a later Get that hears from any holder returns a value at least as new |
| `Clusters.SetReachesAll` | atomic-distributed-NoSqlDB-Engine/client/client.go:111-130 | a Set whose messages have arrived is matched by every present holder from then on |
| `Clusters.CasReachesAll` | atomic-distributed-NoSqlDB-Engine/client/client.go:184-204 | so is a successful CAS |
| `Clusters.CasMessages` | atomic-distributed-NoSqlDB-Engine/client/client.go:194-203 | a successful CAS writes to exactly the present holders other than the master, a failing one to none |
| `CasChains.CasIsLinear` | atomic-distributed-NoSqlDB-Engine/client/client.go:150-205 | from an empty cluster, over every run in which the key changes at the master by CAS only, successful CASes form one chain whose last value the master holds; every other copy is a chain value; timestamps need not grow |
| `CasChains.NeverAhead` | atomic-distributed-NoSqlDB-Engine/client/client.go:150-205 | with growing timestamps no delivery or read-repair disturbs the master and no holder is ahead of it |
| `CasChains.RunKeepsChain` | atomic-distributed-NoSqlDB-Engine/core/pmap/pmap.go:284-350 | each win expected the timestamp and payload hash of the win before it, for every run |
| `CasChains.DeliverKeeps` | atomic-distributed-NoSqlDB-Engine/client/client.go:194-203 | a late or repeated Set, also a read-repair, keeps the chain iff the master does not take it for newer |
| `CasChains.OneWinPerTimestamp` | atomic-distributed-NoSqlDB-Engine/core/pmap/pmap.go:330-336 | with fresh timestamps, two wins on an existing pair never observed the same one |
| `Queues.Queue.Push` | atomic-distributed-NoSqlDB-Engine/com/comclient.go:78-104 | the list stays well formed and sorted with older entries first iff the queue is empty or the deadline is not before the head's |
| `Queues.Queue.PushEarly` | atomic-distributed-NoSqlDB-Engine/com/comclient.go:89-104 | otherwise the new and the old head point at each other, the pointers are those of no list, and the walk of clean is one node shorter than the length says |
| `Queues.Queue.Splice` | atomic-distributed-NoSqlDB-Engine/com/comclient.go:95-103 | the pointer updates insert the node behind its slot in a doubly linked list |
| `Queues.Queue.Clean` | atomic-distributed-NoSqlDB-Engine/com/comclient.go:108-132 | removes exactly the entries whose deadline has passed, earliest first |
| `Queues.Queue.Drain` | atomic-distributed-NoSqlDB-Engine/com/comclient.go:133-145 | hands out all entries in order and empties the list |
| `Queues.InsertSorted` | atomic-distributed-NoSqlDB-Engine/com/comclient.go:86-88 | insertion keeps the order by deadline and the entries |
| `Queues.InsertAt` | atomic-distributed-NoSqlDB-Engine/com/comclient.go:86-88 | an entry goes behind all entries that are not later |
| `Brokers.Broker.Send` | atomic-distributed-NoSqlDB-Engine/com/comclient.go:204-223 | a request with a timeout is queued and waits; identifiers stay unique |
| `Brokers.Broker.Response` | atomic-distributed-NoSqlDB-Engine/com/comclient.go:244-262 | answers a waiting request once, with the result its response type calls for, and drops anything else |
| `Brokers.GenuineIsExplained` | atomic-distributed-NoSqlDB-Engine/com/comclient.go:253-262 | an acknowledgement has a response of type 200, an error one of type 201 with its text, a value one of type 202, an invalid code one of that type; a timeout has its tick and a close its close |
| `Brokers.Broker.Tick` | atomic-distributed-NoSqlDB-Engine/com/comclient.go:160-172 | exactly the waiters whose deadline has passed are answered and removed |
| `Brokers.Broker.Close` | atomic-distributed-NoSqlDB-Engine/com/comclient.go:189-203 | every request that expects a reply has had exactly one result |
| `Brokers.RunBroker` | atomic-distributed-NoSqlDB-Engine/com/comclient.go:147-265 | over every interleaving of sends with their own timeouts, responses, ticks and a close, and of responses and ticks after it, each request that expects a reply has had one result or still waits, after the close exactly one; on its own channel, no timeout early, and every result is what a response said, the timeout of a tick or the close |
| `Brokers.RequestsExact` | atomic-distributed-NoSqlDB-Engine/com/comclient.go:204-223 | exactly the sends with a timeout are requests, each under the number of its send |
| `Brokers.GrowingTimeoutsFit` | atomic-distributed-NoSqlDB-Engine/com/comclient.go:211-215 | the condition on deadlines holds while send times do not go back and timeouts do not shrink |
| `Brokers.AnswerAllAccounted` | atomic-distributed-NoSqlDB-Engine/com/comclient.go:162-168 | notifying the removed entries keeps the account of results |
| `Messages.UnmarshalInverts` | atomic-distributed-NoSqlDB-Engine/com/protocol/tcpMessage.go:80-89 | decoding a frame gives the message back and its size word is its length |
| `Messages.FrameLayout` | atomic-distributed-NoSqlDB-Engine/com/protocol/tcpMessage.go:69-74 | the places of size, identifier, key length, type, key and value in a frame |
| `Messages.Marshal` | atomic-distributed-NoSqlDB-Engine/com/protocol/tcpMessage.go:61-76 | writes exactly the frame at its place or reports the size when it does not fit |
| `BuffConns.Writer.Write` | atomic-distributed-NoSqlDB-Engine/com/buffconn/buffconn.go:143-187 | sent plus buffered bytes are always the frames of all messages in order; unbuffered writes leave nothing behind |
| `BuffConns.Writer.TcpWrite` | atomic-distributed-NoSqlDB-Engine/com/buffconn/buffconn.go:131-141 | partial writes send all bytes in order |
| `BuffConns.WriteAll` | atomic-distributed-NoSqlDB-Engine/com/buffconn/buffconn.go:143-187 | after a message of type 106 and none of type 105 behind it everything is sent; without one, messages that fit the buffer of 1450 bytes wait |
| `BuffConns.Reader.Read` | atomic-distributed-NoSqlDB-Engine/com/buffconn/buffconn.go:73-129 | however TCP cuts the stream the next message is the next one written; stuck iff the buffer position leaves no room for a header |
| `BuffConns.Reader.ReadBig` | atomic-distributed-NoSqlDB-Engine/com/buffconn/buffconn.go:88-107 | a message beyond the buffer is assembled from buffered and new bytes and nothing else is lost |
| `BuffConns.Reader.TakeSmall` | atomic-distributed-NoSqlDB-Engine/com/buffconn/buffconn.go:120-127 | compaction keeps the pending bytes |
| `BuffConns.ReadAll` | atomic-distributed-NoSqlDB-Engine/com/buffconn/buffconn.go:73-129 | the messages delivered are an exact prefix, whose length the message sizes alone decide |
| `BuffConns.Transfer` | atomic-distributed-NoSqlDB-Engine/com/buffconn/buffconn.go:73-187 | written, flushed and read through any cuts, the k-th message read is the k-th written |
| `BuffConns.SmallMessagesDelivered` | atomic-distributed-NoSqlDB-Engine/com/buffconn/buffconn.go:120-126 | messages of at most 635 bytes are all delivered |
| `BuffConns.FullBufferMessageIsLast` | atomic-distributed-NoSqlDB-Engine/com/buffconn/buffconn.go:76-84 | a first message of 2036 to 2048 bytes leaves the reader stuck |
| `BuffConns.SmallBoundIsSharp` | atomic-distributed-NoSqlDB-Engine/com/buffconn/buffconn.go:120-126 | messages of 1400 and 636 bytes leave the reader stuck, so the bound of 635 is sharp |
| `Chunks.RunChunk` | atomic-distributed-NoSqlDB-Engine/core/core.go:158-214 | over every interleaving a chunk is protected iff its latest protection has neither run out nor been ended by the chunk vanishing |
| `Chunks.MetaChunk.Expire` | atomic-distributed-NoSqlDB-Engine/core/core.go:201-212 | the timer of an older protection clears nothing |
| `Chunks.MetaChunk.SetProtected` | atomic-distributed-NoSqlDB-Engine/core/core.go:189-200 | only a present chunk is protected, and its timer is pending |

## Left out

- Memory mapping, files, truncation, deletion and chunk file names: operating system calls.
- Stores above 2^32 bytes, whose indices the code would truncate.
- `numDeletedKeys` of the hash map, which the code never changes, and collision logging.
- Opening a file with fewer than four free bytes, where the code panics, and operations on a
  map that dropped records while opening.
- Del of a live key with a value shorter than a timestamp, where the code reads past the value.
- Iteration where `Get` sees a deleted pair and fewer than four zero bytes follow the log
  (`Legible` fails), since isPresent may then read past the file; and iteration while the map
  changes under the released lock.
- Runs.RunAll: leaves the reply to a Get of a key with hash 1 open, because it depends on the
  places of deleted buckets; `Views.SeenExact` says when a pair is found.
- `dist/` (server group, heartbeat, rebalance, repair), server dispatch, UDP and the heartbeat
  codec; the holder set is fixed and Del is not part of the replicated runs.
- Brokers.Broker.Send: takes deadlines that are not before the head's, the exact condition of
  `Push`, and identifiers that do not wrap around.
- Write errors of the TCP connection, ticker activation and other wake-up liveness.
- `knownChunks` and chunk routing: easy counters and a remainder.
