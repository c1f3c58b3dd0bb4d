# MiniKV in Dafny

MiniKV keeps one set of bindings in four shapes: the bytes of an append-only file, an index from keys
to file offsets, a bounded LRU cache, and the timed map its user has in mind. This project models all
four and proves that they agree: through overwrites, deletes, expiry, compaction, restarts, writes cut
at any byte, and any interleaving of readers and writers.

`dafny verify dfyconfig.toml` checks everything.

## How it is laid out

| file | content |
|---|---|
| `Types.dfy` | records, metadata, constants, status codes |
| `Checksum.dfy` | little-endian integers; 32-bit FNV-1a (section 2 of draft-eastlake-fnv) |
| `Codec.dfy` | the 28-byte header and whole records, as functions and as the loops that fill and read the header buffer |
| `Log.dfy`, `Recovery.dfy` | how a byte string splits into records and a tail; what the records mean; what recovery computes |
| `AppendOnlyStore.dfy` | the store's file object: append, scan, cut, read, replace |
| `Damage.dfy`, `Collision.dfy` | which single-byte changes recovery catches, what the others lead to, and two records with one checksum |
| `Lru.dfy`, `LruCache.dfy` | the cache on lists, its inclusion and recency laws, and the cache object of nodes and index |
| `Ordering.dfy`, `Compaction.dfy` | key order, sorting, and the compacted file |
| `Engine.dfy` | every public operation as a function on (file, index, cache, counters), with the clock as an argument; crashes; and the timed map (`TimedMap`) |
| `Refinement.dfy` | the engine refines the timed map over every run |
| `KeyValueStore.dfy`, `Client.dfy` | the store object, method by method against `Engine`, and a client whose answers are the timed map's |
| `Concurrency.dfy` | readers in separate steps under the shared lock, exclusive writers, two-phase expiry |
| `Sessions.dfy` | crash atomicity, key-count conservation, the statistics, and what a clock that goes back would do |
| `UserView.dfy` | what the operations mean in times, sizes, prefixes and counts alone |
| `Tokenizer.dfy`, `CommandParser.dfy` | the command line |

The imperative parts of the source are methods on objects (`ByteFile`, `AppendOnlyStore`, `LruCache`,
`KeyValueStore`); each ensures that the new state is the one a specification function gives for the old
state. The laws are then proved about those functions, for all inputs and all runs.

A *frame* is a record together with the header's reserved byte, so that a whole record on disk is the
encoding of exactly one frame and encoding and parsing are inverse in both directions.

## Assumptions

- The clock does not go back, across restarts too: expired keys leave the index without a tombstone.
  `ClockGoingBack` shows what GET and DEL do otherwise, and exactly when they go wrong.
- `clock + TTL` stays below 2^63 (`TtlFits`); the source adds them without a check.
- A write either completes or the process dies leaving a prefix of the record; a rename is atomic.
- Hash-table order is arbitrary: loops over the index pick keys in no particular order.
- File offsets and operation counters are unbounded; key and value sizes, expiries and checksums have
  the source's widths.

## What the checksum does not cover

`docs/PROJECT_WALKTHROUGH.md:114-118` distinguishes two cases: an incomplete last record is cut off, and
a checksum that fails is reported as CORRUPTION with the file left alone. The code keeps both promises
(`Recovery.RecoveryCharacterised`, `Recovery.RefusedIffDamaged`), and `Damage.SingleByteDamageCaught`
shows that one changed byte of a record always makes a checksum or a header check fail, except in the
reserved byte and in the two size fields.

- A changed reserved byte changes nothing (`Damage.ReservedByteIgnored`).
- The sizes decide how many bytes the checksum is computed over, and whether there are enough of them,
  before it is compared. `Damage.SizeDamageOutcome` says for every log and every change of a size byte
  exactly when recovery reports it, and what it reads otherwise: sizes that announce more bytes than
  remain pass for an incomplete last record, and this record and all after it are cut
  (`Damage.SizeDamageLosesRecord`); sizes that fit and meet a matching checksum make another record out
  of the same bytes (`Damage.SizeDamageChangesValue`).

## Model

| member | source | states |
|---|---|---|
| `LittleEndian.DecodeEncode` | src/AppendOnlyStore.cpp:27-76 | reading back a little-endian field gives the value, for every value that fits the width |
| `LittleEndian.EncodeDecode` | src/AppendOnlyStore.cpp:48-76 | every byte field is the encoding of the value read from it |
| `Checksum.XorInverse` | src/Record.cpp:9-13 | exclusive or is undone by exclusive or, on either side |
| `Checksum.HashByteBijective` | src/Record.cpp:9-13 | one FNV-1a step with a fixed byte is a bijection on 32-bit words, with an explicit inverse |
| `Checksum.HashByteSeparates` | src/Record.cpp:9-13 | from one word, different bytes lead to different words |
| `Checksum.HashInjective` | src/Record.cpp:37-42 | hashing any fixed suffix never merges two words |
| `Checksum.HashDetectsOneByte` | src/Record.cpp:24-45 | changing exactly one byte of the hashed input always changes the checksum |
| `Checksum.Hash64` | src/Record.cpp:15-20 | the shifting loop hashes the eight little-endian bytes of the value |
| `Checksum.HashString` | src/Record.cpp:37-42 | the character loop hashes the whole string |
| `Checksum.RecordChecksum` | src/Record.cpp:24-45 | the running hash equals FNV-1a over operation, expiry, both sizes, key and value |
| `Collision.SameChecksum` | src/Record.cpp:24-45 | two concrete records with the same key and expiry, one with a 22-byte value and one with the empty value, have the same checksum |
| `Codec.PutField` | src/AppendOnlyStore.cpp:27-46 | the loop writes the field's bytes at the offset and leaves the rest of the buffer alone |
| `Codec.GetField` | src/AppendOnlyStore.cpp:48-76 | the loop reads the field at the offset |
| `Codec.MakeHeader` | src/AppendOnlyStore.cpp:78-93 | the filled buffer is the header layout of the record with reserved byte zero |
| `Codec.HeaderOnDisk` | src/AppendOnlyStore.cpp:78-93 | the first eight bytes are MKV1, version 1, 1 for SET or 2 for DELETE, and the reserved byte |
| `Codec.HeaderLayout` | src/AppendOnlyStore.cpp:78-93 | each field stands little-endian at its place: sizes at 8 and 12, expiry at 16, checksum at 24 |
| `Codec.ReadHeader` | src/AppendOnlyStore.cpp:95-128 | checking field by field accepts exactly the headers that parse, and fails with Corruption otherwise |
| `Codec.HeaderAcceptedIff` | src/AppendOnlyStore.cpp:95-128 | a header is accepted exactly when it begins with MKV1 and version 1, the operation is 1 or 2, the key size is 1 to 4096, the value size at most 16 MiB, and zero for a DELETE |
| `Codec.ParseHeaderBytes` | src/AppendOnlyStore.cpp:78-128 | a written header parses to its fields, whatever the reserved byte |
| `Codec.HeaderBytesOfParsed` | src/AppendOnlyStore.cpp:95-128 | conversely, a header that parses is the layout of its fields and its reserved byte |
| `Codec.ParseEncoded` | src/AppendOnlyStore.cpp:130-158 | a written record parses back to itself whatever follows it, for all 64-bit expiries |
| `Codec.EncodeParsed` | src/AppendOnlyStore.cpp:248-288 | bytes accepted as a whole record are exactly the encoding of a valid record |
| `Codec.CutFrameIsTorn` | src/AppendOnlyStore.cpp:243-269 | a record cut at any byte looks like a torn tail, never like damage |
| `Codec.PrefixFree` | src/AppendOnlyStore.cpp:78-158 | no encoding is a proper prefix of another, and equal encodings come from equal records |
| `Codec.RewriteRestoresBytes` | src/AppendOnlyStore.cpp:84-84 | parsing and writing again restores every byte, except that the reserved byte becomes zero |
| `Log.SplitSound` | src/AppendOnlyStore.cpp:241-305 | every byte string is the encoding of the valid records found in it followed by a tail that holds no whole record |
| `Log.SplitUnique` | src/AppendOnlyStore.cpp:241-305 | that decomposition is the only one |
| `Log.SplitAfter` | src/AppendOnlyStore.cpp:241-305 | valid records in front of any bytes only add themselves to what the scan finds in those bytes |
| `Log.UniqueDecoding` | src/AppendOnlyStore.cpp:130-158 | a concatenation of encodings determines its list of records |
| `Log.ReplayIsLiveLatest` | src/AppendOnlyStore.cpp:290-301 | replay at a time is the last SET of each key less what has expired |
| `Log.ReplayIsLastWriter` | src/AppendOnlyStore.cpp:290-301 | a key is indexed exactly when its last record is an unexpired SET, and the entry locates that record |
| `Log.LastWriter` | src/AppendOnlyStore.cpp:290-301 | index entry and binding of a key come from its last record, which is a SET; without one the last record is a DELETE |
| `Log.LastPlace` | src/AppendOnlyStore.cpp:416-427 | the index that compaction returns has exactly the keys that occur, each at its last record |
| `Log.LastPlacesOfSets` | src/AppendOnlyStore.cpp:416-427 | for a list of SETs that index is the one recovery builds, expired keys aside |
| `Log.ExpiryCommutesWithReplay` | src/AppendOnlyStore.cpp:292-293 | replaying later is replaying earlier and dropping what expired in between; no older value reappears |
| `Log.ReadThroughIndex` | src/AppendOnlyStore.cpp:369-389 | every entry lies inside the file and reads the value last written for its key, whatever is appended behind |
| `Log.DistinctOffsets` | src/AppendOnlyStore.cpp:295-300 | entries of different keys locate different records |
| `Log.RecordAtOffset` | src/AppendOnlyStore.cpp:295-300 | at the entry's record offset stands a whole SET record of the key with the value last written, and the value offset is that plus 28 and the key size |
| `Recovery.RecoveryCharacterised` | src/AppendOnlyStore.cpp:219-324 | for every byte string: Corruption with the file unchanged, or records plus a torn tail of exactly truncatedBytes, kept bytes, count and index as the records say |
| `Recovery.RefusedIffDamaged` | src/AppendOnlyStore.cpp:255-288 | recovery fails exactly when whole valid records are followed by a complete but wrong header or record |
| `Recovery.RecoveryIdempotent` | src/AppendOnlyStore.cpp:307-323 | a second recovery at the same time finds the same index and cuts nothing |
| `Recovery.TornAppend` | src/AppendOnlyStore.cpp:326-351 | a log whose last record is cut at any byte recovers to the index before the write, or after it when nothing is missing |
| `AppendOnlyStore.WriteRecord` | src/AppendOnlyStore.cpp:130-158 | a valid record adds its encoding and yields its metadata; an invalid one is refused and nothing is written |
| `AppendOnlyStore.AppendOnlyStore.ScanRecord` | src/AppendOnlyStore.cpp:248-288 | reading step by step classifies the bytes at a position as torn, damaged or one whole record |
| `AppendOnlyStore.AppendOnlyStore.RecoverFile` | src/AppendOnlyStore.cpp:219-324 | the scan loop returns recovery's result and leaves the file as recovery says |
| `AppendOnlyStore.AppendOnlyStore.AppendRecord` | src/AppendOnlyStore.cpp:326-367 | appends at the end and returns metadata that locates the new record |
| `AppendOnlyStore.AppendOnlyStore.ReadValueAt` | src/AppendOnlyStore.cpp:369-389 | returns the bytes the metadata names, or Corruption when they extend past the file |
| `AppendOnlyStore.AppendOnlyStore.Compact` | src/AppendOnlyStore.cpp:391-455 | the new file is the encoding of the given records, the index places every key at its last record, sizes are reported, no temporary remains; an invalid record leaves the old file |
| `Damage.HeaderDamageCaught` | src/AppendOnlyStore.cpp:95-128 | one changed header byte outside 7 and 8-15 makes the record damaged |
| `Damage.PayloadDamageCaught` | src/AppendOnlyStore.cpp:284-288 | one changed key or value byte makes the record damaged |
| `Damage.SingleByteDamageCaught` | src/AppendOnlyStore.cpp:284-288 | one changed byte of any record of any log, outside header bytes 7 and 8-15, makes recovery return Corruption and keep the file, whatever follows |
| `Damage.ReservedByteIgnored` | src/AppendOnlyStore.cpp:95-128 | changing the reserved byte of any record leaves recovery's whole result as it was, whatever follows the records |
| `Damage.SizeDamageOutcome` | src/AppendOnlyStore.cpp:255-305 | after any change of a size byte of any record of any log: Corruption exactly when the sizes are out of range, or they fit what remains and the checksum disagrees or something behind is damaged; otherwise what the scan finds, either the earlier records alone or another record in the place of this one and all that follows it |
| `Damage.SizeDamageLooksTorn` | src/AppendOnlyStore.cpp:263-269 | recovery succeeds with just the earlier records exactly when the sizes stay in range and announce more than remains; out of range it is Corruption |
| `Damage.SizeDamageLosesRecord` | src/AppendOnlyStore.cpp:266-269 | a concrete log that loses its only record that way |
| `Damage.SizeDamageChangesValue` | src/AppendOnlyStore.cpp:284-301 | a concrete log in which one size byte becomes zero and recovery succeeds with the key bound to the empty value and 22 bytes cut |
| `Lru.RunValid` | include/minikv/LruCache.h:40-95 | after every operation sequence keys are distinct and the size is at most the capacity, zero included |
| `LruInclusion.Inclusion` | include/minikv/LruCache.h:40-95 | on any common trace the smaller cache is a subsequence of the larger with equal values; more capacity never means fewer hits nor, from a positive capacity, more evictions |
| `LruInclusion.NoCapacityNoEvictions` | include/minikv/LruCache.h:57-59 | with capacity zero the cache stays empty and never evicts, on every trace |
| `LruInclusion.FewerEvictionsIff` | include/minikv/LruCache.h:54-77 | a larger cache evicts at most as often as a smaller one on every trace exactly when the smaller capacity is positive or both are zero |
| `LruRecency.LastIsOldest` | include/minikv/LruCache.h:71-76 | the entry a full cache evicts is the one touched longest ago |
| `LruRecency.StepOrdered` | include/minikv/LruCache.h:40-95 | each list operation is one operation of a time-stamped table, with the same answer to get |
| `LruRecency.RunOrdered` | include/minikv/LruCache.h:40-95 | after every sequence the list is that table sorted by last successful get or put |
| `LruRecency.StepCounted` | include/minikv/LruCache.h:40-77 | a get counts one hit when the table has its key and one miss otherwise; a put counts one eviction when it makes a key leave the table |
| `LruRecency.RunCounted` | include/minikv/LruCache.h:40-77 | after every sequence hits, misses and evictions are those sums over the table, and hits plus misses are the gets |
| `LruRecency.RowsTellTheTrace` | include/minikv/LruCache.h:40-95 | a row of the table has the value of the key's last put, its stamp is the position of the key's last get or put, and the key was neither erased nor cleared away since that put |
| `LruCache.LruCache.StateValid` | include/minikv/LruCache.h:103-113 | the agreement of list and index gives distinct keys within the capacity |
| `LruCache.LruCache.Splice` | include/minikv/LruCache.h:49-64 | moving a node keeps list and index linked and brings its entry to the front |
| `LruCache.LruCache.Get` | include/minikv/LruCache.h:40-52 | list, index and counters take the state of the list operation; the answer is the same |
| `LruCache.LruCache.Put` | include/minikv/LruCache.h:54-77 | same for put, with update in place, insertion, eviction and capacity zero |
| `LruCache.LruCache.Erase` | include/minikv/LruCache.h:79-88 | same for erase, absent keys included |
| `LruCache.LruCache.Clear` | include/minikv/LruCache.h:90-95 | empties list and index and keeps the counters |
| `LruCache.LruCache.Statistics` | include/minikv/LruCache.h:97-101 | reports the size, which is within the capacity, and the counters |
| `Ordering.SortBy` | src/KeyValueStore.cpp:297-299 | a permutation in which no key is followed by a smaller one |
| `Ordering.IncreasingUnique` | src/KeyValueStore.cpp:262-262 | strictly increasing lists with the same members are equal, so the collection order does not show |
| `Compaction.RecordsUnique` | src/KeyValueStore.cpp:284-299 | the sorted live records are determined by the live bindings alone |
| `Compaction.CompactMeaning` | src/AppendOnlyStore.cpp:416-426 | replaying the compacted file gives exactly the bindings it was made from |
| `Compaction.CompactionPreservesMeaning` | src/KeyValueStore.cpp:266-313 | at every later time the new log has the live bindings of the old one, and recovery of it gives the returned index |
| `Compaction.CompactionCanonical` | src/KeyValueStore.cpp:284-301 | two logs compact to the same bytes exactly when their live bindings are the same |
| `Compaction.CompactionIdempotent` | src/KeyValueStore.cpp:284-301 | compacting again changes the bytes exactly when something has expired since |
| `Compaction.CompactionNeverGrows` | src/AppendOnlyStore.cpp:453-453 | the new file is never larger, and as large exactly when every logged record was live |
| `Refinement.TimePasses` | src/Record.cpp:53-56 | waiting, with a clock that does not go back, keeps file, index, cache and timed map in agreement |
| `Refinement.IndexIsRecovery` | src/KeyValueStore.cpp:45-56 | the unexpired part of the index is, metadata included, what recovery of the current file builds at this or any later time |
| `Refinement.EntriesLocateRecords` | src/AppendOnlyStore.cpp:295-300 | each entry locates the last SET of its own key, inside the file, at an offset no other entry has |
| `Refinement.OpenRefines` | src/KeyValueStore.cpp:30-71 | opening a file with or without torn tail restores exactly the live bindings |
| `Refinement.SetLockedStandsOn` | src/KeyValueStore.cpp:137-144 | a SET keeps file, index and cache in agreement and binds its key |
| `Refinement.FetchStandsOn` | src/KeyValueStore.cpp:172-183 | fetching a live key returns the file's value, cached or not, and keeps the agreement |
| `Refinement.GetRefines` | src/KeyValueStore.cpp:148-184 | GET answers as the timed map does, expired keys included |
| `Refinement.RemoveRefines` | src/KeyValueStore.cpp:200-231 | DEL answers and acts as on the timed map |
| `Refinement.SweepStandsOn` | src/KeyValueStore.cpp:343-351 | dropping expired keys leaves exactly the live keys and keeps the agreement |
| `Refinement.KeysRefines` | src/KeyValueStore.cpp:245-264 | KEYS answers the sorted live keys that match (`UserView.KeysSelects` says which those are) and keeps the relation |
| `Refinement.GatheredIsLive` | src/KeyValueStore.cpp:286-295 | every read of a compaction succeeds and together they find exactly the live bindings |
| `Refinement.CompactDoes` | src/KeyValueStore.cpp:266-313 | a compaction succeeds, reports the sizes, and leaves engine, file and index standing on the compacted log with the same live bindings |
| `Refinement.CrashInAppendStandsOn` | src/AppendOnlyStore.cpp:326-351 | a crash at any byte of an append leaves the records before it and a torn tail, or the records after it |
| `Refinement.CrashCompactRefines` | src/AppendOnlyStore.cpp:407-446 | a crash between any two steps of a compaction, or inside its writing, keeps the live bindings |
| `Refinement.CallRefines` | src/KeyValueStore.cpp:30-313 | every call and every crash, at a time not before the last, is a step of the timed map with an answer it allows |
| `Refinement.RunRefines` | src/KeyValueStore.cpp:30-354 | over every run with a clock that does not go back, all answers are the timed map's |
| `Refinement.EndToEnd` | src/KeyValueStore.cpp:30-354 | started on any file that recovery does not refuse, through restarts, crashes, expiry and compaction, the store is the timed map the file described |
| `Refinement.FromEmptyFile` | src/AppendOnlyStore.cpp:196-201 | the same from a newly created file, as the empty timed map |
| `Refinement.IndexIsRecoveryThroughout` | src/AppendOnlyStore.cpp:219-324 | after every run that leaves the store open, recovery of its file would cut nothing and build the unexpired index |
| `Refinement.RefusedStaysClosed` | src/KeyValueStore.cpp:30-48 | on a refused file, through all calls, restarts and crashes, every open with a positive cleanup interval reports Corruption, every operation on the contents reports Closed, and the disk stays as it was |
| `UserView.SetWithoutTtl` | src/KeyValueStore.cpp:128-130 | after a SET without TTL, GET at every time finds the value; every other key answers as before |
| `UserView.SetWithTtl` | src/KeyValueStore.cpp:128-130 | after a SET with TTL, GET finds the value exactly before clock plus TTL; every other key answers as before |
| `UserView.AfterRemove` | src/KeyValueStore.cpp:200-231 | after a DEL, GET finds the key at no time; every other key answers as before |
| `UserView.NothingElseChanges` | src/KeyValueStore.cpp:30-354 | a cleanup, a compaction, closing and reopening, or dying and reopening changes the answer of GET for no key at any later time |
| `UserView.ClosedRefuses` | src/KeyValueStore.cpp:73-86 | once closed, every operation on the contents answers Closed and changes nothing |
| `UserView.Refusals` | src/KeyValueStore.cpp:113-126 | SET, GET, DEL and EXISTS refuse exactly empty keys, keys above 4096 bytes, values above 16 MiB and TTLs that are not positive, and then change nothing |
| `UserView.LessIsPrecedes` | src/KeyValueStore.cpp:262-262 | a key is less exactly when it is a proper prefix or has the smaller byte where the two first differ |
| `UserView.KeysSelects` | src/KeyValueStore.cpp:245-264 | KEYS lists a key exactly when it is live and begins with the prefix, byte by byte; each once, in byte order |
| `UserView.KeysListsAll` | src/KeyValueStore.cpp:258-258 | without a prefix KEYS lists every live key |
| `UserView.CleanupCounts` | src/KeyValueStore.cpp:334-354 | a cleanup drops exactly the keys whose expiry has been reached, and answers and counts how many they were |
| `UserView.OpenCounts` | src/KeyValueStore.cpp:50-57 | opening reports the number of whole records and the bytes by which the file shrank, and no other counter moves |
| `UserView.GetAndCache` | src/KeyValueStore.cpp:158-184 | a GET that finds its key counts one hit if it was cached and one miss if not, and leaves it in front of the cache; any other GET counts neither |
| `UserView.WriteAndCache` | src/KeyValueStore.cpp:142-231 | a SET leaves its binding in front of the cache, a DEL takes its key out, and neither counts a hit or a miss |
| `KeyValueStore.KeyValueStore.Open` | src/KeyValueStore.cpp:30-71 | whole new state and answer are those of `Engine.Open` |
| `KeyValueStore.KeyValueStore.Close` | src/KeyValueStore.cpp:73-86 | whole new state and answer are those of `Engine.Close` |
| `KeyValueStore.KeyValueStore.Set` | src/KeyValueStore.cpp:107-146 | whole new state and answer are those of `Engine.Set`, rejected inputs included; what it makes visible, and until when, is in `UserView.SetWithoutTtl` and `UserView.SetWithTtl` |
| `KeyValueStore.KeyValueStore.Get` | src/KeyValueStore.cpp:148-184 | whole new state and answer are those of `Engine.Get` |
| `KeyValueStore.KeyValueStore.EraseIfExpired` | src/KeyValueStore.cpp:186-198 | erases from cache and index together, only an entry that is expired at the given time, and says whether it did |
| `KeyValueStore.KeyValueStore.Remove` | src/KeyValueStore.cpp:200-231 | whole new state and answer are those of `Engine.Remove` |
| `KeyValueStore.KeyValueStore.Exists` | src/KeyValueStore.cpp:233-243 | answers whether GET would find the key |
| `KeyValueStore.KeyValueStore.EraseExpired` | src/KeyValueStore.cpp:342-351 | erasing while walking in any order drops exactly the expired keys from index and cache |
| `KeyValueStore.KeyValueStore.CleanupExpired` | src/KeyValueStore.cpp:334-354 | whole new state and count are those of `Engine.Cleanup`, which `UserView.CleanupCounts` spells out |
| `KeyValueStore.KeyValueStore.Keys` | src/KeyValueStore.cpp:245-264 | collecting in any order and sorting gives the list that `UserView.KeysSelects` describes |
| `KeyValueStore.KeyValueStore.Gather` | src/KeyValueStore.cpp:284-295 | succeeds exactly when every entry can be read, and then has one record per entry |
| `KeyValueStore.KeyValueStore.Compact` | src/KeyValueStore.cpp:266-313 | whole new state and answer are those of `Engine.Compact`, whatever the walking order |
| `KeyValueStore.SortedRecordsAreUnique` | src/KeyValueStore.cpp:297-299 | sorting the gathered records gives the canonical list |
| `Client.Dispatch` | app/main.cpp:134-205 | each call on the object is the corresponding step of the engine |
| `Client.Serve` | app/main.cpp:126-206 | whatever calls are made on the store object, every response is the timed map's after the calls before it |
| `Concurrency.StepGood` | src/KeyValueStore.cpp:107-313 | every step of every thread keeps file, index, cache, history and each thread's knowledge consistent |
| `Concurrency.ExclusiveRefines` | src/KeyValueStore.cpp:132-145 | a writer's critical section has the effect and the response the timed map allows |
| `Concurrency.ResponseFromFile` | src/KeyValueStore.cpp:159-170 | under the shared lock, what the index and file say of a key is what the timed map says |
| `Concurrency.StepAccounted` | src/KeyValueStore.cpp:107-313 | every step of every thread keeps history entries and calls in one-to-one correspondence, each entry made by its call's thread for its call's operation |
| `Concurrency.Linearizable` | src/KeyValueStore.cpp:148-231 | after any interleaving: the history is a legal sequential run of the timed map, every entry belongs to exactly one call, every call has the response of its own entry, made between its start and its return, calls that do not overlap keep their order, and every cached key is indexed with the value its metadata locates |
| `Concurrency.TwoPhaseExpiryLosesNothing` | src/KeyValueStore.cpp:165-198 | the second phase of an expiry removes at most its own key, only if what is indexed now had expired at the time seen, from cache and index together; live entries stay |
| `CrashAtomicity.CrashAtomic` | src/AppendOnlyStore.cpp:326-455 | killed at any byte of an append or between any steps of a compaction and reopened, the store shows the view before the call, or after it if its last byte was written |
| `CrashAtomicity.LeftoverIgnored` | src/AppendOnlyStore.cpp:219-455 | stores that differ in their leftover temporary file give the same answers to all calls, restarts and crashes, and never differ in anything else |
| `Conservation.CallBalance` | src/KeyValueStore.cpp:142-231 | every call of a session keeps keys plus deletes plus expirations less SETs, except that overwriting an indexed key costs one |
| `Conservation.KeyCountConservation` | src/KeyValueStore.cpp:186-354 | keys plus deletes plus expirations are at most recovered keys plus SETs, with equality exactly when no SET hit an indexed key |
| `Statistics.CountersMatchAnswers` | src/KeyValueStore.cpp:144-309 | over every run of one process the get, set, delete and compaction counters grow by exactly the number of answers of their kind |
| `ClockGoingBack.EarlierRead` | src/KeyValueStore.cpp:158-170 | a GET at any time answers as the records demand exactly unless its key has been dropped from the index and would be visible then |
| `ClockGoingBack.SweepSees` | src/KeyValueStore.cpp:342-351 | a sweep at a time drops exactly what had expired at that time |
| `ClockGoingBack.CompactSees` | src/KeyValueStore.cpp:266-313 | so does a compaction |
| `ClockGoingBack.OpenSees` | src/AppendOnlyStore.cpp:292-293 | so does an opening |
| `ClockGoingBack.EarlierCall` | src/KeyValueStore.cpp:158-220 | after any of the three at time u, GET and DEL at time t answer as the records before it demand exactly unless the key's binding expires after t and not after u; then DEL changes nothing |
| `ClockGoingBack.DeleteLost` | src/KeyValueStore.cpp:210-220 | such a DEL is lost: reopened at the same earlier time, the store shows the key again |
| `ClockGoingBack.SweptKeyStaysAway` | src/KeyValueStore.cpp:343-351 | an instance: after a sweep, a read at an earlier time misses a key it would have found |
| `Tokenizer.TokenizeLoop` | src/CommandParser.cpp:55-120 | the four-variable loop computes the tokenizer, with its three failures |
| `Tokenizer.TokenizeComposes` | src/CommandParser.cpp:63-119 | a text that tokenizes, white space and any further text give the tokens of both, and fail exactly if the further text does |
| `Tokenizer.TokenizePrinted` | src/CommandParser.cpp:55-120 | printing tokens quoted and escaped, or bare where possible, and tokenizing gives back every list, empty strings included |
| `Tokenizer.WhiteSpaceSeparates` | src/CommandParser.cpp:94-101 | each of the six white-space characters between two texts separates their tokens |
| `Tokenizer.OneWord` | src/CommandParser.cpp:94-105 | any text without a quote and without those six characters is one token |
| `Tokenizer.EscapeOutcome` | src/CommandParser.cpp:64-84 | inside quotes a backslash with n, t, a quote or a backslash stands for line feed, tab or that character; with any other character the line is refused |
| `Tokenizer.UnfinishedQuote` | src/CommandParser.cpp:107-114 | a line that ends inside quotes or inside an escape is refused |
| `CommandParser.TtlOfDecimal` | src/CommandParser.cpp:29-41 | the decimal numeral of an in-range positive number of seconds parses to that many milliseconds |
| `CommandParser.ParsePrinted` | src/CommandParser.cpp:122-237 | printing and parsing a command gives the command back |
| `CommandParser.AcceptedIffCanonical` | src/CommandParser.cpp:122-237 | a command is the result of parsing some text exactly when its unused fields are empty and its TTL is a positive whole number of seconds in range |
| `CommandParser.CaseIgnored` | src/CommandParser.cpp:21-27 | replacing the command name, or the word TTL, by a text equal up to ASCII case never changes the result |
| `CommandParser.TtlIff` | src/CommandParser.cpp:29-41 | a TTL is accepted exactly when it is a decimal numeral, leading zeros allowed, of 1 to 9223372036854775 seconds, and then means a thousand milliseconds each |
| `CommandParser.TtlInstances` | src/CommandParser.cpp:29-41 | "10" and "007" are accepted; the empty text, "0", "-5", "+5" and "5s" are not |
| `CommandParser.ParsesIffDenotes` | src/CommandParser.cpp:122-237 | a token list parses to a command exactly when its first word is one of the command's words, DELETE and QUIT included, in any case, the number of tokens fits, and key, value and TTL are the tokens after it |
| `CommandParser.RefusedIff` | src/CommandParser.cpp:122-237 | a token list is refused exactly when it is empty, names no command, has the wrong number of tokens, or is a SET with a wrong TTL word or number |
| `CommandParser.NameInAnyCase` | src/CommandParser.cpp:134-237 | a printed command parses back with any of its words, in any case, quoted or bare |

## Left out

- File system errors (open, create, seek, flush, resize, rename) and what happens after a reported write error: the source does not roll partial bytes back, so nothing useful is decided there.
- Power loss: the project does not claim to survive it (`README.md:200`).
- The cleaner thread's timing and `close` racing with calls in progress: cleaning is a step that may come at any time, closing a call of its own.
- KEYS under interference: other threads may act between its cleanup and its listing; the listing is proved for a call that runs alone. EXISTS is GET with another answer.
- Memory ordering of the atomic counters and the non-atomic snapshot of `statistics()`.
- Status texts, `Result` plumbing, `hitRate`, the benchmark, and the option parsing and printing of `app/main.cpp`.
- A read that comes back short while recovery scans: the file does not change under the scan.
- Codec.PutField, Codec.GetField: one method with a width parameter stands for the 16-, 32- and 64-bit versions; shifts and masks are divisions and remainders by powers of 256, and or-ing disjoint bytes is addition.
- LruCache.LruCache.Splice: list nodes are objects whose identity the index keeps, but the list itself is a sequence of them rather than linked pointers.
- KeyValueStore.KeyValueStore.Open: the start of the cleaner thread and the failure to start it are not modelled; cleaning is a call of its own.
- KeyValueStore.KeyValueStore.Close: stopping and joining the cleaner thread are not modelled, for the same reason.
- KeyValueStore.KeyValueStore.Set: an I/O failure of the append and the second check of `isOpen` under the lock are not modelled; a method runs alone and its writes complete.
- KeyValueStore.KeyValueStore.Remove: an I/O failure of the append is not modelled.
- Client.Dispatch: the cases STATS and HELP and the printed replies are not modelled, because they only format what the store returns.
- Client.Serve: takes calls instead of input lines; how a line becomes a command is the subject of `CommandParser`.
- Tokenizer.TokenizeLoop: characters are Dafny characters; only the C locale's white space and ASCII upper-casing are modelled.
