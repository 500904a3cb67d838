# A verified model of the storage engine's durable write path

The storage engine is an embedded key-value store: a write-ahead log, a sharded in-memory table, and a
group-commit protocol that writes and syncs the log through io_uring.  This project models that write path
in Dafny, from single bits of the checksum up to the whole engine under crashes, and proves what it
promises.

| file | what it models |
|---|---|
| `Sequences.dfy` | subsequences |
| `Words.dfy`, `Bytes.dfy` | machine words as numbers with digit-wise xor and and; little-endian fields |
| `Crc32c.dfy` | CRC32C as the bit-serial register of section 12.1 of RFC 3720; the table-driven and the chunked loop; burst detection |
| `WalFormat.dfy`, `WalTheorems.dfy` | the bytes of a log record, the meaning of a byte string read as a log, and the laws between the two |
| `WalLayout.dfy` | the format byte by byte, and what each kind of damage is reported as |
| `WalEncoder.dfy`, `WalDecoder.dfy` | the two encoders and the scanner as the loops they are |
| `TableModel.dfy`, `MemTable.dfy` | the table as one map and as sixteen shards updated in place |
| `ShardLocks.dfy` | the apply as single slot writes under shard locks, with readers in between |
| `Store.dfy`, `StoreRuns.dfy`, `StoreExamples.dfy` | one database and its file as a state machine with failures, crashes and reopens |
| `Db.dfy` | `writeGroup` and `recover` as methods on a database object |
| `GroupCommit.dfy`, `CommitQueue.dfy` | the group-commit protocol as a state machine, and its locked regions as methods |
| `Engine.dfy` | the protocol driving the store |
| `Server.dfy` | the two objects together: a client's whole call, the writer thread's whole turn |
| `Ring.dfy` | the submission and completion rings with 32-bit counters that wrap |

The main results:

- **Crash recovery.**  Over every run of successful and failed groups, process deaths, power losses and
  reopens whose crashes are safe, opening never fails, and the log lies between what was acknowledged and what
  was submitted: no acknowledged group is lost, altered or moved, and none is invented, doubled or reordered
  (`StoreRuns.SafeRunsRecover`; the engine with all its threads: `Engine.SafeRunsKeep`).  A crash is safe when
  what it keeps ends inside the log, or when the bytes it keeps past the log are ones a scan passes over,
  after the whole attempted record if that is there.  Exactly after the safe crashes the database opens with
  all its invariants and nothing that was not submitted (`Store.SafeIff`), the attempted group coming back
  exactly if all its bytes survived (`Store.SafeCrashRecovers`).  All crashes are safe as long as no group
  starts over bytes left by a failed one (`StoreRuns.CleanRunIsSafe`).
- **The engine's promise.**  For a writer told Ok, the very record its group was written as stays in its place
  in the log, synced, with the writer's batch in its place inside, and nothing gets into the log that no
  writers handed in (`Engine.ToldOkSurvives`).  The log since
  opening is the batches of the writers told Ok in the order they arrived (`Engine.LogIsArrivalOrder`).
  Readers see only that (`Engine.ReadersSeeDurable`), and left alone the engine finishes within a bound and
  tells everyone (`Engine.EveryRunFinishes`).
- **The fast forms are the simple ones.**  Both CRC loops compute the bit-serial register; both encoders
  produce the same bytes; the scanner computes `Scan`; the sharded apply is one map updated in order.

Where the source and its documentation disagree the model follows the source, and the point is proved:

- The design document says that every write that returned success is visible after recovery.  A failed group
  leaves its bytes past the write offset, and a later, shorter group does not cover them.  The next opening
  reads the log and goes on into what is left.  Two things can go wrong.  The file may not open
  (`StoreExamples.LeftoverBreaksRecovery`): it opens, with all of the log, if and only if the bytes left are
  harmless (`Store.LogComesBackIff`).  Or it opens with a record made of what is left, which can hide an
  acknowledged write (`StoreExamples.LeftoverIsReplayed`): it opens with the log, the attempted group at most,
  and nothing else if and only if that is what the bytes left decode to (`Store.NothingInventedIff`).  Both
  can be told before the later group is written, from the file and the size of its record: after it, exactly
  the log comes back if and only if the bytes it does not cover are ignorable, and a record that covers all of
  them makes the file clean again (`StoreRuns.CommitOverLeftovers`).
- `recover` syncs the file only when it truncates.  A group whose process died between write and sync comes
  back, is read by clients, and can still be lost with the power (`StoreExamples.VisibleThenLost`).  The log
  survives every loss of power exactly when it is synced and every cut of what stands past it is harmless
  (`StoreRuns.SurvivesIff`); with nothing left over by failures, exactly when it is synced
  (`StoreRuns.SurvivesIffSynced`).
- A batch is not seen atomically by readers of several keys.  What they get, over all interleavings of reads
  with the slot writes of the apply, is as if it took effect at one instant exactly when the keys for which it makes a difference fall in one shard
  (`ShardLocks.Group.RunsSeeAtOnceIff`).
- The stop flag alone lets the writer thread start a group while an inline write is in progress
  (`GroupCommit.ShutdownRace`); no other step can break exclusion (`GroupCommit.ExclusionBreaksIff`).

The environment enters as data.  A hash function is a parameter.  A write lands as any byte prefix of its
record, growing until it is complete or fails; a sync makes the file durable; a loss of power keeps any byte
prefix from the durable part on; a process death keeps the file.  The single read of recovery returns the
whole file.  Steps between lock regions, notifications and waits interleave freely.  Groups are written only
if their payload fits in 32 bits and sequence numbers stay below 64 bits, which is what the casts of the
source need.

## Model

| member | source | states |
|---|---|---|
| `Bytes.FromLEOfLE` | src/common.h:20-66 | reading back a fixed-width field gives the value modulo the field's range |
| `Bytes.LEOfFromLE` | src/common.h:20-66 | writing what was read gives the same bytes |
| `Bytes.AppendFixedLE` | src/common.h:20-30 | appends exactly the little-endian bytes of the value |
| `Bytes.WriteFixedLE` | src/common.h:32-42 | changes exactly the field at the offset, to the little-endian bytes |
| `Bytes.ReadFixedLE` | src/common.h:44-66 | fails exactly when the field does not fit, else yields its value and advances past it |
| `Crc32c.RegisterConcat` | src/wal.cc:139-160 | extending over pieces is extending over their concatenation |
| `Crc32c.FeedBitLinear` | src/wal.cc:32-35 | one clock of the register is linear in register and input |
| `Crc32c.LookupStep` | src/wal.cc:43-49 | folding n bits in and one lookup is n clocks, for every n |
| `Crc32c.TableStep` | src/wal.cc:45-46 | one step of the byte loop is eight clocks of the bit-serial register |
| `Crc32c.MaskedClock` | src/wal.cc:33-34 | the branch-free clock with the 0 - (crc and 1) mask is the branching one |
| `Crc32c.MakeTableEntry` | src/wal.cc:31-36 | an entry is its index after eight clocks of the register |
| `Crc32c.MakeCrc32cTable` | src/wal.cc:28-39 | the table holds every index after eight clocks |
| `Crc32c.ExtendCrc32cSoftware` | src/wal.cc:43-49 | the byte loop computes the bit-serial register, for every start and input |
| `Crc32c.BitsOfLoad` | src/wal.cc:57-72 | a little-endian load presents the bits of its bytes in feeding order |
| `Crc32c.FeedChunk` | src/wal.cc:57-77 | one chunk extends the register over the bytes of the chunk |
| `Crc32c.ExtendCrc32cHardware` | src/wal.cc:52-79 | the 8/4/1-byte loop computes the same register for every length |
| `Crc32c.ComputeCrc32C` | src/wal.cc:104-112 | the checksum is CRC32C whatever the processor supports |
| `Crc32c.CheckValue` | src/wal.cc:34-34 | check values of CRC32C as literals, which leave no choice of polynomial, initial value, complement or bit order |
| `Crc32c.FeedBitsInjective` | src/wal.cc:43-49 | different registers stay different under equal input |
| `Crc32c.WindowSeparates` | src/wal.cc:43-49 | two different windows of up to 32 bits drive one register to different states |
| `Crc32c.BurstDetected` | src/wal.cc:104-112 | any change confined to 32 consecutive bits changes the checksum |
| `Crc32c.ByteBurstDetected` | src/wal.cc:104-112 | any change confined to four consecutive bytes changes the checksum |
| `WalTheorems.ParseEntryUndoes` | src/wal.cc:239-268 | parsing an encoded entry in front of anything gives the entry and its size |
| `WalTheorems.ParsePayloadUndoes` | src/wal.cc:231-268 | parsing an encoded payload gives base sequence and entries in order |
| `WalTheorems.FrontUndoes` | src/wal.cc:205-272 | an encoded record in front of anything is read back as itself |
| `WalTheorems.RoundTrip` | src/wal.cc:173-276 | decoding any concatenation of encoded groups gives them back, all bytes valid |
| `WalTheorems.TornRecord` | src/wal.cc:205-218 | a proper prefix of a record is neither a record nor corruption |
| `WalTheorems.WholeRecordsIsMaximal` | src/wal.cc:270-272 | k records fit in n bytes if and only if k is at most the count of whole records |
| `WalTheorems.TornLog` | src/wal.cc:201-276 | decoding any byte prefix of a log gives exactly the records it wholly contains |
| `WalTheorems.ScanIsStable` | src/wal.cc:201-276 | on every byte string: the valid part is within the input and scans to the same result |
| `WalTheorems.ExactIffIgnorable` | src/wal.cc:205-229 | bytes after a well-formed log leave its decoding exact if and only if they are too short, shorter than claimed, or a last record with a wrong checksum |
| `WalTheorems.ScansIffHarmless` | src/wal.cc:205-272 | a byte string scans without corruption if and only if, guard by guard, every record in it is whole and parses and only a last one fails its checksum |
| `WalTheorems.AlteredPayload` | src/wal.cc:223-229 | a payload changed within 32 bits is never replayed: corruption in the middle, a stop in front of it at the end |
| `WalLayout.FieldBytes` | src/common.h:20-24 | a 32-bit field is its four bytes, least significant first |
| `WalLayout.WideFieldBytes` | src/common.h:26-30 | a 64-bit field is two 32-bit fields, the low half first |
| `WalLayout.EntryLayout` | src/wal.cc:186-194 | a put is 1, both lengths, key, value; a deletion is 2, the key's length, a zero length, the key |
| `WalLayout.RecordLayout` | src/wal.cc:178-198 | a record is checksum and length of the payload, 1, and the payload: base sequence, entry count, entries |
| `WalLayout.RecordExample` | src/wal.cc:173-276 | a record of one put and one deletion byte for byte, in both directions |
| `WalLayout.EntryTypes` | src/wal.cc:261-267 | on reading, 1 is a put, 2 a deletion whatever value it carries, anything else corruption |
| `WalLayout.TornEntry` | src/wal.cc:240-252 | a cut entry is reported by where it was cut: nothing there, inside the header, inside key or value |
| `WalLayout.PayloadLength` | src/wal.cc:231-268 | a payload shorter than it announces is corrupt, with its own error inside the header; one that is longer is read without its end |
| `WalLayout.CheckedPayload` | src/wal.cc:223-272 | under a matching checksum a record is replayed or corrupt wherever it stands, never passed over |
| `WalLayout.ForeignRecord` | src/wal.cc:216-221 | a record of unknown type is corrupt when whole, whatever its checksum, and a torn tail when not |
| `WalEncoder.CountEntries` | src/wal.cc:94-100 | the number of entries modulo 2^32 |
| `WalEncoder.EncodedBatchSize` | src/wal.cc:114-122 | the length of the encoded record |
| `WalEncoder.EncodeBatchInto` | src/wal.cc:173-199 | the contiguous encoder yields exactly the record's bytes, for all sizes |
| `WalEncoder.AppendIovec` | src/wal.cc:84-92 | the gathered bytes grow by exactly the piece, empty pieces included |
| `WalEncoder.GatherFrame` | src/wal.cc:169-170 | changing the buffer outside a piece does not change what is gathered from it |
| `WalEncoder.EncodedBatchFragments.AppendEntry` | src/wal.cc:148-165 | header, key and value of an entry are listed in order, earlier buffer bytes and pieces untouched, the checksum extended over them |
| `WalEncoder.EncodedBatchFragments.EncodeBatchFragmentsInto` | src/wal.cc:124-171 | read through the buffer after the header is patched, the pieces gather to exactly the bytes of the contiguous record; their number is one and one for every header, non-empty key and non-empty value |
| `WalDecoder.DecodeEntry` | src/wal.cc:239-268 | one pass of the entry loop is ParseEntry, with the same errors |
| `WalDecoder.DecodePayload` | src/wal.cc:231-268 | the entry loop is ParsePayload, with the same errors |
| `WalDecoder.DecodeRecord` | src/wal.cc:206-268 | one pass of the record loop tells stop, corruption and whole record apart |
| `WalDecoder.DecodeLog` | src/wal.cc:201-276 | on every byte string the loop terminates within bounds and computes Scan |
| `TableModel.ShardedApply` | src/memtable.cc:28-56 | applying a shard's bucket is applying everything and looking at that shard, for any hash |
| `TableModel.EmptyBucketKeepsPart` | src/memtable.cc:40-42 | passing over an empty bucket is right: that shard's part does not change |
| `TableModel.ShardOfKey` | src/memtable.cc:75-75 | sixteen shards, by the remainder of the hash |
| `TableModel.KeysOfApplyAll` | src/memtable.cc:46-54 | the keys of the table are the keys ever written, tombstones included |
| `TableModel.KeyIsAtomic` | src/memtable.cc:13-21 | at a cut between two shards a key reads as before the whole group or as after it |
| `TableModel.SlotAfter` | src/memtable.cc:46-54 | touched keys carry a sequence number of the group, untouched keys keep their slot |
| `TableModel.NumberedWraps` | src/memtable.cc:27-36 | entries are numbered from the base on, modulo 2^64 |
| `TableModel.SeenAtOnceIff` | src/memtable.cc:38-56 | any sequence of reads made during an apply is as if the group took effect at one instant, if and only if the keys it changes for readers share a shard |
| `TableModel.HalfAppliedExample` | src/memtable.cc:38-56 | two puts to different shards can be seen half applied |
| `ShardLocks.Group.ShardsKept` | src/memtable.cc:38-56 | with slots written one by one under the shard lock, all shards but the locked one are at a cut |
| `ShardLocks.Group.HeldReadIsAtCut` | src/memtable.cc:14-17 | whoever holds a shard's lock for reading reads its key as at a cut |
| `ShardLocks.Group.StepKeepsInv` | src/memtable.cc:13-56 | every lock, slot write, unlock and read keeps exclusion, the cut and the history of reads |
| `ShardLocks.Group.EveryReadIsAtomic` | src/memtable.cc:13-56 | in every run a read returns the key's value before or after the whole group, never one from inside, and a key switches once |
| `ShardLocks.Group.ResultsAreCuts` | src/memtable.cc:13-56 | what the reads of a run returned is what their keys held at the cuts at which they were made |
| `ShardLocks.Group.RunsSeeAtOnceIff` | src/memtable.cc:13-56 | over all runs, the values returned to readers of several keys are as if the group took effect at once, if and only if its changes share a shard |
| `ShardLocks.Group.RefinesStore` | src/memtable.cc:38-56 | slot by slot the apply is the store's apply shard by shard: only finishing a shard changes what can be read |
| `TableModel.ReplayIsWrites` | src/db.cc:292-298 | replaying records one by one is applying all their writes in order |
| `TableModel.WritesIncrease` | src/db.cc:326-357 | in an ordered log sequence numbers strictly increase from write to write |
| `TableModel.SlotsHoldHighestWrites` | src/memtable.cc:46-54 | though slots are overwritten unchecked, each holds its key's highest-numbered write |
| `MemTable.MemTable.Get` | src/memtable.cc:13-21 | the lookup depends on the key's own shard only: if that is its part of a table the result is the key's value there; tombstones read as absent |
| `MemTable.MemTable.Distribute` | src/memtable.cc:27-36 | every shard's list holds that shard's updates, numbered and in order |
| `MemTable.ApplyPending` | src/memtable.cc:46-54 | the critical section of one shard applies its updates in order |
| `MemTable.MemTable.ApplyShard` | src/memtable.cc:38-56 | one shard moves from before to after in one step and its list is empty again |
| `MemTable.MemTable.ApplyBatches` | src/memtable.cc:23-57 | the shards hold the map that applying the entries in order gives; the scratch is empty again |
| `MemTable.MemTable.CountEntries` | src/memtable.cc:67-71 | the entry count is the number of distinct keys |
| `Store.NextAfterIsFresh` | src/db.cc:291-299 | reopening continues past every sequence number used, with a gap of one |
| `Store.NextAfterWraps` | src/db.cc:297-299 | the next sequence number with 64-bit wrap-around, and never 0 |
| `Store.OpenOfNothing` | src/db.cc:274-276 | opening an empty file is the fresh database |
| `Store.StepKeepsInv` | src/db.cc:269-368 | every step of writing, failing, applying, advancing, and every safe crash, keeps file, sequence, table and acknowledgement invariants |
| `Store.OpenPrefix` | src/db.cc:269-311 | a byte prefix of an encoded log opens to exactly the records it wholly contains |
| `Store.CrashRecovers` | src/db.cc:269-368 | from every clean state any crash is recovered from, to every synced group and the attempted one only if whole |
| `Store.ScanAfterCrash` | src/db.cc:269-311 | opening what a crash kept reads the log and goes on exactly as the bytes past it do |
| `Store.LogComesBackIff` | src/db.cc:348-350 | at every cut past the log, the file opens with all of the log if and only if the bytes past it are harmless |
| `Store.ReopenExactIff` | src/db.cc:348-350 | at every cut past the log, opening gives exactly the log if and only if the bytes past it are ignorable |
| `Store.NothingInventedIff` | src/db.cc:348-350 | at every cut past the log, opening gives the log or the log and the attempted group, and nothing else, if and only if the bytes past it decode to nothing or to that group |
| `Store.GenuineScans` | src/wal.cc:205-229 | bytes a scan passes over, after the whole attempted record or not, scan to that record exactly if it is there |
| `Store.OnlyGenuine` | src/wal.cc:205-229 | nothing else scans to the attempted record, as encoded, or to nothing |
| `Store.CleanIsSafe` | src/db.cc:313-368 | with nothing in the file but the log and a prefix of the attempted record, every crash is safe |
| `Store.CrashPastLog` | src/db.cc:269-311 | after a safe crash past the log the log comes back, the attempted record exactly if it is whole, the rest is cut off, and nothing known as synced is forgotten |
| `Store.CrashInsideLog` | src/db.cc:269-311 | after a crash inside the log its whole records before the cut come back, all synced ones among them |
| `Store.SafeCrashRecovers` | src/db.cc:269-311 | from every reachable state a safe crash is recovered from: acknowledged groups are where they were, and nothing else comes back than the log and the attempted group, that one exactly if whole |
| `Store.SafeIff` | src/db.cc:269-311 | the database opens to a state with all its invariants and nothing that was not submitted if and only if the crash was safe |
| `Store.StepKeepsClean` | src/db.cc:313-368 | a step other than starting a group over leftovers keeps the file clean |
| `StoreRuns.SafeRunsRecover` | src/db.cc:269-368 | over every run of successful and failed groups with safe crashes, opening always succeeds, the invariants hold, and the log holds every acknowledged group in its place and only submitted groups, in order |
| `StoreRuns.CleanRunIsSafe` | src/db.cc:269-368 | runs in which no group starts over leftovers are such runs, whatever byte prefix each crash keeps |
| `StoreRuns.WritesMayBeLost` | src/db.cc:344-350 | until synced, what has landed of a group may be lost again up to any byte, also where it was written over synced leftovers |
| `StoreRuns.CleanRunsRecover` | src/db.cc:269-368 | so over them too opening always succeeds and the log lies between acknowledged and submitted groups; the file stays clean |
| `StoreRuns.CommitOverLeftovers` | src/db.cc:345-357 | after a group succeeds over leftovers, reopening reads the log and then what its record did not cover: it opens iff that is harmless, with exactly the log iff that is ignorable, and the file is clean again iff the record covers everything |
| `StoreRuns.UncoveredOfFailure` | src/db.cc:348-350 | what a shorter record leaves of a failed one is the end of what had landed |
| `StoreRuns.CommittedKeepsInv` | src/db.cc:313-368 | the invariant holds after a successful group |
| `StoreRuns.FailedKeepsInv` | src/db.cc:348-350 | and after a failed one, whatever landed |
| `StoreRuns.CrashRecovery` | src/db.cc:269-368 | from an empty directory: what the run acknowledged is a subsequence of the synced log, and the log with the attempt a subsequence of what the run submitted |
| `StoreRuns.MemtableEqualsLog` | src/db.cc:313-368 | at the end of every such run the bytes below the offset are the encoded log and decode to it, and between groups the shards are the replay of it: value, tombstone and sequence of every key |
| `StoreRuns.DurableBeforeVisible` | src/db.cc:345-357 | in every state a reader of any key sees only groups whose bytes are all in the file, and durable ones, but for a log whose end was found at opening and is not known to be synced |
| `StoreRuns.AcknowledgedIsDurable` | src/db.cc:345-357 | when a group reports success it is in the log, synced, and applied for every key |
| `StoreRuns.SurvivesIff` | src/db.cc:300-309 | in every reachable state the log survives every loss of power if and only if it is synced and every cut past it is harmless, and survives with nothing invented if and only if every cut decodes to nothing or the attempted group |
| `StoreRuns.SurvivesIffSynced` | src/db.cc:300-309 | with nothing left over by failures, if and only if it is synced |
| `StoreRuns.ReopenIsIdempotent` | src/db.cc:286-310 | on every byte string that opens, opening again gives the same file, log, table and next sequence |
| `StoreRuns.SequenceFreshness` | src/db.cc:292-299 | across reopens sequence numbers increase along the log, the next is above all, each slot holds the highest write |
| `StoreRuns.CommitRun` | src/db.cc:313-368 | the steps of a successful group, shard by shard, have exactly the effect of Committed |
| `StoreRuns.FailRun` | src/db.cc:348-350 | the steps of a failed group change only the file past the offset |
| `StoreExamples.LeftoverBreaksRecovery` | src/db.cc:348-350 | a failed longer put, then a shorter acknowledged delete: the file no longer opens |
| `StoreExamples.LeftoverIsReplayed` | src/db.cc:348-350 | a failed put whose value reads as a record, then an acknowledged delete: the file opens with that record replayed, and the delete is not what is read |
| `StoreExamples.LookupLast` | src/memtable.cc:46-54 | the last record that writes a key decides what it reads as: the value put, or nothing after a deletion |
| `StoreExamples.VisibleThenLost` | src/db.cc:300-309 | a replayed but unsynced group is visible and can be lost |
| `Db.Db.EncodeGroup` | src/db.cc:331-342 | the list handed to the kernel has at most 1024 pieces, one if the fragments are more, and gathers to the record |
| `Db.Db.WriteLog` | src/db.cc:344-350 | success is reported exactly if the device has synced all of the record; a write that was not submitted, fell short or failed to sync is an error |
| `Db.Db.WriteGroup` | src/db.cc:313-368 | a group takes the database to Committed exactly if the device has synced it, else to Failed |
| `Db.Db.ReplayRecords` | src/db.cc:291-298 | replaying the decoded records one by one gives the table of the log and its highest record end |
| `Db.Db.Recover` | src/db.cc:269-311 | recovery fails exactly on a corrupt file, else rebuilds exactly the database that Open describes |
| `Db.Restart` | src/db.cc:269-311 | a new process over any surviving prefix fails to open exactly when the bytes past the log are not harmless, else has every acknowledged group, and after a safe crash a valid database with nothing that was not submitted |
| `GroupCommit.ExclusionBreaksIff` | src/db.cc:208-213 | exclusion is broken by exactly one step: the stop flag with an inline write in progress and writers queued |
| `GroupCommit.OwnedKept` | src/db.cc:175-200 | the writing flag says whether there is an owner, and there is at most one |
| `GroupCommit.OrderKept` | src/db.cc:173-265 | arrived writers are finished, then in flight, then queued, in that order |
| `GroupCommit.AttendedKept` | src/db.cc:74-82 | a queued writer always has an owner, a runnable writer thread or an owed notification; the thread exits only with an empty queue |
| `GroupCommit.CountedKept` | src/db.cc:191-199 | the counters account for every writer and group, the maximum is the largest finished group |
| `GroupCommit.LargestIsMaximum` | src/db.cc:193-193 | the recorded maximum is the size of some finished group and none is larger |
| `GroupCommit.ToldKept` | src/db.cc:239-252 | exactly the writers of finished groups have a status, that of their group |
| `GroupCommit.StatusIsFinal` | src/db.cc:239-252 | a status once given never changes |
| `GroupCommit.StepKeepsInv` | src/db.cc:173-265 | every step of clients, writer thread and destructor keeps all of these |
| `GroupCommit.InternalStepsEnd` | src/db.cc:204-265 | every step that needs no new call leaves strictly less work |
| `GroupCommit.QuietMeansServed` | src/db.cc:204-265 | when nothing is left to do every writer that arrived has its status |
| `GroupCommit.EveryRun` | src/db.cc:173-265 | in every run: commit order is arrival order and accepted writers are finished plus in flight plus queued |
| `GroupCommit.EveryRunFinishes` | src/db.cc:173-265 | left alone, any schedule ends within a bound and then nobody is stranded |
| `GroupCommit.ShutdownRace` | src/db.cc:74-82 | a destructor during an inline write lets two groups run at once |
| `CommitQueue.CommitQueue.Enqueue` | src/db.cc:173-187 | the enqueue region is the Arrive step; not suspended means sole owner of the log, suspended means last in the queue with the writer thread awake |
| `CommitQueue.CommitQueue.FinishInlineWrite` | src/db.cc:192-199 | the writer gets its first status, no other changes, nothing is in flight any more |
| `CommitQueue.CommitQueue.TakeQueue` | src/db.cc:229-232 | the draining loop moves the whole queue into the group, in order |
| `CommitQueue.CommitQueue.CheckQueue` | src/db.cc:208-233 | the thread goes on only when nobody writes, as sole owner, with the whole non-empty queue; it leaves only when stopped with an empty queue |
| `CommitQueue.CommitQueue.FinishGathering` | src/db.cc:225-233 | everyone queued by the end of the wait is the group, non-empty and the only one in flight |
| `CommitQueue.CommitQueue.TellGroup` | src/db.cc:242-247 | the loop gives every writer of the group the status |
| `CommitQueue.CommitQueue.FinishGroupWrite` | src/db.cc:239-252 | each writer of the group gets its first status, that of the group; all other statuses stay; nothing is in flight any more |
| `CommitQueue.CommitQueue.SetStop` | src/db.cc:74-78 | the destructor's region is the RequestStop step, with no inline write in progress and nobody's place or status changed |
| `Server.Server.CommitGroup` | src/db.cc:235-252 | the writer thread's turn writes the group and tells it: one more record and Ok for exactly this group, or the log as it was and an error, with the engine's invariant |
| `Server.Server.WriteInline` | src/db.cc:188-199 | the inline path past the first region writes its one writer and tells it, clients arriving in between queueing up |
| `Server.Server.QueueOthers` | src/db.cc:173-187 | clients that arrive during an inline write are all queued, in order |
| `Server.Server.Write` | src/db.cc:173-202 | a whole call either queues the writer and touches nothing, or writes and tells it while all who arrive before and after the write queue behind it in order |
| `Engine.StepKeepsInv` | src/db.cc:173-368 | with protocol and store composed, every step keeps both and their link: one log record per successful group, in order |
| `Engine.GroupCanGoOn` | src/db.cc:313-368 | a group in flight always has a step that takes it towards success |
| `Engine.InternalStepsEnd` | src/db.cc:204-368 | every step of threads and device that does something leaves strictly less work, in queue, unlanded bytes and shards |
| `Engine.QuietMeansServed` | src/db.cc:204-368 | when the engine has nothing left to do every writer that arrived has been told |
| `Engine.EveryRunFinishes` | src/db.cc:173-368 | left alone, any schedule of threads and device ends within a bound and then nobody is stranded |
| `Engine.GroupDoneInv` | src/db.cc:313-368 | the engine's invariant holds after a group of either outcome, which is recorded as the next finished group |
| `Engine.GroupCanSucceed` | src/db.cc:313-368 | from every reachable start of a group there is a run that logs it as one record and tells it Ok |
| `Engine.GroupCanFail` | src/db.cc:345-350 | and, for every number of landed bytes, one that leaves the log as it was and tells it an error |
| `Engine.FirstWrite` | src/db.cc:173-200 | from an empty directory the first writer can be told Ok with its batch as the log |
| `Engine.BatchStands` | src/db.cc:320-324 | in its group's record a writer's batch stands right behind those of the writers before it |
| `Engine.RecordsDiffer` | src/db.cc:326-357 | different successful groups have different records, in the order they finished |
| `Engine.ToldOkIsRecorded` | src/db.cc:191-199 | a group told Ok has its own record in its place in the log, and the log is synced |
| `Engine.LogIsArrivalOrder` | src/db.cc:173-265 | the log since opening is the batches of the writers told Ok in arrival order, nothing else |
| `Engine.ReadersSeeDurable` | src/db.cc:345-357 | in every interleaving a reader sees what was found at opening, the groups told Ok and at most the synced group in flight; durable, unless it is just what was found |
| `Engine.SafeRunsKeep` | src/db.cc:173-368 | over every run of the whole engine with safe crashes, opening always succeeds, the invariants hold, and across reopens the log holds every acknowledged group in its place and only groups that were started, in order |
| `Engine.CleanRunIsSafe` | src/db.cc:173-368 | runs in which no group starts over leftovers are such runs |
| `Engine.ToldOkSurvives` | src/db.cc:173-368 | after any such run following an Ok, the group's own record is in its place, unchanged and synced, the writer's batch in its place inside; the log holds only what it held or what was started since; the table is its replay |
| `Engine.EveryRun` | src/db.cc:173-368 | from an empty directory: acknowledged groups are a subsequence of the durable log, the log of the groups that were started |
| `Ring.WrappedSlot` | src/io/uring_executor.cc:124-124 | a wrapped counter masks to the slot of the position it counts |
| `Ring.SlotsDiffer` | src/io/uring_executor.cc:117-128 | positions less than a ring size apart have different slots |
| `Ring.SubmissionRing.NextSlotIsFree` | src/io/uring_executor.cc:117-128 | the slot about to be filled holds no entry the kernel has yet to take |
| `Ring.SubmissionRing.Occupancy` | src/io/uring_executor.cc:117-122 | the 32-bit difference of the tail and a head loaded earlier is the number of entries past that head and at most the capacity |
| `Ring.SubmissionRing.SubmitRaw` | src/io/uring_executor.cc:114-129 | with the kernel moving on after the load of the head: refuses exactly when full at the load, else appends one entry and overwrites none that waits |
| `Ring.SubmissionRing.SubmitLinked` | src/io/uring_executor.cc:294-316 | likewise for two: refuses exactly when they did not fit at the load, else appends both, adjacent, the first linked |
| `Ring.SubmissionRing.KernelConsume` | src/io/uring_executor.cc:114-129 | the kernel takes published entries once, in order, unchanged, and a head loaded before stays usable |
| `Ring.CompletionRing.KernelPost` | src/io/uring_executor.cc:155-165 | a posted completion lands in a free slot |
| `Ring.CompletionRing.Drain` | src/io/uring_executor.cc:155-181 | with the kernel posting in between: every completion is delivered once, in order; it stops exactly when a wake-up is met while stopping, else when the ring is empty |

## Left out

- SSTables, the manifest, iterators and compaction of the design document: the source does not implement them.
- System calls, memory mapping, directory creation, file size and truncation: kernel calls, present as steps on the file and the rings.
- A failure of `io_uring_enter` after the tail is published (src/io/uring_executor.cc:129-138 and 316-325): the entry stays in the ring although an error is returned; in the model a failed submission lands nothing.
- Writes that reach the disk in another order than front to back: a torn write is a byte prefix of its record.
- A loss of power during a write over leftovers that brings back the old bytes it replaced: a crash keeps a prefix of the file as it was last written.
- A recovery read that returns less than the file, and a failing truncate or sync during recovery.
- Payloads of 2^32 bytes or more and sequence numbers near 2^64: the store and engine theorems exclude them at the start of a group; the contiguous encoder is proved for all sizes.
- The success rule of the linked write and sync (src/io/uring_executor.cc:393-407) is stated against a kernel that keeps its word: a result of all bytes means they landed, the sync runs only behind a complete write, and it reports no error exactly if it has synced.
- The crc32 instructions themselves: given their specified meaning on bits; the loop around them is proved.
- Coroutine frames, resumption and handle lifetimes: only that a status is delivered, once; a continuation that starts a new write while the destructor waits is not modelled.
- Write batch arena allocation: a batch is a sequence of entries, a deletion carrying an empty value.
- Server.Server.Write: of the other threads only new arrivals interfere, before and after the write; free interleaving of all threads is in `GroupCommit.dfy` and `Engine.dfy`.
- The length of the group-commit wait, its adaptive choice and its counters: the end of the wait is a step that may come at any time.
- Timing statistics, buffer capacities, reuse counters and lock counters: no effect on the data.
- Memory ordering of atomics: steps are sequentially consistent at lock, acquire and release points.
- Re-encoding arbitrary decoded bytes: the decoder accepts trailing payload bytes and drops the value of a deletion, so decoding is not injective.
