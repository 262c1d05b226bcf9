# A Dafny model of slsfs

slsfs is a serverless file system: clients talk to proxies, proxies hand requests to data functions
(workers), and data functions stripe files over ssbd block servers with a two-phase commit, behind an
LRU block cache that moves from worker to worker. This project models those parts and proves what they
guarantee. `dafny verify dfyconfig.toml` checks all of it.

The proofs build on each other:

- **Commit.** `Striping` cuts byte ranges into blocks, `Participant` is one block with its one-slot log,
  `TwoPhase` is the commit protocol as a state machine over messages in flight, `LossyCommit` the same
  protocol when connections break, `FlatFile` and `ReadPath` refine the striped store to a flat byte array,
  `ReadDuringWrite` is a read among the messages of a write, `Coordinator` holds the issuing loops and
  callbacks, `QuickPath` justifies skipping the log check. `Text`, `LogStore` and `Server` show that the
  ssbd handlers, on their string-to-string stores, do to a block what `Participant` says.
- **Cache.** `Lru` is the meaning of the LRU order, `LruList` the linked list that implements it,
  `CacheModel`, `CacheFill`, `CacheRuns` and `BlockCache` the cache around it and its transparency,
  `CacheLimits` exactly when requests leave it coherent, `Transfer` the printed tables that move a cache,
  `CacheMove` the whole hand-over to the next worker, with answers that arrive late.
- **Wire, proxy, directories.** `Wire` is the packet stream, `Jobs` the proxy's job hand-off, `Ring` the
  ownership of files, `Directory` the metadata operations on top of the block store.

Conventions:

- One handler is one atomic step, and a loop that issues requests finishes before any answer is handled.
  Messages of one write are delivered in any order; none is lost except in `LossyCommit`.
- The blocks of a file are one map, wherever `select_replica` puts them: it is a function of the file and
  the block, so one server owns each block.
- leveldb is a map. `concurrent_hash_map::emplace` keeps an existing value. Clocks, random salts, the
  policy's choice of a worker and the backend's connection state are parameters.
- Blocks have at most 65536 bytes (`BlockSize`): beyond that the header truncates offsets (`OffsetsFitHeaderIff`).
- 32-bit arithmetic is written out where it can wrap: the end of a range, the eviction test, versions.
- 256-bit ids are numbers in `Ring`: their lexicographic order is the numeric order.
- Where a promise fails, the model keeps the code's behaviour and states exactly when the promise holds:
  `PiecesCoverIffNoWrap`, `SlotProtectedIff`, `UpdateSurvivesIff`, `AlwaysAllOrNothingIff`,
  `EarlyDecisionIff`, `CanTearIff`, `HurryShowsIff`, `RequestsFramedIff`, `IdsCoverIff`, `ListingLinesIff`,
  `EvictionTestExactIff`, `PutIsCoherentIff`, `ReadIsCoherentIff`, `TablesRoundTripIff`, `MovesAgainIff`,
  `LateAnswerIff`, `FinishedTwiceIff`, `FilesStayWithTheirWorkerIff`, `KeepsAllFilesIff`, `ListDirectory`.

Where comments and code disagree, the model follows the code: functions/datafunction/caching.hpp:169
expects `emplace` to replace a cached block and lines 490-496 speak of updating cached parts, but the old
block stays; ssbd/persistent-log.hpp:81 speaks of network format, but versions are stored in decimal;
functions/datafunction/storage-conf-ssbd-backend.hpp:464-467 describes a header with `files` and `last`,
but the header is a count and reserved bytes.

## Model

| member | source | states |
|---|---|---|
| `Striping.CutIsClip` | functions/datafunction/storage-conf-ssbd-backend.hpp:132-161 | from any loop state, the i-th piece still to come is exactly the intersection of the remaining range with the i-th block from there |
| `Striping.CutCount` | functions/datafunction/storage-conf-ssbd-backend.hpp:386-393 | the loop emits one piece per block between the first and the last address |
| `Striping.PieceIsClip` | functions/datafunction/storage-conf-ssbd-backend.hpp:134-152 | each piece of a request lies inside one block, block ids are consecutive, and its buffer slice is inside the request |
| `Striping.PiecesAbut` | functions/datafunction/storage-conf-ssbd-backend.hpp:156-161 | neighbouring pieces leave no gap and do not overlap, in the buffer and in the file |
| `Striping.AddressInPiece` | functions/datafunction/storage-conf-ssbd-backend.hpp:134-158 | every requested address is in the piece of its own block, at the byte of the buffer that belongs to it |
| `Striping.PiecesCoverIffNoWrap` | functions/datafunction/storage-conf-ssbd-backend.hpp:124-132 | the pieces carry the whole request if and only if position + size stays below 2^32; otherwise there are none |
| `Striping.OffsetsFitHeaderIff` | functions/libslsfs/slsfs/leveldb-serializer.hpp:150-150 | offsets fit the 16-bit position field for all requests iff blocks have at most 65536 bytes |
| `Coordinator.IssuePrepares` | functions/datafunction/storage-conf-ssbd-backend.hpp:132-165 | the prepare loop sends one prepare per part of the write, in order, each with the block, offset and bytes of its piece, the version of the write, and the quick message type iff the file is recorded as checked |
| `Coordinator.IssueDecisions` | functions/datafunction/storage-conf-ssbd-backend.hpp:219-245 | the commit loop sends one decision, all of the same kind and under the write's version, to each part of the transaction, in order |
| `Coordinator.CountPieces` | functions/datafunction/storage-conf-ssbd-backend.hpp:386-393 | the counting pass returns the number of pieces |
| `Coordinator.IssueReads` | functions/datafunction/storage-conf-ssbd-backend.hpp:386-417 | the read issues one request per counted index, with the block, offset and length of its piece |
| `Coordinator.WriteJob.OnVote` | functions/datafunction/storage-conf-ssbd-backend.hpp:166-206 | the vote callback is the protocol's vote step; only the last one answers, and it records the file on agreement and forgets it otherwise |
| `Coordinator.WriteJob.OnAck` | functions/datafunction/storage-conf-ssbd-backend.hpp:247-275 | the commit callback is the protocol's acknowledgement step, finished at the last one |
| `Coordinator.ReadJob.OnReply` | functions/datafunction/storage-conf-ssbd-backend.hpp:418-436 | an answer fills its slot; the buffer is handed over exactly when no slot is open, and is the slots in order |
| `Coordinator.AnyOrderReadsTheSame` | functions/datafunction/storage-conf-ssbd-backend.hpp:395-436 | for every order of the answers the buffer is complete at the last one and not before, and is the same |
| `Participant.SlotSafety` | ssbd/main.cpp:138-174 | over every legal run of checked and quick prepares, executes and rollbacks, from any block and also over a stale log, a checked prepare is granted iff the slot is free, and the block holds the initial bytes overlaid, in order, by exactly the executed updates, under the version of the last one |
| `Participant.RunRepresents` | ssbd/persistent-log.hpp:124-138 | the block and its log represent the ledger of executed and in-flight updates and their versions after every legal run, with equal votes |
| `Participant.MissingIsEmpty` | ssbd/main.cpp:138-171 | the first prepare of a missing block always agrees: the block is empty under version 0 and logs the written bytes behind zeros, under the version of the write |
| `Participant.SlotProtectedIff` | ssbd/persistent-log.hpp:134-138 | an agreed prepare blocks the next one iff its version is neither 0 nor the committed one |
| `Participant.QuickIsSlowIff` | ssbd/main.cpp:208-228 | the two prepares differ exactly on a stored block with a live log |
| `Participant.ExecuteAfterRollbackEmpties` | ssbd/main.cpp:253-268 | an execute after a rollback empties the block |
| `Participant.ForeignRollbackErases` | ssbd/main.cpp:263-268 | with two writers on one block, the refused one's rollback makes the other one's execute erase the block |
| `Participant.UpdateSurvivesIff` | ssbd/main.cpp:146-228 | after an agreed prepare, whatever checked prepares, quick prepares and rollbacks of other writers follow, the slot still holds the update for the next execute iff they are all checked prepares; until then they are all refused |
| `Participant.HurryTakesSlot` | ssbd/main.cpp:208-228 | a quick prepare of another writer is agreed to over an agreed update, and the execute then installs the other one's bytes |
| `TwoPhase.NextKeepsInv` | functions/datafunction/storage-conf-ssbd-backend.hpp:130-276 | every delivery keeps the invariant: one message in flight per registered job, the counter equals the jobs, and each block is as far as its messages say |
| `TwoPhase.LastVoteDecides` | functions/datafunction/storage-conf-ssbd-backend.hpp:186-205 | the last vote, and only it, takes the decision, which is to execute iff every block agreed |
| `TwoPhase.RunInv` | functions/datafunction/storage-conf-ssbd-backend.hpp:130-276 | the invariant holds in every reachable state, from any starting blocks and stale logs |
| `TwoPhase.NoChangeBeforeAgreement` | functions/datafunction/storage-conf-ssbd-backend.hpp:186-205 | in every reachable state, a block whose content changed implies that every block agreed and the decision was taken |
| `TwoPhase.RunsEndInOutcome` | functions/datafunction/storage-conf-ssbd-backend.hpp:130-276 | every finished run, in whatever delivery order, leaves exactly the blocks of the serial reference, and the answer is whether all agreed |
| `TwoPhase.OutcomeAllOrNothing` | ssbd/main.cpp:138-177 | the outcome overlays every touched block under the version of the write, or keeps every one under its old version (missing becomes empty, version 0), and no log stays live |
| `TwoPhase.AgreedPartIsLogged` | ssbd/main.cpp:158-171 | in every reachable state, from its agreed prepare until its decision a block logs its part under the version of the write |
| `TwoPhase.RunsTerminate` | functions/datafunction/storage-conf-ssbd-backend.hpp:132-275 | a write of n > 0 parts is never stuck and is done after exactly 4n deliveries; a write of no parts never answers |
| `TwoPhase.RetrySucceeds` | ssbd/main.cpp:263-268 | after any finished write the same blocks agree to the next one |
| `LossyCommit.LossyRunInv` | functions/libslsfs/slsfs/backend-ssbd.hpp:53-59 | with requests and responses failing at any point, every reachable state keeps each block and each message in step |
| `LossyCommit.NoChangeWithoutOk` | functions/datafunction/storage-conf-ssbd-backend.hpp:168-205 | whatever breaks, a changed block implies that every block agreed and the client was told OK |
| `LossyCommit.BrokenVoteRefuses` | functions/libslsfs/slsfs/backend-ssbd.hpp:170-199 | a write whose prepare or vote breaks, at any moment of a run, is refused whatever its blocks answered, and every block keeps its content |
| `LossyCommit.LossyOutcome` | functions/datafunction/storage-conf-ssbd-backend.hpp:168-275 | after a refusal every block keeps its content; after an OK a block is written, under the version of the write, exactly when its decision was not lost, and otherwise still logs the write |
| `LossyCommit.AllOrNothingIff` | functions/datafunction/storage-conf-ssbd-backend.hpp:247-275 | a finished write is all-or-nothing iff it was refused, or the parts whose decisions were lost would have changed nothing, or the others changed nothing |
| `LossyCommit.AlwaysAllOrNothingIff` | functions/datafunction/storage-conf-ssbd-backend.hpp:186-275 | known before the write: every finished run, whatever breaks, writes all blocks or none iff some block refuses or at most one block would change |
| `LossyCommit.EarlyDecisionIff` | functions/libslsfs/slsfs/backend-ssbd.hpp:171-194 | if cancelled jobs are cancelled again, a decision leaves a part unanswered iff it counts a repeated error; then it is a rollback, and execute still means that every part agreed |
| `LossyCommit.LostUpdateIsGone` | functions/datafunction/storage-conf-ssbd-backend.hpp:247-275 | an update whose decision was lost never reaches its block: the next complete write starts from the old bytes, and its block refuses it iff it checks the log and the lost version is neither 0 nor committed |
| `LossyCommit.AnyDecisionsMayBeLost` | functions/libslsfs/slsfs/backend-ssbd.hpp:170-199 | for every agreed write and every set of its parts there is a run in which the client is told OK and exactly these decisions are lost |
| `LossyCommit.WritesCanTear` | functions/datafunction/storage-conf-ssbd-backend.hpp:186-275 | an agreed write that changes two blocks has a run that ends in OK with one written and the other not |
| `ReadDuringWrite.OldOrNew` | functions/datafunction/storage-conf-ssbd-backend.hpp:186-275 | in every reachable state a block holds its old content, or its new one exactly once its execute arrived |
| `ReadDuringWrite.ExecutedStays` | ssbd/main.cpp:253-260 | an executed block stays executed |
| `ReadDuringWrite.DoneIsExecuted` | functions/datafunction/storage-conf-ssbd-backend.hpp:266-275 | when all acknowledgements are in, every block is executed iff all agreed, and none otherwise |
| `ReadDuringWrite.ByteDuring` | functions/datafunction/storage-conf-ssbd-backend.hpp:130-276 | at every moment of a write each byte of the file is the old one, or the written one once its block is executed |
| `ReadDuringWrite.ReadSees` | functions/datafunction/storage-conf-ssbd-backend.hpp:395-436 | the buffer of a read whose blocks answer at different moments is, byte by byte, what was stored when that byte's block answered |
| `ReadDuringWrite.TornIff` | functions/datafunction/storage-conf-ssbd-backend.hpp:395-436 | the buffer of a readable range is neither the old nor the new zero-padded slice iff the block of a visibly changed byte answers after its execute and that of another one before |
| `ReadDuringWrite.ReadsCanTear` | functions/datafunction/storage-conf-ssbd-backend.hpp:190-204 | every agreed write that visibly changes bytes of two blocks, existing or not, has a run without losses in which a read of both is answered in full and torn |
| `ReadDuringWrite.StaysReadable` | functions/datafunction/storage-conf-ssbd-backend.hpp:130-276 | a range that is readable before a write is readable at any moments of it |
| `ReadDuringWrite.CanTearIff` | functions/datafunction/storage-conf-ssbd-backend.hpp:395-436 | known before the write: some read of a readable range can be torn iff every block agrees and two visibly changed addresses of the range lie in different blocks |
| `FlatFile.WriteRefinesFlat` | ssbd/main.cpp:161-171 | per address: a committed write stores its bytes, keeps every other stored byte, fills only the gap before it in its first block with zeros; any other write changes nothing |
| `FlatFile.EveryRunWritesFlat` | functions/datafunction/storage-conf-ssbd-backend.hpp:130-276 | every finished protocol run is the flat write if the client was told OK, and nothing otherwise |
| `FlatFile.RunsCommitVersion` | functions/datafunction/storage-conf-ssbd-backend.hpp:126-150 | when a write is done each of its blocks is committed under the version of the write if the client was told OK, and under its old version otherwise |
| `FlatFile.PreparedUnderVersion` | functions/datafunction/storage-conf-ssbd-backend.hpp:126-150 | from its agreed prepare until its decision each block of a write logs its part under the version of that write |
| `FlatFile.QuietStoreAgrees` | ssbd/persistent-log.hpp:134-138 | on a store without live logs every write is agreed to and leaves no live log |
| `FlatFile.LastWriterWins` | functions/datafunction/storage-conf-ssbd-backend.hpp:132-161 | after any sequence of writes the last writer of an address determines its byte; unwritten bytes are unchanged if stored, and 0 or not stored otherwise |
| `ReadPath.ReadIsFlat` | ssbd/main.cpp:331-336 | a readable range is answered with exactly its size, each byte stored or 0 |
| `ReadPath.ReadBack` | ssbd/rawblocks.hpp:29-33 | a range of stored bytes reads back as the flat slice |
| `ReadPath.ReplyIs` | ssbd/rawblocks.hpp:29-33 | a block answers iff it exists and the read starts within it or right at its end, with as many bytes as asked for and 0 behind the stored ones; beyond its end the copy overruns |
| `ReadPath.ReadableIff` | ssbd/main.cpp:316-344 | a range is readable iff each of its blocks exists and is long enough to start reading from it |
| `ReadPath.ReadIsCompleteIff` | functions/datafunction/storage-conf-ssbd-backend.hpp:395-436 | the client gets as many bytes as it asked for iff the range is readable: an error adds none |
| `QuickPath.QuickRefinesSlow` | functions/datafunction/storage-conf-ssbd-backend.hpp:144-152 | over every run of complete writes on a store without live logs, hurrying checked files gives the same verdicts, blocks, logs and records |
| `QuickPath.PerformIsRun` | functions/datafunction/storage-conf-ssbd-backend.hpp:186-198 | a complete write of a file is what any finished run of the protocol does: its blocks, its verdict, and the record of checked files; other files are left alone |
| `QuickPath.HurryIsSeenIff` | ssbd/main.cpp:146-172 | a single write is refused when checked iff it touches a stored block with a live log; otherwise checked and hurried write leave the same store and record |
| `QuickPath.HurryShowsIff` | functions/datafunction/storage-conf-ssbd-backend.hpp:144-152 | over every run from any store, hurrying changes nothing iff no write touches a stale log while the last write of its file met none; told from the first store and the requests alone |
| `QuickPath.SecondWriteOverlooks` | functions/datafunction/storage-conf-ssbd-backend.hpp:186-198 | the record is per file and logs per block: a write that meets no live log marks its file, and the next one is hurried over the live log of another block |
| `Text.VersionRoundTrip` | ssbd/persistent-log.hpp:49-66 | every 32-bit version survives decimal print and parse |
| `Text.DigitsPrint` | ssbd/persistent-log.hpp:66-66 | a number is printed in decimal digits without leading zeros |
| `Text.StollReads` | ssbd/persistent-log.hpp:54-54 | leading space, a sign if there is one, and the digits up to the first other byte are read as their value, unless 64 bits cannot hold it |
| `Text.VersionOfReads` | ssbd/persistent-log.hpp:45-62 | a stored version is the number read, cut to 32 bits, and 0 when it is missing or unreadable |
| `LogStore.FieldKeysDistinct` | ssbd/persistent-log.hpp:45-104 | different files, blocks or fields never share a log key |
| `LogStore.BlockKeysDistinct` | functions/libslsfs/slsfs/leveldb-serializer.hpp:164-170 | block keys are distinct and replica keys never meet them |
| `LogStore.PutField` | ssbd/persistent-log.hpp:63-92 | storing one field changes that field of that block's record and nothing else |
| `Server.PersistentLog.GetVersion` | ssbd/persistent-log.hpp:43-61 | returns the stored version, 0 for unreadable text, and changes no record by repairing it |
| `Server.PersistentLog.PutCommittedVersion` | ssbd/persistent-log.hpp:63-73 | sets one field of one record |
| `Server.PersistentLog.PutPendingPrepare` | ssbd/persistent-log.hpp:75-92 | sets the pending version and data of one record |
| `Server.PersistentLog.HavePendingLog` | ssbd/persistent-log.hpp:134-138 | live means pending, neither 0 nor committed |
| `Server.Ssbd.TwoPcPrepare` | ssbd/main.cpp:128-178 | does to its block what the participant's checked prepare does, and nothing to any other block |
| `Server.Ssbd.TwoPcPrepareQuick` | ssbd/main.cpp:198-231 | likewise for the quick prepare |
| `Server.Ssbd.TwoPcCommitExecute` | ssbd/persistent-log.hpp:124-132 | installs the slot's version and bytes, in that block only |
| `Server.Ssbd.TwoPcCommitRollback` | ssbd/main.cpp:263-276 | empties the slot of that block only |
| `Server.Ssbd.Replicate` | ssbd/main.cpp:294-312 | overlays the replica and leaves every block and every other replica alone |
| `Server.Ssbd.Get` | ssbd/main.cpp:316-344 | answers as the read model says, missing blocks and overruns included |
| `Wire.Be32RoundTrip` | functions/libslsfs/slsfs/leveldb-serializer.hpp:110-140 | 32-bit fields are big-endian and survive the conversion |
| `Wire.DumpSlices` | functions/libslsfs/slsfs/leveldb-serializer.hpp:215-249 | the header is 52 bytes with every field at its place, the message type with its low byte first and the position with its high byte first |
| `Wire.HeaderRoundTrip` | functions/libslsfs/slsfs/leveldb-serializer.hpp:180-249 | parse undoes dump |
| `Wire.ParseRoundTrip` | functions/libslsfs/slsfs/leveldb-serializer.hpp:180-249 | dump undoes parse, for any 52 bytes |
| `Wire.StreamIsFramed` | functions/libslsfs/slsfs/backend-ssbd.hpp:94-147 | whatever packets are sent, the receiver cuts the stream into the same packets with no byte left over |
| `Wire.ReceivedIs` | functions/libslsfs/slsfs/leveldb-serializer.hpp:371-390 | the receiver gets the packets that were sent, field by field and with their bodies, and no byte is left over; a read request has no body and keeps the size it asks for |
| `Wire.RequestsFramedIff` | ssbd/main.cpp:67-106 | the server gets exactly the requests that were sent, field by field and with their bodies, iff their rollbacks carry none |
| `Wire.Receive` | ssbd/main.cpp:49-118 | the reading loop consumes exactly the bytes of each packet |
| `Lru.FitIsLongest` | functions/datafunction/caching.hpp:172-180 | what eviction keeps is the longest prefix that fits |
| `Lru.UseIsLongest` | functions/datafunction/caching.hpp:155-184 | a use puts its entry in front, keeps the longest prefix of the others that fits with it, and pushes out the rest |
| `Lru.UseKeepsOrder` | functions/datafunction/caching.hpp:158-184 | keys stay distinct and the budget is kept |
| `Lru.CacheIsRecencyPrefix` | functions/datafunction/caching.hpp:158-184 | after any run of uses the cache is a prefix of the run's recency order |
| `Lru.RecencyMembers` | functions/datafunction/caching.hpp:158-184 | the recency order has each used key once, with its latest size |
| `Lru.RecencySorted` | functions/datafunction/caching.hpp:158-184 | the recency order is sorted by last use |
| `LruList.Unlink` | functions/datafunction/caching.hpp:105-108 | linking the neighbours takes a node out of a chain and leaves a chain |
| `LruList.LinkSecond` | functions/datafunction/caching.hpp:92-96 | the four assignments put a node behind the first one and leave a chain |
| `LruList.LruCache.DeleteNode` | functions/datafunction/caching.hpp:99-110 | the list stays linked without the node, and the counter loses its size |
| `LruList.LruCache.AddNode` | functions/datafunction/caching.hpp:87-97 | the list stays linked with the node in front, and the counter gains its size |
| `LruList.LruCache.MakeRoom` | functions/datafunction/caching.hpp:172-180 | the eviction loop ends without reaching a sentinel, with the longest fitting prefix, and deletes exactly the evicted blocks |
| `LruList.LruCache.Set` | functions/datafunction/caching.hpp:158-184 | list, map and counter stay consistent and represent the LRU order after the use; the evicted blocks are deleted |
| `LruList.EvictionTestExactIff` | functions/datafunction/caching.hpp:172-172 | the 32-bit eviction test is right for every cache in budget iff the capacity is below 2^31 |
| `CacheModel.IdsCoverIff` | functions/datafunction/caching.hpp:225-241 | the ids of a request name the block of every address of it iff its first offset and last partial length fit one block; they never name another block |
| `CacheFill.TouchAccounted` | functions/datafunction/caching.hpp:112-184 | using an entry keeps every cached block listed with its size |
| `CacheFill.HitEvictsNothing` | functions/datafunction/caching.hpp:453-467 | a cache hit never evicts |
| `CacheFill.CachedBytesFit` | functions/datafunction/caching.hpp:503-544 | any distinct cached blocks together fit the capacity |
| `CacheFill.OwnStaysInFront` | functions/datafunction/caching.hpp:528-542 | a request no larger than the cache never evicts its own blocks |
| `CacheFill.DropBlockFiles` | functions/datafunction/caching.hpp:112-132 | an evicted block takes its file with it iff the file has no other block |
| `CacheFill.HitIff` | functions/datafunction/caching.hpp:439-478 | a read from the cache hits iff all of its blocks are cached, gets their bytes in order, and changes no cached byte |
| `CacheFill.ReadUses` | functions/datafunction/caching.hpp:453-467 | under LRU a read moves its blocks up to the first one that is not cached to the front, the last one first, and keeps the others in their old order; under FIFO it changes nothing |
| `CacheFill.FillOrder` | functions/datafunction/caching.hpp:503-544 | a fill puts the blocks of its request in front, the last one first, and leaves a prefix of the old order of the others |
| `CacheFill.FillPuts` | functions/datafunction/caching.hpp:486-546 | after a fill each block is cached as before, or with its part of the data, or not any more; a file that was not cached gets every part |
| `CacheFill.FillBooked` | functions/datafunction/caching.hpp:486-546 | filling the cache, in both branches and with whatever bytes, keeps every cached block listed with its size and the order within the capacity |
| `CacheFill.FillCopies` | functions/datafunction/caching.hpp:486-546 | what a fill leaves of every block of the request, told from the cache before: nothing unless the file survives the first eviction, the old bytes if still listed at their turn, else the block's part of the data |
| `CacheRuns.ReadBlocksExact` | functions/datafunction/caching.hpp:439-478 | a hit returns the stored bytes of the whole range and changes no cached byte |
| `CacheRuns.WriteToCacheInv` | functions/datafunction/caching.hpp:486-546 | filling the cache, in both branches, keeps it coherent and accounted |
| `CacheRuns.PlainPutIsRun` | functions/datafunction/storage-conf-ssbd-backend.hpp:186-205 | the backend answers a write with what the coordinator of any finished run decided, and stores the blocks of that run |
| `CacheRuns.PlainReadIsCollected` | functions/datafunction/storage-conf-ssbd-backend.hpp:395-436 | the backend answers a read with the buffer that the callbacks collect, in whatever order the blocks answer |
| `CacheRuns.PutIsRun` | functions/datafunction/proxy-command.hpp:472-487 | through the cache, too, a write is answered with the decision of its run and leaves the blocks of that run |
| `CacheRuns.ReadIsHitOrBackend` | functions/datafunction/proxy-command.hpp:488-502 | a read is answered with the cached bytes iff all of its blocks are cached, and by the backend otherwise; without caching no cached byte changes |
| `CacheRuns.OrderOfRequest` | functions/datafunction/proxy-command.hpp:470-503 | what every request does to the LRU order, under LRU and FIFO, on hits, misses and writes |
| `CacheRuns.PutIsCoherentIff` | functions/datafunction/proxy-command.hpp:472-487 | any whole-block write, committed or refused, keeps the books, and keeps the cache coherent iff every copy it leaves is the written part after a commit, or what was stored before after a refusal; the copies are told from the cache before |
| `CacheRuns.CacheIsTransparent` | functions/datafunction/proxy-command.hpp:470-503 | over every legal run, with committed and refused writes of cached and uncached blocks that leave no wrong copy, clients get exactly the answers of the backend alone |
| `CacheLimits.RewriteIsCoherentIff` | functions/datafunction/caching.hpp:515-519 | a committed write of cached blocks evicts nothing, keeps their old bytes, and so is coherent iff no touched block changed |
| `CacheLimits.UncachedWriteIsCoherentIff` | functions/datafunction/proxy-command.hpp:472-487 | a write of uncached blocks has all of them cached or none, as the cache before tells, and is coherent iff it is committed, or none will be cached, or every part was stored before |
| `CacheLimits.CopyIsServed` | functions/datafunction/caching.hpp:453-467 | a read of a cached block is answered with the cached bytes, right or wrong |
| `CacheLimits.ReadIsCoherentIff` | functions/datafunction/proxy-command.hpp:488-502 | a nonempty read of stored bytes within the capacity keeps every cache coherent, for every store, iff it covers whole blocks |
| `CacheLimits.ShiftedReadIsServed` | functions/datafunction/caching.hpp:508-519 | after a read of up to 4096 bytes from address 1, an equally long read from address 0 is answered with the bytes of the first one |
| `CacheLimits.LruOutlivesFile` | functions/datafunction/caching.hpp:112-132 | with room for one block, reading two blocks of a file one after the other leaves an LRU entry of a file without blocks |
| `BlockCache.BlockCache.GetBlockIds` | functions/datafunction/caching.hpp:225-241 | the loop returns the ids of the model, none for a range whose end wraps |
| `BlockCache.BlockCache.ReadFromCache` | functions/datafunction/caching.hpp:439-484 | the loop over the real list and maps does what the cache model says |
| `BlockCache.BlockCache.WriteToCache` | functions/datafunction/caching.hpp:486-546 | likewise for both branches of the write |
| `Transfer.TablesRoundTripIff` | functions/datafunction/caching.hpp:326-434 | the parser performs exactly the tables' actions iff every file row has a block, for arbitrary key, id and size bytes |
| `Transfer.RowLayout` | functions/datafunction/caching.hpp:293-308 | a row of the LRU table is the key, a dot, id and size with the low byte first, and a space |
| `Transfer.FileLayout` | functions/datafunction/caching.hpp:262-286 | a row of the file table is the key, a colon or comma before each cell of id and size, and a space |
| `Transfer.TransferKeepsLru` | functions/datafunction/caching.hpp:254-434 | an empty cache that replays received tables ends with the same LRU order and sizes |
| `Transfer.TransferFetchesCached` | functions/datafunction/caching.hpp:376-430 | the next worker fetches exactly the cached blocks, in their sizes |
| `Transfer.PrintFiles` | functions/datafunction/caching.hpp:260-288 | the printing loops write the file table |
| `Transfer.PrintLru` | functions/datafunction/caching.hpp:290-311 | walking the real list from tail to head writes the LRU table |
| `Transfer.FileRows` | functions/datafunction/caching.hpp:260-288 | the loops over the hash maps give exactly one row to every cached file and list each of its blocks once, with its size |
| `Transfer.GetTables` | functions/datafunction/caching.hpp:254-323 | both tables of the cached files and the LRU list, and the counters; dropping the last 8 bytes leaves the tables |
| `Transfer.Rebuild` | functions/datafunction/caching.hpp:326-434 | the parsing loops perform the parsed actions, or stop where they would read past the end |
| `CacheMove.LruTableRebuilds` | functions/datafunction/caching.hpp:346-371 | the LRU table, replayed in front of any order it fits together with, puts its entries there without evicting, and opens their files |
| `CacheMove.OpeningKeeps` | functions/datafunction/caching.hpp:337-342 | replaying a file table on a cache in use changes no cached byte and no order, and opens exactly the files it lists |
| `CacheMove.AnswersRestore` | functions/datafunction/caching.hpp:415-430 | the fetched answers, in any order and repeated or not, give every asked block the bytes it had in the old cache, and no other block any |
| `CacheMove.MoveKeepsCache` | functions/datafunction/caching.hpp:326-434 | after a hand-over the next worker has the same LRU order and the same bytes for every block, and its cache is coherent; its files are the old ones and those only the LRU order mentions |
| `CacheMove.MovesAgainIff` | functions/datafunction/caching.hpp:337-342 | a moved cache can be moved on iff every file of its LRU order has a cached block |
| `CacheMove.SecondMoveFails` | functions/datafunction/caching.hpp:337-342 | the cache of LruOutlivesFile is moved once, and its tables cannot be taken apart the second time |
| `CacheMove.LateAnswerIff` | functions/datafunction/caching.hpp:419-429 | an answer to a fetch, whenever it arrives and whatever it holds, keeps the cache coherent and its books complete iff its file is gone, its block is cached, or it holds the stored bytes and its LRU entry is still there |
| `CacheMove.FetchIsRight` | functions/datafunction/caching.hpp:402-417 | a fetch of a stored block is answered with its stored bytes |
| `CacheMove.AnswerStaysRightIff` | functions/datafunction/caching.hpp:415-430 | of the requests served before it arrives, a right answer is spoilt exactly by a committed write of other bytes to its block |
| `CacheMove.PromptAnswerIsHarmless` | functions/datafunction/caching.hpp:415-430 | while the next worker has the order of the moved cache, the answer to each of its fetches is harmless |
| `CacheMove.HandOverAsks` | functions/datafunction/caching.hpp:373-430 | after a hand-over the next worker has asked for exactly the cached blocks, each in its size |
| `CacheMove.AnsweredHandOverRestores` | functions/datafunction/caching.hpp:373-430 | in whatever order the backend reads and its answers arrive, every step is possible, there are two for each fetch, and after them the next worker has the order and the bytes of the old one |
| `CacheMove.MovesAreTransparent` | functions/datafunction/proxy-command.hpp:470-503 | over every run of requests and hand-overs, with requests served while fetches are unanswered and answers arriving in any order, clients get exactly the answers of the backend alone |
| `CacheMove.BuildCache` | functions/datafunction/caching.hpp:326-434 | on the real list and maps: performs the actions of the tables and sends the fetches in order |
| `CacheMove.OnFetched` | functions/datafunction/caching.hpp:419-429 | the callback adds the block unless one is there or its file is gone |
| `Jobs.NoJobIsLost` | proxy/launcher.hpp:256-294 | in every run a scheduled job is finished, posted or held by a valid worker; it is finished at most once more than it was handed back, and is in exactly one place if it never was |
| `Jobs.FinishesExactly` | proxy/worker.hpp:188-203 | from any state, some run without further hand-backs finishes a job n more times iff n is at most the number of its copies, posted or held by valid or closed workers |
| `Jobs.FinishedTwiceIff` | proxy/worker.hpp:64-80 | a job can end up finished twice iff it has two places or more |
| `Jobs.HandBackAddsPlace` | proxy/launcher.hpp:220-225 | a close gives every job its worker holds one more place, and a failing timer its job |
| `Jobs.LateResponseFinishesTwice` | proxy/worker.hpp:64-80 | if a worker closes before the late response to its job and another valid worker answers the job too, it is finished twice |
| `Jobs.FilesStayWithTheirWorkerIff` | proxy/launcher.hpp:258-274 | later jobs of a file go to the same worker iff the file was not bound to an invalid one |
| `Jobs.FilesStayUntilClose` | proxy/launcher.hpp:187-240 | in every run in which neither its worker closes nor one that holds a job of the file, hand-overs and other closes included, all jobs of a file bound to a valid worker are started on that worker |
| `Jobs.BindingKeptIff` | proxy/launcher.hpp:220-225 | an event takes a file from its valid worker iff it is a close of that worker, or of one that holds a job of the file |
| `Jobs.CloseUnbindsIff` | proxy/launcher.hpp:220-225 | a close unbinds a file iff the worker holds a job of it; every other binding stays, to the same worker |
| `Jobs.CloseIs` | proxy/worker.hpp:64-80 | a close invalidates the worker, keeps its jobs and posts each once more, and leaves other workers and finished jobs alone |
| `Jobs.RegisterBinds` | proxy/launcher.hpp:180-211 | a registered worker is valid and idle and gets exactly those of the transferred files that had no binding |
| `Jobs.ProcessStarts` | proxy/launcher.hpp:256-281 | a posted job is started on the valid worker its file is bound to, else on the valid one the policy offers, else nothing changes; its file is bound there unless it is bound already |
| `Jobs.ResponseIs` | proxy/worker.hpp:188-203 | a response of a worker that holds the job finishes it and removes it there; any other response changes nothing |
| `Jobs.Launcher.OnRegister` | proxy/launcher.hpp:162-218 | the loop binds the files of a moved cache to the new worker where nothing is bound |
| `Jobs.Launcher.OnProcess` | proxy/launcher.hpp:256-281 | the handler is the process step, rescheduling included |
| `Jobs.Launcher.OnWorkerResponse` | proxy/worker.hpp:188-203 | the handler is the response step |
| `Jobs.Launcher.OnWorkerClose` | proxy/worker.hpp:64-80 | the loop unbinds and reposts every held job |
| `Ring.OwnerIsOwner` | proxy/launcher.hpp:379-381 | the vector lookup with wrap-around finds the least id above the key, else the least id |
| `Ring.UpperBound` | proxy/launcher.hpp:379-379 | the binary search finds the first id above the key |
| `Ring.Reconfigure` | proxy/launcher.hpp:373-386 | exactly the bound files this proxy no longer owns are told, each its new owner |
| `Ring.JoinMovesToNewcomer` | proxy/zookeeper.hpp:152-159 | a joining proxy takes exactly the keys it is closer to, and no key moves elsewhere |
| `Ring.LeaveMovesOwnKeys` | proxy/zookeeper.hpp:152-159 | a leaving proxy moves only its own keys |
| `Ring.Client.Reconfigure` | proxy/clients/clientlib.hpp:27-79 | nothing happens when exactly the known proxies are listed; otherwise each listed proxy gets its old connection if that is open and a new one if not, and a connect that throws leaves the old map |
| `Ring.Client.Select` | proxy/clients/clientlib.hpp:87-93 | the map lookup picks the owner |
| `Ring.ClientAndProxyAgree` | proxy/clients/clientlib.hpp:87-93 | client and proxy pick the same owner for every key |
| `Ring.WatchCoversTheRing` | proxy/zookeeper.hpp:207-219 | with two proxies or more nobody watches itself, each is watched by exactly one, in a single cycle |
| `Directory.PlanList` | functions/datafunction/storage-conf-ssbd-backend.hpp:605-648 | the listing callback lists the count and the names of the slots, or asks for more, or runs past the end, exactly when |
| `Directory.PlanAddMakesImage` | functions/datafunction/storage-conf-ssbd-backend.hpp:473-531 | the adding callback turns the bytes of a directory into those of the directory with one more file |
| `Directory.PlanAddBranches` | functions/datafunction/storage-conf-ssbd-backend.hpp:478-494 | too few bytes for a header mean that there is no directory, a count that asks for more than was read means another read of that size, and anything else is written back |
| `Directory.NothingIsAdded` | functions/datafunction/storage-conf-ssbd-backend.hpp:478-483 | without a directory nothing is added |
| `Directory.NameSurvives` | functions/libslsfs/slsfs/json-replacement.hpp:30-48 | owner and permission come first, and a NUL-free name of at most 60 bytes is listed as given |
| `Directory.NameUpToNul` | functions/datafunction/storage-conf-ssbd-backend.hpp:641-644 | any name is listed up to its first NUL |
| `Directory.ListingLinesIff` | functions/datafunction/storage-conf-ssbd-backend.hpp:631-648 | the lines of a listing are the total, in decimal, and then the names in order iff no name contains a newline |
| `Directory.ImageSlot` | functions/datafunction/storage-conf-ssbd-backend.hpp:501-506 | slot i holds the i-th file |
| `Directory.PlanOfMany` | functions/datafunction/storage-conf-ssbd-backend.hpp:490-531 | with 64 files or more, the reread included, the adding callback writes back the directory with the last file blanked and the new one behind it |
| `Directory.SecondRereadRepeats` | functions/datafunction/storage-conf-ssbd-backend.hpp:490-494 | a second reread would ask for the same bytes again |
| `Directory.DirectoryStores` | functions/datafunction/storage-conf-ssbd-backend.hpp:441-569 | after mkdir and any number n of additions the block store holds the count and the surviving slots |
| `Directory.DirectoryVersion` | functions/datafunction/storage-conf-ssbd-backend.hpp:508-531 | the first block of a directory is committed under the version of the last addition, or of mkdir |
| `Directory.SlotStored` | functions/datafunction/storage-conf-ssbd-backend.hpp:501-506 | slot i holds the i-th file if it is one of the first 63 or the last, and zeros otherwise |
| `Directory.KeepsAllFilesIff` | functions/datafunction/storage-conf-ssbd-backend.hpp:490-506 | after mkdir and any number of additions, every slot of the stored directory holds the file added there iff the 64th and later ones but the last are blank: without blank files, iff there are at most 64 |
| `Directory.ListDirectory` | functions/datafunction/storage-conf-ssbd-backend.hpp:571-653 | ls, its reread included, lists the names in insertion order iff there are at most 63; of more it runs past the end |

## Left out

- The 30-second timers of reads and writes (functions/datafunction/storage-conf-ssbd-backend.hpp:106-122), which can answer a client a second time.
- Connection loss during several writes: LossyCommit follows one write that loses messages to its end, and the complete write after it. A response that cannot be read leaves its job waiting until the connection is closed.
- LossyCommit.LossyRunInv: each job gets one error. In the source a failed write cancels its job and leaves it registered (functions/libslsfs/slsfs/backend-ssbd.hpp:185-194), so that close() cancels it again (171-176) and the counter falls twice; EarlyDecisionIff says what that does to the decision, but the messages of such a run are not modelled.
- Several writers of one file at a time, beyond UpdateSurvivesIff on one block: rollback, execute and quick prepare ignore whose update the slot holds, so writers are not isolated from each other.
- Threads inside a handler, strands and socket writers.
- What replicas hold after a write: start_replication sends no bytes (functions/datafunction/storage-conf-ssbd-backend.hpp:306-315).
- Matching responses to outstanding jobs by salt (functions/libslsfs/slsfs/backend-ssbd.hpp:135-144): a map lookup.
- get_fileids_from_transfer (proxy/launcher.hpp:142-156).
- Launch, keep-alive and load policies, the reporter and the cache's counters: small counters that would only add easy members. Jobs keeps the plain file-to-worker map, not the load-balancing one that also drops bindings.
- Directories whose byte sizes reach 2^32.
- The storage backends other than ssbd, the HTTP triggers, zookeeper's own protocol and the benchmark programs.
- FlatFile.LastWriterWins: writes run one at a time, on a store whose logs are not live.
- LruList.LruCache.Set: requires an entry no larger than the capacity and a capacity below 2^31; beyond that the loop of the source frees its sentinels or does not evict.
- BlockCache.BlockCache.GetBlockIds: requires that the 32-bit position does not wrap on its way to an end that does not wrap; the loop of the source does not end then.
- BlockCache.BlockCache.WriteToCache: requires that no single block of the buffer exceeds the capacity, as LruList.LruCache.Set does.
- BlockCache.BlockCache.ReadFromCache: requires the invariant that coherent runs keep, under which no block is evicted while its file is being read.
- CacheRuns.CacheIsTransparent: whole-block requests no larger than the cache, reads of stored bytes, writes that leave no wrong copy; ReadIsCoherentIff and PutIsCoherentIff say that these conditions are needed.
- CacheMove.MovesAreTransparent: the same conditions on requests, hand-overs of caches whose files all have a block, and answers that are harmless when they arrive (LateAnswerIff).
- ReadDuringWrite.CanTearIff: for ranges that are readable before the write; ReadsCanTear is about blocks that the write creates.
- Transfer.TransferFetchesCached: the backend's answers to the fetches are in CacheMove.MoveKeepsCache.
- CacheMove.MoveKeepsCache: requires a coherent cache whose files all have a block; TablesRoundTripIff and MovesAgainIff say why.
- CacheMove.BuildCache: requires tables that parse and entries no larger than the capacity; the source reads past the end or frees its sentinels otherwise.
