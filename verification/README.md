# rkvs storage engine: a Dafny model and its proofs

rkvs is a key-value store built as a log-structured merge tree. Writes go to a write-ahead log and into a table in
memory; full tables are flushed to sorted segment files; segments are merged into deeper levels in the background. This
project models the storage engine's write path, recovery, sorted segments, k-way merge and concurrency protocol, and
proves what they keep, including where the code keeps less than it sets out to.

`dafny verify dfyconfig.toml` checks everything. Keys, values, names and files are byte sequences; keys are ordered
byte-wise. The log's checksum is a parameter `crc` of every definition that needs one, so all results hold for any
function of bytes to 32-bit numbers, CRC-32C among them. Panics are outcomes (`Panics`, `Panicked`, `None` of a decoder), and the
one loop that may not end is an outcome too (`spins`, `NeverReturns`).

## How the files fit together

- `Bytes`, `Options`, `Buffers`, `Sequences`, `Sorting`: little-endian integers, key order, copying into buffers, sorting of
  distinct names. `Formats`: sample records, names, entries and footers, byte by byte.
- `WalRecord`: one log record, encoded and checked. `WalScan`: the bytes-only reader of a file and of a list of files.
- `WalLayout`: what a directory of log files holds, record by record, and what the reader makes of it when it is intact,
  damaged in one record, cut at any byte, or truncated. `WalAppend`, `WalLog`: where an append puts a record, and the
  invariant over every run of appends. `WalNames`: file names and the listing test. `WalReplay`: reading back from any entry's
  sequence number. `WalTruncate`: the invariant after a repair. `Wal`: the writer classes over a directory.
- `WalDamage`, `WalCrash`: damaged and torn logs, read from any surviving entry on. `WalMissed`: a restart that misses the active
  file. `WalRepair`: cutting the reported file and removing what is listed behind it. `WalUnique`: a directory holds at most one
  log. `WalExamples`: short runs that go wrong.
- `MemTable`, `MemTableWorker`: recovery into the table, and the write worker. `MemTableFiles`, `MemTableStart`: listing, opening
  and cutting files, and start-up with repair and continuation.
- `SsTableEntries`, `SsTableIndex`, `SsTableSegment`, `SsTableWriter`, `SsTableReadBuf`: sorted segments, from framing to lookups and
  the buffered reader.
- `MergeSpec`, `MergeSort`: what one call of the merge does and what successive calls put out, and the loops that do it.
  `MergeRounds`, `MergeWrite`: the rounds of a merge of whole segments as a function of its inputs, and the method that goes
  through them.
- `Levels`: lookups in levels, and what merging into a partitioned level leaves disjoint. `LevelMerge`: where merged segments
  lie and what they answer.
- `Store`: the engine as a state machine with one writer and any number of two-stage readers. `EngineReads`: its lookups are
  those in the segments. `EngineRuns`: the write worker's jobs as steps of that machine, and the state a start puts it into.
  `Compaction`: removal of files while readers hold on to old levels.

## What the code does not keep

Each of these is a lemma here, with the exact condition where one can be stated.

- A torn tail of fewer than thirteen bytes goes unnoticed, and a cut inside the continuation of a split record makes recovery
  panic (`WalLayout.RecoverTorn`; in a release build the subtraction wraps around instead, which is not modelled). With an
  unnoticed tail the directory holds no log, so nothing can be appended to it properly (`WalUnique.UnnoticedTearIsNoLog`).
- A repair removes every file behind the cut if and only if the cut file is the last one or the last one passes the listing test
  for the new end (`WalRepair.RepairIff`). Otherwise the last file stays behind the end of the repaired log, as it does
  after five appends with damage in the fourth (`WalExamples.StaleFileStays`).
- A record that does not fit a segment trips an assertion in `Segment::append` (segment.rs:104), which stops the write worker for
  good. What fits is `WalAppend.Placeable`, a part of `WalLog.CanAppend`; appends are modelled under that condition.
- The listing test multiplies by a file's current length, so it is exact only for full files and for the first
  file of a logical log (`WalNames.FinalEntryAfterExactIff`). A restart lists the segments it needs if and only if the active
  file passes that test (`MemTableFiles.ListingIff`). If it does not, the entries of the active file are missing from the table
  and mostly nothing is reported (`WalMissed.FrontScan`). The worker then appends behind entries that its table lacks, or a
  stale file stays, or, if nothing is listed, a new log is created among the files of the old one (`MemTableStart.Start`); in each
  case no key written in that file has its last write in the table (`EngineRuns.MissedLosesWrites`). Five appends are enough
  for a restart that lists no file at all (`WalExamples.NothingIsListed`).
- Names give positions back if and only if the segment size divides 2^32 (`WalNames.NamesFaithfulIff`). A rotation skips a segment
  number when a record ends exactly two segments past the base (`WalLog.RotationIsNext`), as the second of two records of the
  size of a segment does (`WalExamples.NumberIsSkipped`).
- The merge never returns if and only if two queues begin with the same key and one of them holds an entry, within the smallest
  last key, at or above a third queue's larger first key (`MergeSort.MergeSort` with `MergeSpec.Stuck`); three
  queues suffice (`MergeSpec.ThreeQueuesCanSpin`), two never do (`MergeSpec.TwoQueuesReturn`). For a merge of whole segments the
  queues of each round are a function of the inputs and the buffer size, and it never returns if and only if those of some
  round are stuck (`MergeWrite.MergeAndWrite` with `MergeRounds.GetsStuck`), as with three segments of two entries
  (`MergeRounds.ThreeInputsGetStuck`).
- A call empties everything up to the smallest last key if and only if the queues are layered (`MergeSpec.HorizonEmptiedIff`). All
  calls of a merge together put out an ascending sequence if and only if in no call a queue pops an entry at or above one that
  another keeps (`MergeSpec.MergeAscendsIff`), which two queues can violate (`MergeSpec.LeftoverBelowOutput`).
- An empty last key is taken for "not yet set" (`MergeSpec.SentinelIff`), so the merge is modelled for queues that end in non-empty keys.
- An input is read only up to the first framed entry longer than its share of the read buffer; the rest is dropped
  silently (`SsTableReadBuf.ReachIsFirstTooLong`, `MergeWrite.AllReachedIff`).
- A segment without entries can be written but not opened (`SsTableSegment.OpenEmptySegment`).
- With two incoming segments an untouched one may lie inside the hull of what is merged, and disjointness can be
  lost (`Levels.TwoIncomingCanReach`, `Levels.KeepsPartitionIff`).
- The index length a writer compares with its target size is four bytes per entry too small (`SsTableIndex.LenUnderestimates`).

The doc comments of the source promise otherwise in a few of these places, for instance that the read buffer holds all entries up to
its limit or that the highest sequence number covers the whole segment; the model follows the code.

## Model

| member | source | states |
|---|---|---|
| WalRecord.DecodeBody | src/storage_engine/memtable/wal/segment.rs:314-362 | decoding the body of an encoded record gives the entry back, for puts and deletes |
| WalRecord.BodyOfDecoded | src/storage_engine/memtable/wal/segment.rs:314-362 | any bytes that decode, with one of the two operation bytes, are exactly what the encoder writes for the decoded entry |
| Formats.LittleEndian | src/storage_engine/memtable/wal/segment.rs:272-312 | every byte of a number as written |
| Formats.RecordBytes | src/storage_engine/memtable/wal/segment.rs:272-312 | a put and a delete, byte by byte, and which bytes the checksum covers |
| Formats.NameBytes | src/storage_engine/memtable/wal/segment.rs:64-91 | a file name, character by character |
| WalRecord.CheckEncode | src/storage_engine/memtable/wal/segment.rs:272-312 | an encoded entry is one whole frame that passes the length, checksum and decoding checks |
| WalRecord.ToBytes | src/storage_engine/memtable/wal/segment.rs:272-312 | the in-place encoder produces exactly the specified bytes, length and checksum patched in last |
| WalScan.ParseValidateWalEntries | src/storage_engine/memtable/wal/segment.rs:205-254 | the parse loop returns the entries before the first bad record and one of its four outcomes, as the recursive reading of the bytes does |
| WalLayout.RecoverIntact | src/storage_engine/memtable.rs:246-350 | reading an intact log, with any mix of fitting, split and moved records, returns all its records and reports no corruption |
| WalLayout.RecoverDamaged | src/storage_engine/memtable.rs:294-337 | a bad checksum in any one record yields exactly the entries before it and names the file and offset of its header, also when header and body lie in different files |
| WalLayout.RecoverTorn | src/storage_engine/memtable.rs:339-349 | for every cut: the maximal prefix of whole records; panics, goes unnoticed or is reported, each if and only if; the reported offset is the torn record's start |
| WalLayout.TruncateLayout | src/storage_engine/memtable.rs:200-226 | truncating where a record starts leaves a proper log of exactly the records before it |
| WalAppend.AppendLayout | src/storage_engine/memtable/wal.rs:40-58 | each of the three placements of a record leaves a proper log |
| WalAppend.AppendFlat | src/storage_engine/memtable/wal.rs:40-58 | an append adds exactly its record at the end |
| WalNames.NameGivesBase | src/storage_engine/memtable/wal/segment.rs:64-91 | the number parsed from the name made for a sequence number is that number rounded down to a segment boundary |
| WalNames.NamesFaithfulIff | src/storage_engine/memtable/wal/segment.rs:64-91 | that holds for all sequence numbers if and only if the segment size divides 2^32 |
| WalNames.NameOrder | src/storage_engine/memtable.rs:228-244 | sorting names as strings sorts segments by base sequence number, across 2^32 boundaries |
| WalNames.FinalEntryAfterFull | src/storage_engine/memtable/wal/segment.rs:93-99 | the listing test never lists a file that ends before the sequence number and is exact for full files |
| WalNames.FinalEntryAfterExactIff | src/storage_engine/memtable/wal/segment.rs:93-99 | it is exact for every sequence number if and only if the file is full or the first of its logical log |
| WalLog.RotationIsNext | src/storage_engine/memtable/wal.rs:64-71 | a rotation opens the next segment number, or the one after it exactly when the record ends two segments past the base |
| WalLog.AppendAdvances | src/storage_engine/memtable/wal/segment.rs:256-258 | the next sequence number moves past the whole record |
| WalLog.AppendShape | src/storage_engine/memtable/wal.rs:40-58 | an append keeps layout, records and segment numbers in order |
| WalLog.AppendInv | src/storage_engine/memtable/wal.rs:40-58 | over every run of appends: sequence numbers strictly increase, and each names the file and the byte behind the records before it, which is where its own record starts unless that was moved to the next file whole |
| WalReplay.ReplayFromEntry | src/storage_engine/memtable.rs:57-61 | from the sequence number of any entry, or the beginning, the segments from the covering one on replay exactly that entry and all later ones, split records and padded tails included |
| WalReplay.CleanRecovery | src/storage_engine/memtable.rs:246-350 | for every sequence of appends to an empty log, recovery returns exactly the appended entries in order |
| WalTruncate.TruncateInv | src/storage_engine/memtable.rs:200-226 | the truncated log satisfies the whole invariant again, and holds the entries before the cut |
| WalDamage.RecoverDamagedFrom | src/storage_engine/memtable.rs:246-350 | reading from behind any record before a bad one yields exactly the entries in between and names the place of its header, whatever files follow |
| WalDamage.RecoverTornFrom | src/storage_engine/memtable.rs:246-350 | the same for a log cut at any byte of any file, with the outcome for the torn bytes |
| WalCrash.DamagedScan | src/storage_engine/memtable.rs:57-61 | a restart from the sequence number of any entry up to the damage reads the entries before the damage and reports it where those end, whether or not the active file is listed |
| WalCrash.DamagedCut | src/storage_engine/memtable.rs:200-226 | the damaged log up to that place is, byte for byte, the log of the entries before the damage |
| WalCrash.TornScan | src/storage_engine/memtable.rs:57-61 | a restart on a torn log, from any entry before the tear, reads the whole records from there on |
| WalCrash.TornCut | src/storage_engine/memtable.rs:200-226 | the torn log up to the reported place is the log of its whole records, also when only the header of the torn record was written |
| WalMissed.FrontScan | src/storage_engine/memtable.rs:246-350 | without the active file exactly the entries whose records end before it are read, and a corruption is reported if and only if its first record is split, at the header that precedes it |
| WalRepair.RepairIff | src/storage_engine/memtable.rs:69-76 | after the cut and the removal the directory holds exactly the cut log if and only if the cut file was the last one or the last one passes the listing test for the new end |
| WalUnique.FramesUnique | src/storage_engine/memtable/wal/segment.rs:205-254 | bytes fall into records and an incomplete rest in only one way |
| WalUnique.LogUnique | src/storage_engine/memtable.rs:246-350 | a directory holds at most one log, records and entries included |
| WalUnique.UnnoticedTearIsNoLog | src/storage_engine/memtable/wal/segment.rs:214-218 | a directory with one to twelve torn bytes at its end holds no log |
| WalExamples.NumberIsSkipped | src/storage_engine/memtable/wal.rs:64-71 | two appends after which segment number one is never used |
| WalExamples.NothingIsListed | src/storage_engine/memtable.rs:57-61 | five appends after which a restart from the last entry lists no file |
| WalExamples.StaleFileStays | src/storage_engine/memtable.rs:69-76 | five appends to segments of 64 bytes; with the fourth record damaged, the third file survives the repair, so the directory does not hold the cut log |
| Wal.Segment.Append | src/storage_engine/memtable/wal/segment.rs:102-106 | appends the bytes to this file only, within the maximal size |
| Wal.Segment.Pad | src/storage_engine/memtable/wal/segment.rs:108-113 | fills the file with zeros to exactly its maximal size |
| Wal.Segment.ReadParseValidateFromOffset | src/storage_engine/memtable/wal/segment.rs:155-175 | what reading a file from an offset yields, positions shifted back to the file |
| Wal.Segment.ReadParseValidateFromPartialRecord | src/storage_engine/memtable/wal/segment.rs:177-203 | what reading behind a carried header yields, with the offset arithmetic of the code |
| Wal.Wal.CreateNew | src/storage_engine/memtable/wal.rs:15-28 | empties or creates the first file and touches no other; the invariant holds if and only if there was no other |
| Wal.Wal.FromSegment | src/storage_engine/memtable/wal.rs:30-36 | the invariant holds if and only if the directory holds a log of which the segment is the last |
| Wal.Wal.Append | src/storage_engine/memtable/wal.rs:40-58 | the directory holds exactly the appended log afterwards, invariant included, whichever branch is taken |
| Wal.Wal.Rotate | src/storage_engine/memtable/wal.rs:64-71 | the active segment is the empty file whose base is the sequence number rounded down |
| MemTable.ReplayIsLastWrite | src/storage_engine/memtable.rs:262-282 | applying entries in order leaves each key with its last write |
| MemTable.RecoverSegment | src/storage_engine/memtable.rs:259-338 | one segment's entries are applied and accounted; a corrupted continuation is reported at its header |
| MemTable.Recover | src/storage_engine/memtable.rs:246-350 | table, size and reported corruption are those of the scan over all files |
| MemTableWorker.WriteWorker.Put | src/storage_engine/memtable.rs:357-374 | logs the entry under the next sequence number, then table and size again equal a replay of the log |
| MemTableWorker.WriteWorker.Delete | src/storage_engine/memtable.rs:376-393 | the same for tombstones |
| MemTableWorker.WriteWorker.Run | src/storage_engine/memtable.rs:395-420 | a table whose accounted size has reached the maximum is flushed and cleared before the job, never after; the job adds key, value and 17 bytes to that size, which equals what recovery would return |
| MemTableWorker.SizeIsConservative | src/storage_engine/memtable.rs:370-372 | the accounted size is never below the encoded length of the live table |
| MemTable.AccountedIsEncoded | src/storage_engine/memtable.rs:262-282 | the accounted size of any entries is the length of their encodings in the sorted table |
| MemTableFiles.ListSegmentFiles | src/storage_engine/memtable.rs:228-244 | the listed names are ascending and exactly those that pass the test |
| MemTableFiles.ClosedAreFull | src/storage_engine/memtable/wal.rs:46-54 | every closed segment is exactly full |
| MemTableFiles.ListingIff | src/storage_engine/memtable.rs:228-244 | the listing is exactly the segments from the covering one on if and only if the active file passes its test |
| MemTableFiles.FindAndOpenSegments | src/storage_engine/memtable.rs:152-176 | opens the listed files in order, or fails exactly when one is too large |
| MemTableFiles.OpenLastSegment | src/storage_engine/memtable.rs:178-198 | opens the last listed file, with its two error cases |
| MemTableFiles.TruncateAndOpenSegmentFile | src/storage_engine/memtable.rs:200-226 | cuts, or extends with zeros, the first listed file not before the reported one and reopens it, touching no other file; the error if there is none leaves everything as it is |
| MemTableFiles.FirstFromIs | src/storage_engine/memtable.rs:205-212 | a reported file that is listed is itself the one that is cut |
| MemTableStart.ContinueLog | src/storage_engine/memtable.rs:62-65 | goes on in the last file with the table that was replayed; the worker's invariant holds if and only if what is on disk satisfies the invariant of the log |
| MemTableStart.RepairLog | src/storage_engine/memtable.rs:69-79 | for damage and tears in any file: the log is cut at the reported place and continued with the table of the entries before it; the worker's invariant holds if and only if no file behind the cut is left |
| MemTableStart.Start | src/storage_engine/memtable.rs:50-107 | how a start ends on nothing or a lone empty file, a complete log, a log damaged in any record with whatever follows, a log cut at any byte of any file, and any of these whose non-empty active file fails the listing test, each from any entry up to the damage: which log, table, accounted size and maximal size the worker has, and exactly when its invariant holds, it panics, or no log is left |
| SsTableEntries.DecodeEncode | src/storage_engine/sstable.rs:132-193 | entries round trip, tombstones and empty values included |
| Formats.EntryBytes | src/storage_engine/sstable.rs:132-161 | an entry and a tombstone in their frames, byte by byte |
| SsTableEntries.ToBytes | src/storage_engine/sstable.rs:132-161 | the in-place encoder produces the specified bytes |
| SsTableEntries.VecOfFrames | src/storage_engine/sstable.rs:219-233 | the strict decoder returns all entries of a framed stream |
| SsTableEntries.CountFits | src/storage_engine/sstable.rs:236-254 | the number of frames within a cut is the largest that fits |
| SsTableEntries.DequeOfCut | src/storage_engine/sstable.rs:236-254 | for every stream, every cut and up to four bytes beyond the end, the lenient decoder returns exactly the entries whose frames lie within the cut |
| SsTableEntries.DecodeDeque | src/storage_engine/sstable.rs:236-254 | the decoding loop computes that, or panics where an entry cannot be decoded |
| SsTableIndex.KeyLenRoundTrip | src/storage_engine/sstable/level/segment.rs:550-561 | a length written as four bytes into an eight-byte slot reads back as eight bytes |
| SsTableIndex.DecodeEncodeAll | src/storage_engine/sstable/level/segment.rs:504-537 | an index written out and read back is the same index |
| Formats.IndexEntryBytes | src/storage_engine/sstable/level/segment.rs:550-561 | an index entry, byte by byte |
| SsTableIndex.ToBytes | src/storage_engine/sstable/level/segment.rs:504-511 | the encoding loop |
| SsTableIndex.FromBytes | src/storage_engine/sstable/level/segment.rs:521-537 | the decoding loop, panics included |
| SsTableIndex.LenUnderestimates | src/storage_engine/sstable/level/segment.rs:513-519 | the kept length falls four bytes per entry short of what is written |
| SsTableIndex.BinarySearch | src/storage_engine/sstable/level/segment.rs:489-502 | never out of range, and on an ascending index the last entry not above the key |
| SsTableIndex.Find | src/storage_engine/sstable/level/segment.rs:467-487 | on an ascending index the entry with the key, or else exactly the block from the last entry below it to the first above it |
| SsTableSegment.SparseIndexIndexes | src/storage_engine/sstable/level/segment.rs:444-446 | every sparsity and phase gives a proper index |
| SsTableSegment.SparseIndexIff | src/storage_engine/sstable/level/segment.rs:352-354 | an entry is indexed, at its own offset, if and only if it is an n-th one from the phase on |
| Formats.FooterBytes | src/storage_engine/sstable/level/segment.rs:10 | the footer, byte by byte |
| SsTableSegment.FirstRecordIndexed | src/storage_engine/sstable/level/segment.rs:352-354 | the flush indexes the first record, the merge writer only if it indexes every record |
| SsTableSegment.FromFile | src/storage_engine/sstable/level/segment.rs:99-147 | opening a complete file over any entries and any proper index gives back index, block end, first and last key, and the highest number of the entries from the last indexed one on |
| SsTableSegment.OpenEmptySegment | src/storage_engine/sstable/level/segment.rs:99-147 | a segment without entries cannot be opened |
| SsTableSegment.Get | src/storage_engine/sstable/level/segment.rs:152-175 | a lookup answers as the plain map of the entries, for present and absent keys, whatever the index, and does not panic |
| SsTableWriter.CollectKeys | src/storage_engine/sstable/level/segment.rs:347-348 | all keys of the table, each once, in whatever order |
| SsTableWriter.ListsUnique | src/storage_engine/sstable/level/segment.rs:347-348 | a table has one listing, so the file does not depend on the order the hash map yields its keys in |
| SsTableWriter.SegmentFileFromMemtable | src/storage_engine/sstable/level/segment.rs:333-372 | the flush writes the table's entries in ascending order with every n-th indexed, and the footer |
| SsTableWriter.FlushOpenGet | src/storage_engine/sstable/level/segment.rs:333-372 | flushing, reopening and looking up gives the table's entry or nothing, for every non-empty table and sparsity |
| SsTableWriter.SegmentWriter.WriteEntry | src/storage_engine/sstable/level/segment.rs:434-449 | the file, its size and the index are those of the entries written so far |
| SsTableWriter.SegmentWriter.ReachedTargetSize | src/storage_engine/sstable/level/segment.rs:412-414 | holds if and only if data block, key length and twelve bytes for every indexed entry, and twelve bytes of footer reach the target size |
| SsTableWriter.SegmentWriter.WriteIndexAndFooter | src/storage_engine/sstable/level/segment.rs:419-431 | completes the file |
| SsTableWriter.FinishedIsSegmentFile | src/storage_engine/sstable/level/segment.rs:419-449 | a finished file opens as a segment of its entries, although its index need not begin with the first |
| SsTableReadBuf.ReadAtMost | src/storage_engine/sstable/level/segment.rs:180-205 | however the reads are split, the bytes up to one past the data block are decoded |
| SsTableReadBuf.ReadDecodes | src/storage_engine/sstable/level/segment.rs:180-205 | that byte too many changes nothing: exactly the frames that fit are decoded |
| SsTableReadBuf.SegmentReadBuf.Fill | src/storage_engine/sstable/level/segment.rs:619-628 | popped, buffered and undecoded entries still make up the segment, the offset is a record boundary, and the size is that of the buffered frames and within the limit |
| SsTableReadBuf.SegmentReadBuf.Front | src/storage_engine/sstable/level/segment.rs:636-638 | the first entry not yet popped |
| SsTableReadBuf.SegmentReadBuf.Back | src/storage_engine/sstable/level/segment.rs:631-633 | the last entry decoded |
| SsTableReadBuf.SegmentReadBuf.PopFront | src/storage_engine/sstable/level/segment.rs:641-649 | pops exactly that entry and its bytes from the size |
| SsTableReadBuf.ReachIsFirstTooLong | src/storage_engine/sstable/level/segment.rs:619-628 | a reader gets exactly as far as the end or the first frame longer than its limit |
| SsTableReadBuf.FillProgress | src/storage_engine/sstable/level/segment.rs:619-628 | a buffer is empty after a fill if and only if its reader has arrived there |
| MergeSpec.TwoQueuesReturn | src/storage_engine/sstable/level.rs:659-704 | with at most two queues no call gets stuck |
| MergeSpec.OutputWithinHorizon | src/storage_engine/sstable/level.rs:573-576 | no output key exceeds the smallest last key |
| MergeSpec.OutputIsNewest | src/storage_engine/sstable/level.rs:651-658 | of each popped key the newest popped version is put out |
| MergeSpec.CallProgresses | src/storage_engine/sstable/level.rs:620-745 | every call that returns pops something and puts the lowest first key out first |
| MergeSpec.NextCallContinuesIff | src/storage_engine/sstable/level.rs:637-638 | the outputs of two successive calls are in order if and only if no leftover lies at or below the first output's end, which the first call's queues alone decide, after any refill of the drained queues |
| MergeSpec.LeftoversAboveIff | src/storage_engine/sstable/level.rs:637-638 | a call leaves only entries above its output if and only if its input queues are cut in order: no queue pops an entry at or above one that another keeps |
| MergeSpec.OutputsAscendIff | src/storage_engine/sstable/level.rs:513-546 | the outputs of any calls following each other are ascending if and only if every call but the last cuts its queues in order |
| MergeSpec.MergeAscendsIff | src/storage_engine/sstable/level.rs:513-546 | a whole merge puts out an ascending sequence if and only if all its calls cut their queues in order |
| MergeSpec.HorizonEmptiedIff | src/storage_engine/sstable/level.rs:637-638 | a call empties the horizon if and only if no queue reaches a larger first key of another within it |
| MergeSpec.LayeredContinues | src/storage_engine/sstable/level.rs:637-638 | then it leaves nothing at or below its output |
| MergeSpec.LayeredRunsAscend | src/storage_engine/sstable/level.rs:513-546 | if the queues of every call are layered, the whole merge puts out one ascending sequence |
| MergeSpec.ThreeQueuesCanSpin | src/storage_engine/sstable/level.rs:685-702 | three queues on which the loop never ends |
| MergeSpec.LeftoverBelowOutput | src/storage_engine/sstable/level.rs:706-717 | two queues whose leftovers lie below the output, because a single drained queue is never put back |
| MergeSpec.SentinelIff | src/storage_engine/sstable/level.rs:574-576 | the first loop finds the least last key if and only if none is empty or the last visited one is |
| MergeSort.Prepare | src/storage_engine/sstable/level.rs:569-619 | in any visiting order: the smallest last key, the queues within it, all queues of the lowest first key and all of the next |
| MergeSort.NextGroup | src/storage_engine/sstable/level.rs:718-744 | all queues of the next first key, in any visiting order |
| MergeSort.DrainOne | src/storage_engine/sstable/level.rs:637-649 | pops exactly the entries within the horizon and below the next first key |
| MergeSort.PotentialNext | src/storage_engine/sstable/level.rs:660-678 | the newest version of the lowest front within the horizon, none if all fronts lie beyond |
| MergeSort.MergeGroup | src/storage_engine/sstable/level.rs:650-705 | merges queues that begin with the same key, or never ends if and only if one holds an entry in the horizon that is not below the next first key |
| MergeSort.RoundStep | src/storage_engine/sstable/level.rs:620-745 | a round keeps the state of the loop for all other queues and hands over to the next key |
| MergeSort.MergeSort | src/storage_engine/sstable/level.rs:558-747 | for any visiting order: never returns if and only if the queues are stuck; otherwise how far each queue is popped, and output strictly ascending, only popped entries, none lost |
| MergeWrite.WriteOut | src/storage_engine/sstable/level.rs:519-535 | starts a new file before an entry exactly when the open one has reached 64 MiB, so every closed file has and without its last entry had not; no entry is lost or reordered, and each closed file opens as a segment |
| MergeRounds.RoundConsistent | src/storage_engine/sstable/level.rs:513-546 | before every round each input's buffer is within its size, and empty only where the input's reach ends |
| MergeRounds.EndsUnstuck | src/storage_engine/sstable/level.rs:513-546 | rounds that return and leave nothing decide that no round gets stuck |
| MergeRounds.TwoInputsReturn | src/storage_engine/sstable/level.rs:513-546 | with two inputs no round ever gets stuck |
| MergeRounds.ThreeInputsGetStuck | src/storage_engine/sstable/level.rs:513-546 | three inputs of two entries on which a merge never returns, at every buffer size of a hundred bytes or more |
| MergeWrite.Round | src/storage_engine/sstable/level.rs:513-546 | one round never returns if and only if the queues at its position are stuck; otherwise it is one call with its refill, leads to the next position, which the inputs determine, pops at least one entry, keeps the data and drops only exhausted readers |
| MergeWrite.RefillIsRefilled | src/storage_engine/sstable/level.rs:536-546 | the refill of a round keeps every leftover in front and puts newly read entries above the queue they continue, so the results on successive calls apply to it |
| MergeWrite.AllReachedIff | src/storage_engine/sstable/level.rs:483-488 | all of every input is reached if and only if each framed entry fits the read buffer |
| MergeWrite.TakenWholeIff | src/storage_engine/sstable/level.rs:483 | every input is taken whole if and only if each of its framed entries has at most 10 MiB divided by the number of inputs, and one byte |
| MergeWrite.CallsWithinBuffers | src/storage_engine/sstable/level.rs:483-488 | in no round do all buffers together hold more than 10 MiB and one byte for each input |
| MergeWrite.MergeAndWrite | src/storage_engine/sstable/level.rs:479-555 | the inputs alone decide: it never returns if and only if some round gets stuck, which takes three inputs, and panics if and only if nothing can be read; otherwise the files hold the outputs of exactly those rounds in order, ascending if and only if every round cuts its queues in order, every entry comes from an input, every reachable entry is written or superseded by one at least as new, the new segments open, and all but the last have reached 64 MiB with their last entry; inputs whose framed entries have at most 10 MiB divided by their number and one byte are taken whole, and two such are written |
| Levels.OverlappingGet | src/storage_engine/sstable/level.rs:278-296 | the newest version over all segments |
| Levels.FindContainingSegment | src/storage_engine/sstable/level.rs:415-426 | a segment whose range holds the key, or none does |
| Levels.ContainingIsUnique | src/storage_engine/sstable/level.rs:415-426 | in a partitioned level it is the only one, so a segment left in place keeps answering |
| Levels.PartitionedGet | src/storage_engine/sstable/level.rs:346-351 | on a partitioned level the lookup answers for the whole level |
| Levels.TableGet | src/storage_engine/sstable.rs:61-86 | the first level that has the key answers, with its newest version there |
| Levels.LevelsAnswerIff | src/storage_engine/sstable.rs:61-86 | the answer is the newest version in the first level that has the key, and none if no level has it |
| Levels.OverlapsIff | src/storage_engine/sstable/level/segment.rs:300-302 | the overlap test holds if and only if the ranges share a key |
| Levels.Classify | src/storage_engine/sstable/level.rs:445-460 | every segment of the level goes to exactly one side, once and in order: to the merged ones if and only if it overlaps an incoming one |
| Levels.SingleIncomingClearsHull | src/storage_engine/sstable/level.rs:445-466 | with one incoming segment every untouched one lies outside the hull of what is merged |
| Levels.KeepsPartitionIff | src/storage_engine/sstable/level.rs:464-472 | every disjoint replacement inside the hull keeps the level partitioned if and only if no untouched segment reaches into the hull |
| Levels.TwoIncomingCanReach | src/storage_engine/sstable/level.rs:449-456 | with two incoming segments one can |
| LevelMerge.WrittenInsideHull | src/storage_engine/sstable/level.rs:479-555 | whatever a merge writes lies inside the hull of its inputs, in order or not |
| LevelMerge.AscendingIsPartitioned | src/storage_engine/sstable/level.rs:519-535 | written in order, the new segments are sorted and disjoint |
| LevelMerge.InOrderAnswers | src/storage_engine/sstable/level.rs:346-351 | if what was written is ascending and every frame fits the buffer, the newest version among the new segments is the newest over all inputs |
| LevelMerge.MergeThenGet | src/storage_engine/sstable/level.rs:479-555 | if every framed entry has at most 10 MiB divided by the number of segments and one byte, the merge is written if and only if no round gets stuck, so always for two segments; if moreover every round cuts its queues in order, a lookup in the new segments answers the newest version over all inputs; when it never returns or panics is said for all inputs |
| LevelMerge.MergedLevelIsPartitioned | src/storage_engine/sstable/level.rs:464-472 | a level into which one segment is merged in order is partitioned again |
| Store.StepKeepsInv | src/storage_engine/memtable.rs:395-419 | every write and every step of a flush keeps the invariant on sequence numbers |
| Store.StepRefinesMap | src/storage_engine/memtable.rs:395-419 | a write changes the map at its key only, the steps of a flush not at all |
| Store.RunRefinesMap | src/storage_engine/memtable.rs:395-419 | over a whole run the map holds the last write of each key, whenever flushes happened |
| Store.ReadsAreLinearizable | src/storage_engine.rs:192-200 | in every interleaving a read returns the key's map value at some state between its two stages, tombstones included |
| Store.FlushedIsLastWrite | src/storage_engine/sstable/level.rs:278-296 | however the history is cut into flushes, the newest flushed version is the last flushed write |
| Store.SstIsLastWrite | src/storage_engine/sstable.rs:61-86 | the sorted table answers every key with the last write of everything flushed, over deeper levels that hold the entries before |
| Store.ReplayOverlapIsHarmless | src/storage_engine/memtable.rs:58-61 | replaying from any flushed entry answers every key as before the restart |
| Store.RestartedMap | src/storage_engine.rs:112-128 | the restarted engine satisfies the invariant and maps each key to its last write over the whole history, however that was flushed and wherever among the flushed entries the replay starts |
| Store.RestartInv | src/storage_engine.rs:122-128 | the restarted engine, whatever its deeper levels hold, is again in a state from which all of the above holds |
| EngineReads.NewestIsZeroLookup | src/storage_engine/sstable/level.rs:278-296 | the newest version over the segments of flushed tables is the one of the latest flush that has the key |
| EngineReads.SegmentsAnswer | src/storage_engine/sstable.rs:61-86 | in every state that satisfies the invariant a lookup in the segments answers what the state machine's sorted table does |
| EngineRuns.RunJob | src/storage_engine/memtable.rs:395-419 | one job of the write worker is a run of the state machine: a whole flush if the accounted size has reached the maximum, then the write |
| EngineRuns.RunJobs | src/storage_engine/memtable.rs:395-420 | the worker's loop over any jobs is a run of the state machine that writes the jobs in order and flushes before a job exactly when the length accounted for since the last flush has reached the maximum |
| EngineRuns.StartEngine | src/storage_engine.rs:112-128 | after a start from any flushed entry that reads the log up to its end or a reported damage, the engine is in a state that satisfies the invariant and maps each key to its last write up to there, however the entries had been flushed |
| EngineRuns.StartAndRun | src/storage_engine.rs:112-128 | a start that leaves a log, followed by any jobs: the table is flushed before a job exactly when the length accounted for since the last flush, the replayed entries included, has reached the size given to the start, and every key ends with its last job, or else its last write in the log |
| EngineRuns.MissedLosesWrites | src/storage_engine/memtable.rs:57-85 | after a start that misses the active file no key written there has its last write in the table |
| Compaction.CompactionBt.RemoveSegmentFiles | src/storage_engine/sstable/compaction.rs:172-194 | a file is removed if and only if its segment is listed and referred to by nothing else; the list keeps exactly the other segments, each as often as before and in order |
| Compaction.RemoveIndices | src/storage_engine/sstable/compaction.rs:183-187 | removal by index from the back leaves exactly the still-referenced ones |
| Compaction.NoLevelRefsIff | src/storage_engine/sstable/compaction.rs:176-178 | the reference count shows no level if and only if no held level contains the segment |
| Compaction.RemovedIsUnheld | src/storage_engine/sstable/compaction.rs:172-194 | a file goes only when no held level, current or a reader's, contains its segment |
| Compaction.CleanupRemovesIff | src/storage_engine/sstable/compaction.rs:172-194 | a listed segment loses its file if and only if it is listed once and no held level contains it |
| Compaction.ReaderKeepsFiles | src/storage_engine/sstable.rs:61-86 | until a reader drops its snapshot, every level in it stays as it was and every file of its segments is there, through all flushes, swaps and cleanups |
| Compaction.FlushKeepsCurrent | src/storage_engine/sstable.rs:88-95 | a flush adds its segment to the current levels and takes none away |
| Compaction.SwapRetires | src/storage_engine/sstable/compaction.rs:196-237 | a swap that leaves a segment in no current level and lists it once retires it |
| Compaction.RetiredIsReclaimed | src/storage_engine/sstable/compaction.rs:172-237 | the first cleanup that finds no reader holding a retired segment removes its file, whatever happened in between |
| Compaction.StepKeepsSafe | src/storage_engine/sstable/compaction.rs:196-237 | every segment of a held level keeps its file through snapshots, drops, flushes, swaps and cleanups |
| Compaction.RemovedForGood | src/storage_engine/sstable/compaction.rs:196-237 | over every interleaving, once a file is gone nobody holds or ever comes to hold its segment |

## Left out

- The TCP layer, the server and the async interface (`src/tcp`, `src/lib.rs`): plumbing around the engine.
- Threads, channels, condition variables, poisoned locks and fsync: their effect is modelled as atomic steps.
- UTF-8: keys and values are byte strings; the `from_utf8` errors of the decoders are not modelled.
- Checksum internals: `crc` is any function.
- I/O errors of the file system and partial reads in `read_table_entries` and `read_table_entry`, whose offsets add the cumulative count; `read_at_most` is modelled with short reads.
- Release-build wrap-around where a debug build panics on underflow.
- Writers onto files that already exist: `create_new_segment` and the flush open without truncating; the model's files are new.
- Segment file names of the sorted table, and that the flusher writes to the configured directory while start-up reads its `SSTable` sub-directory.
- `segments_to_merge`, `from_dir`, `check_merge_status`, `finish_merge`, `rollback_merge` and `swap_all_levels` emptying level zero after a concurrent flush: whole compactions need not preserve meaning, so only single merges, lookups and reclamation are modelled.
- The final sort of a merged level by first key: disjointness and lookups are stated for any order.
- The value a put or delete returns to the client beyond the previous table entry.
- MergeSort: takes the queues' contents and returns their leftovers; `MergeWrite` pops the readers in place afterwards. It asks for non-empty, ascending queues that do not end in an empty key.
- MergeAndWrite: asks for inputs with ascending, non-empty keys, so merging outputs that are out of order, as `MergeSpec.LeftoverBelowOutput` shows they can be, is not covered.
- Start: the sequence number it is given is that of an entry up to the damage or the beginning of the log; an active file that a crash left without any byte is not covered when it fails its listing test. What a worker does whose invariant does not hold is not followed further.
- FlushOpenGet: asks for entries and a data block within the 32-bit and 64-bit length fields of the format.
- Run: the shutdown flush and the `todo!()` on a failed flush.
- FromFile: the number `highest_sequence_number` yields is the highest of the last index block only; recovery needs no more than that it belongs to a flushed entry.
- The deeper levels in `Store` do not change: reads across a compaction swap are not modelled.
