/** The write worker: every write is logged, applied and accounted for; a full table is flushed before the next job. */
module MemTableWorker {
  import opened Bytes
  import opened Options
  import opened WalRecord
  import opened WalLog
  import opened Wal
  import opened MemTable
  import S = SsTableEntries

  datatype WriteJob = DeleteJob(key: Key) | PutJob(key: Key, value: seq<byte>)

  function EntryOf(job: WriteJob, lsn: nat): WalEntry {
    match job
    case DeleteJob(key) => WalEntry(Delete, key, None, lsn)
    case PutJob(key, value) => WalEntry(Put, key, Some(value), lsn)
  }

  /** What a job adds to the accounted size: the length of its entry in the sorted table. */
  function JobLen(job: WriteJob): nat {
    match job
    case DeleteJob(key) => |key| + 17
    case PutJob(key, value) => |key| + |value| + 17
  }

  class WriteWorker {
    const wal: Wal
    const maxSize: nat
    var table: Table
    var currentSize: nat
    // the tables handed to the flusher, oldest first
    var flushed: seq<Table>
    // number of log entries that are no longer in the table
    ghost var since: nat

    /** The table and its size are those of a replay of the log from entry `since` on. */
    ghost predicate Valid()
      reads this, wal, wal.dir, wal.activeSegment
    {
      && wal.Valid()
      && since <= |wal.log.entries|
      && table == ApplyAll(map[], wal.log.entries[since..])
      && currentSize == TotalLen(wal.log.entries[since..])
    }

    constructor (wal: Wal, table: Table, currSize: nat, maxSize: nat, ghost since: nat)
      requires since <= |wal.log.entries|
      requires table == ApplyAll(map[], wal.log.entries[since..]) && currSize == TotalLen(wal.log.entries[since..])
      ensures this.wal == wal && this.since == since && flushed == [] && this.table == table && currentSize == currSize
      ensures this.maxSize == maxSize
      ensures Valid() <==> wal.Valid()
    {
      hide Wal.Valid;
      this.wal := wal;
      this.table := table;
      this.maxSize := maxSize;
      currentSize := currSize;
      flushed := [];
      this.since := since;
    }

    method Put(key: Key, value: seq<byte>) returns (previous: Option<MemTableValue>)
      requires Valid() && CanAppend(wal.log, EntryOf(PutJob(key, value), wal.log.NextLsn()))
      modifies this, wal, wal.dir, wal.activeSegment
      ensures Valid() && since == old(since) && flushed == old(flushed)
      ensures wal.log == AppendLog(wal.crc, old(wal.log), EntryOf(PutJob(key, value), old(wal.log.NextLsn())))
      ensures table == old(table)[key := MemTableValue(Some(value), old(wal.log.NextLsn()))]
      ensures previous == Lookup(old(table), key) && currentSize == old(currentSize) + |key| + |value| + 17
      ensures wal.activeSegment == old(wal.activeSegment) || fresh(wal.activeSegment)
    {
      hide AppendLog, CanAppend, Wal.Valid, Log.NextLsn;
      LogGrows(wal, EntryOf(PutJob(key, value), wal.log.NextLsn()), since);
      var sequenceNumber := wal.NextSequenceNumber();
      var entry := WalEntry(WalRecord.Put, key, Some(value), sequenceNumber);
      wal.Append(entry);
      var mvalue := MemTableValue(Some(value), sequenceNumber);
      var len := S.SsTableEntry(key, mvalue.value, mvalue.lsn).Len();
      previous := if key in table then Some(table[key]) else None;
      table := table[key := mvalue];
      currentSize := currentSize + len;
    }

    method Delete(key: Key) returns (previous: Option<MemTableValue>)
      requires Valid() && CanAppend(wal.log, EntryOf(DeleteJob(key), wal.log.NextLsn()))
      modifies this, wal, wal.dir, wal.activeSegment
      ensures Valid() && since == old(since) && flushed == old(flushed)
      ensures wal.log == AppendLog(wal.crc, old(wal.log), EntryOf(DeleteJob(key), old(wal.log.NextLsn())))
      ensures table == old(table)[key := MemTableValue(None, old(wal.log.NextLsn()))]
      ensures previous == Lookup(old(table), key) && currentSize == old(currentSize) + |key| + 17
      ensures wal.activeSegment == old(wal.activeSegment) || fresh(wal.activeSegment)
    {
      hide AppendLog, CanAppend, Wal.Valid, Log.NextLsn;
      LogGrows(wal, EntryOf(DeleteJob(key), wal.log.NextLsn()), since);
      var sequenceNumber := wal.NextSequenceNumber();
      var entry := WalEntry(WalRecord.Delete, key, None, sequenceNumber);
      wal.Append(entry);
      var mvalue := MemTableValue(None, sequenceNumber);
      var len := S.SsTableEntry(key, mvalue.value, mvalue.lsn).Len();
      previous := if key in table then Some(table[key]) else None;
      table := table[key := mvalue];
      currentSize := currentSize + len;
    }

    /** One round of the worker's loop: the table is flushed and cleared when it has reached its maximal size. */
    method Run(job: WriteJob) returns (previous: Option<MemTableValue>)
      requires Valid() && CanAppend(wal.log, EntryOf(job, wal.log.NextLsn()))
      modifies this, wal, wal.dir, wal.activeSegment
      ensures Valid()
      ensures wal.log == AppendLog(wal.crc, old(wal.log), EntryOf(job, old(wal.log.NextLsn())))
      ensures
        var flush := old(currentSize) >= maxSize;
        var before := if flush then map[] else old(table);
        && flushed == old(flushed) + (if flush then [old(table)] else [])
        && since == (if flush then |old(wal.log.entries)| else old(since))
        && currentSize == (if flush then 0 else old(currentSize)) + JobLen(job)
        && previous == Lookup(before, job.key)
        && table == before[job.key := ValueOf(EntryOf(job, old(wal.log.NextLsn())))]
      ensures wal.activeSegment == old(wal.activeSegment) || fresh(wal.activeSegment)
    {
      hide AppendLog, CanAppend, Wal.Valid, ApplyAll, TotalLen;
      if currentSize >= maxSize {
        flushed := flushed + [table];
        currentSize := 0;
        table := map[];
        since := |wal.log.entries|;
        assert wal.log.entries[since..] == [];
        EmptyApply(map[]);
      }
      match job {
        case DeleteJob(key) => previous := Delete(key);
        case PutJob(key, value) => previous := Put(key, value);
      }
    }
  }

  /** What an append means for the entries from `since` on. */
  lemma {:induction false} LogGrows(wal: Wal, e: WalEntry, since: nat)
    requires wal.Valid() && CanAppend(wal.log, e) && since <= |wal.log.entries|
    ensures wal.log.NextLsn() == e.lsn
    ensures
      var es := AppendLog(wal.crc, wal.log, e).entries;
      && since <= |es|
      && ApplyAll(map[], es[since..]) == ApplyAll(map[], wal.log.entries[since..])[e.key := ValueOf(e)]
      && TotalLen(es[since..]) == TotalLen(wal.log.entries[since..]) + EntryLen(e)
  {
    hide ApplyAll, TotalLen, Encode, OnDisk;
    var es := AppendLog(wal.crc, wal.log, e).entries;
    assert es[since..] == wal.log.entries[since..] + [e];
    ApplyOne(map[], wal.log.entries[since..], e);
  }

  // ---------- the size is conservative ----------

  function SizeOf(key: Key, value: MemTableValue): nat {
    S.SsTableEntry(key, value.value, value.lsn).Len()
  }

  /** The total encoded length of a table. */
  ghost function TableLen(table: Table): nat {
    if table == map[] then 0
    else
      var key :| key in table;
      SizeOf(key, table[key]) + TableLen(table - {key})
  }

  lemma {:induction false} TableLenWithout(table: Table, key: Key)
    requires key in table
    ensures TableLen(table) == SizeOf(key, table[key]) + TableLen(table - {key})
  {
    var k :| k in table && TableLen(table) == SizeOf(k, table[k]) + TableLen(table - {k});
    if k != key {
      TableLenWithout(table - {k}, key);
      TableLenWithout(table - {key}, k);
      assert table - {k} - {key} == table - {key} - {k};
    }
  }

  lemma {:induction false} TableLenInsert(table: Table, key: Key, value: MemTableValue)
    ensures TableLen(table[key := value]) <= TableLen(table) + SizeOf(key, value)
  {
    var t := table[key := value];
    TableLenWithout(t, key);
    assert t - {key} == table - {key};
    if key in table {
      TableLenWithout(table, key);
    } else {
      assert table - {key} == table;
    }
  }

  /** The accounted size is never below the encoded length of the live table, however often keys are overwritten. */
  lemma {:induction false} SizeIsConservative(table: Table, es: seq<WalEntry>)
    ensures TableLen(ApplyAll(table, es)) <= TableLen(table) + TotalLen(es)
    decreases |es|
  {
    if es != [] {
      TableLenInsert(table, es[0].key, ValueOf(es[0]));
      SizeIsConservative(table[es[0].key := ValueOf(es[0])], es[1..]);
    }
  }
}
