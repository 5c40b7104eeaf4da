/** The in-memory table: recovery from the log, and the worker that logs, applies and accounts for every write. */
module MemTable {
  import opened Bytes
  import opened Options
  import opened WalRecord
  import opened WalScan
  import opened WalLayout
  import opened Wal
  import S = SsTableEntries

  datatype MemTableValue = MemTableValue(value: Option<seq<byte>>, lsn: nat)

  type Table = map<Key, MemTableValue>

  function ValueOf(e: WalEntry): MemTableValue {
    MemTableValue(e.value, e.lsn)
  }

  /** The length the entry will have in the sorted table. */
  function EntryLen(e: WalEntry): nat {
    S.SsTableEntry(e.key, e.value, e.lsn).Len()
  }

  function ApplyAll(table: Table, es: seq<WalEntry>): Table
    decreases |es|
  {
    if es == [] then table else ApplyAll(table[es[0].key := ValueOf(es[0])], es[1..])
  }

  function TotalLen(es: seq<WalEntry>): nat {
    if es == [] then 0 else EntryLen(es[0]) + TotalLen(es[1..])
  }

  /** The entries as the sorted table would hold them. */
  function TableEntries(es: seq<WalEntry>): (entries: seq<S.SsTableEntry>)
    ensures |entries| == |es|
    ensures forall i :: 0 <= i < |es| ==> entries[i] == S.SsTableEntry(es[i].key, es[i].value, es[i].lsn)
  {
    seq(|es|, i requires 0 <= i < |es| => S.SsTableEntry(es[i].key, es[i].value, es[i].lsn))
  }

  /** The accounted size is the length of these entries, encoded, without the four bytes in front of each. */
  lemma {:induction false} AccountedIsEncoded(es: seq<WalEntry>)
    ensures |S.Frames(TableEntries(es))| == TotalLen(es) + 4 * |es|
  {
    hide S.Frame;
    if es != [] {
      AccountedIsEncoded(es[1..]);
      assert TableEntries(es)[1..] == TableEntries(es[1..]);
    }
  }

  lemma {:induction false} ApplyConcat(table: Table, a: seq<WalEntry>, b: seq<WalEntry>)
    ensures ApplyAll(table, a + b) == ApplyAll(ApplyAll(table, a), b)
    ensures TotalLen(a + b) == TotalLen(a) + TotalLen(b)
    decreases |a|
  {
    if a == [] {
      assert a + b == b;
    } else {
      ApplyConcat(table[a[0].key := ValueOf(a[0])], a[1..], b);
      assert (a + b)[1..] == a[1..] + b;
    }
  }

  lemma {:induction false} ApplyOne(table: Table, a: seq<WalEntry>, e: WalEntry)
    ensures ApplyAll(table, a + [e]) == ApplyAll(table, a)[e.key := ValueOf(e)]
    ensures TotalLen(a + [e]) == TotalLen(a) + EntryLen(e)
  {
    ApplyConcat(table, a, [e]);
    var none: seq<WalEntry> := [e][1..];
    assert none == [];
  }

  /** The value the last write of a key left, looking from the newest entry back. */
  function LastWrite(es: seq<WalEntry>, key: Key): Option<MemTableValue> {
    if es == [] then None
    else
      var e := es[|es| - 1];
      if e.key == key then Some(ValueOf(e)) else LastWrite(es[..|es| - 1], key)
  }

  function Lookup(table: Table, key: Key): Option<MemTableValue> {
    if key in table then Some(table[key]) else None
  }

  /** Replay is last-write-wins. */
  lemma {:induction false} ReplayIsLastWrite(es: seq<WalEntry>, key: Key)
    ensures Lookup(ApplyAll(map[], es), key) == LastWrite(es, key)
  {
    if es != [] {
      var init := es[..|es| - 1];
      ReplayIsLastWrite(init, key);
      ApplyOne(map[], init, es[|es| - 1]);
      assert es == init + [es[|es| - 1]];
    }
  }

  // ---------- recovery ----------

  // Failed: the log is corrupted from the given file and offset on. Panicked: the original aborts.
  datatype RecoverResult = Recovered(size: nat) | Failed(size: nat, path: FileName, offset: nat) | Panicked

  function ResultOf(r: ScanResult): RecoverResult {
    match r.outcome
    case Corrupted(path, offset) => Failed(TotalLen(r.entries), path, offset)
    case Panics => Panicked
    case _ => Recovered(TotalLen(r.entries))
  }

  ghost predicate Readable(segments: seq<Segment>)
    reads set i | 0 <= i < |segments| :: segments[i], set i | 0 <= i < |segments| :: segments[i].dir
  {
    forall i :: 0 <= i < |segments| ==> segments[i].path in segments[i].dir.files
  }

  ghost function LogFiles(segments: seq<Segment>): (files: seq<LogFile>)
    requires Readable(segments)
    reads set i | 0 <= i < |segments| :: segments[i], set i | 0 <= i < |segments| :: segments[i].dir
    ensures |files| == |segments| && forall i :: 0 <= i < |files| ==> files[i] == segments[i].Read()
  {
    if segments == [] then [] else
      assert forall i :: 0 <= i < |segments| - 1 ==> segments[1..][i] == segments[i + 1];
      [segments[0].Read()] + LogFiles(segments[1..])
  }

  method InsertAll(entries: seq<WalEntry>, table: Table, size: nat) returns (table': Table, size': nat)
    ensures table' == ApplyAll(table, entries) && size' == size + TotalLen(entries)
  {
    table', size' := table, size;
    assert entries[..|entries|] == entries && entries[..0] == [];
    for i := 0 to |entries|
      invariant table' == ApplyAll(table, entries[..i]) && size' == size + TotalLen(entries[..i])
    {
      var entry := entries[i];
      var value := MemTableValue(entry.value, entry.lsn);
      size' := size' + S.SsTableEntry(entry.key, value.value, value.lsn).Len();
      table' := table'[entry.key := value];
      ApplyOne(table, entries[..i], entry);
      assert entries[..i + 1] == entries[..i] + [entry];
    }
  }

  /** One file more of the scan. */
  lemma {:induction false} ScanStep(crc: Checksum, files: seq<LogFile>, i: nat, offset: nat,
                                    carry: Option<PartialEntry>)
    requires i <= |files|
    ensures
      var s := Scan(crc, files[i..], offset, carry);
      if i == |files| then
        s == ScanResult([], if carry.Some? then Corrupted(carry.value.path, carry.value.offset) else Complete)
      else
        var r := ScanFile(crc, files[i], offset, carry);
        var next := if carry.None? then 0 else offset;
        match r.outcome
        case Complete => s == Prepend(r.entries, Scan(crc, files[i + 1..], next, None))
        case Partial(p) => s == Prepend(r.entries, Scan(crc, files[i + 1..], next, Some(p)))
        case _ => s == r
  {
    hide ScanFile;
    if i < |files| {
      assert files[i..][1..] == files[i + 1..];
    }
  }

  /** One segment: both arms of the original's match on the partial entry, up to the decision how to go on. */
  method RecoverSegment(crc: Checksum, segment: Segment, offset: nat, partialEntry: Option<PartialEntry>,
                        table: Table, size: nat)
    returns (outcome: Outcome, table': Table, size': nat)
    requires segment.path in segment.dir.files
    ensures
      var r := ScanFile(crc, segment.Read(), offset, partialEntry);
      outcome == r.outcome && table' == ApplyAll(table, r.entries) && size' == size + TotalLen(r.entries)
  {
    hide ApplyAll, TotalLen, FromOffset, FromPartial;
    var read;
    match partialEntry {
      case None =>
        read, outcome := segment.ReadParseValidateFromOffset(crc, offset);
        table', size' := InsertAll(read, table, size);
      case Some(partEntry) =>
        read, outcome := segment.ReadParseValidateFromPartialRecord(crc, partEntry.bytes);
        var noCurrentEntries := read == [];
        table', size' := InsertAll(read, table, size);
        if outcome.Corrupted? && noCurrentEntries {
          outcome := Corrupted(partEntry.path, partEntry.offset);
        }
    }
    assert ScanResult(read, outcome) == ScanFile(crc, segment.Read(), offset, partialEntry);
  }

  /**
   * Replays the segments from the starting offset of the first one on. The entries that are applied, the corruption
   * that is reported and the returned size are those of the scan over the files.
   */
  method Recover(crc: Checksum, segments: seq<Segment>, startingOffset: nat, table: Table)
    returns (result: RecoverResult, table': Table)
    requires Readable(segments)
    ensures
      var r := Scan(crc, LogFiles(segments), startingOffset, None);
      result == ResultOf(r) && (!result.Panicked? ==> table' == ApplyAll(table, r.entries))
  {
    hide Scan, ScanFile, ApplyAll, TotalLen, Prepend, LogFiles;
    ghost var files := LogFiles(segments);
    ghost var whole := Scan(crc, files, startingOffset, None);
    ghost var done: seq<WalEntry> := [];
    var currSize: nat := 0;
    // the starting offset is used once, for the first segment
    var offset := startingOffset;
    var partialEntry: Option<PartialEntry> := None;
    table' := table;
    EmptyApply(table);
    PrependNothing(whole);
    assert files[0..] == files;
    for i := 0 to |segments|
      invariant whole == Prepend(done, Scan(crc, files[i..], offset, partialEntry))
      invariant table' == ApplyAll(table, done) && currSize == TotalLen(done)
    {
      ScanStep(crc, files, i, offset, partialEntry);
      ghost var entries := ScanFile(crc, files[i], offset, partialEntry).entries;
      var res;
      res, table', currSize := RecoverSegment(crc, segments[i], offset, partialEntry, table', currSize);
      ApplyConcat(table, done, entries);
      if partialEntry.None? {
        offset := 0;
      }
      match res {
        case Corrupted(fp, pos) =>
          StopHere(done, entries, res);
          return Failed(currSize, fp, pos), table';
        case Panics =>
          StopHere(done, entries, res);
          return Panicked, table';
        case Complete =>
          partialEntry := None;
        case Partial(p) =>
          partialEntry := Some(p);
      }
      PrependTwice(done, entries, Scan(crc, files[i + 1..], offset, partialEntry));
      done := done + entries;
    }
    ScanStep(crc, files, |files|, offset, partialEntry);
    // a record that is unfinished in the last segment is a corruption
    StopHere(done, [], if partialEntry.Some? then Corrupted(partialEntry.value.path, partialEntry.value.offset) else Complete);
    assert done + [] == done;
    match partialEntry {
      case Some(entry) => result := Failed(currSize, entry.path, entry.offset);
      case None => result := Recovered(currSize);
    }
  }

  lemma {:induction false} StopHere(soFar: seq<WalEntry>, read: seq<WalEntry>, outcome: Outcome)
    ensures Prepend(soFar, ScanResult(read, outcome)) == ScanResult(soFar + read, outcome)
  {
  }

  lemma {:induction false} EmptyApply(table: Table)
    ensures ApplyAll(table, []) == table && TotalLen([]) == 0
  {
  }
}
