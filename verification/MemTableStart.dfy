/**
 * Start-up: recovering the table from whatever the last run left behind, and continuing or repairing the log. A
 * complete log is continued; a damaged or torn one is cut where the corruption is reported and continued there; one
 * whose active file is not listed is not read to its end.
 */
module MemTableStart {
  import opened Bytes
  import opened Options
  import opened WalRecord
  import opened WalScan
  import opened WalLayout
  import opened WalNames
  import opened WalLog
  import opened WalReplay
  import opened Wal
  import opened MemTable
  import opened MemTableWorker
  import opened MemTableFiles
  import opened WalRepair
  import opened WalCrash
  import opened WalMissed
  import opened WalUnique

  // ---------- continuing and repairing ----------

  datatype StartResult = Started(worker: WriteWorker) | StartFailed | StartPanicked

  /** A started worker that takes the directory for the given log, its table holding the writes from entry `from` on. */
  ghost predicate StartedOn(res: StartResult, crc: Checksum, dir: Directory, l: Log, from: nat, maxSize: nat)
    reads if res.Started? then {res.worker, res.worker.wal} else {}
  {
    && res.Started? && from <= |l.entries|
    && res.worker.wal.crc == crc && res.worker.wal.dir == dir && res.worker.wal.log == l
    && res.worker.wal.segmentMaxSize == l.segmentSize && res.worker.maxSize == maxSize
    && res.worker.since == from && res.worker.flushed == []
    && res.worker.table == ApplyAll(map[], l.entries[from..]) && res.worker.currentSize == TotalLen(l.entries[from..])
  }

  /** The worker's invariant holds, so in particular the directory does hold that log. */
  ghost predicate Works(res: StartResult)
    reads if res.Started? then {res.worker, res.worker.wal, res.worker.wal.dir, res.worker.wal.activeSegment} else {}
  {
    res.Started? && res.worker.Valid()
  }

  /** The log's files are there, and the last of them is listed when all are. */
  ghost predicate CanContinue(disk: map<FileName, seq<byte>>, l: Log) {
    Closed(l) && OnDisk(disk, l) && LastIsListed(l, 0)
  }

  /** The last file of the directory is continued, whether or not a record is torn at its end. */
  method ContinueLog(crc: Checksum, dir: Directory, segmentSize: nat, table: Table, size: nat, maxSize: nat,
                     ghost l: Log, ghost from: nat) returns (res: StartResult)
    requires CanContinue(dir.files, l) && l.segmentSize == segmentSize
    requires from <= |l.entries| && table == ApplyAll(map[], l.entries[from..]) && size == TotalLen(l.entries[from..])
    ensures res.Started? ==> fresh(res.worker) && fresh(res.worker.wal) && fresh(res.worker.wal.activeSegment)
    ensures StartedOn(res, crc, dir, l, from, maxSize)
    ensures Works(res) <==> l.Inv(crc)
  {
    hide Log.Inv, LastIsListed, SegmentName, OnDisk, FinalEntryAfter, BaseLsn, ApplyAll, TotalLen, Lists, Closed;
    LogNamesAreLong(dir.files, l);
    var last, paths := OpenLastSegment(dir, segmentSize);
    LastListed(dir.files, l, paths);
    if !last.LastSegment? {
      return StartFailed;
    }
    OnDiskFacts(dir.files, l);
    SegmentBase(segmentSize, l.numbers[|l.numbers| - 1]);
    var wal := new Wal.FromSegment(crc, dir, last.segment, segmentSize, l);
    var worker := new WriteWorker(wal, table, size, maxSize, from);
    res := Started(worker);
  }

  /** The file the log continues in. */
  lemma {:induction false} LastListed(disk: map<FileName, seq<byte>>, l: Log, paths: seq<FileName>)
    requires CanContinue(disk, l) && Lists(disk, 0, paths)
    ensures |l.numbers| == |l.files| > 0 && |l.files[|l.files| - 1]| <= l.segmentSize
    ensures l.segmentSize > 0 && l.numbers[|l.numbers| - 1] * l.segmentSize < U64_LIMIT
    ensures paths != [] && paths[|paths| - 1] == SegmentName(l.segmentSize, l.numbers[|l.numbers| - 1])
    ensures paths[|paths| - 1] in disk && disk[paths[|paths| - 1]] == l.files[|l.files| - 1]
  {
    hide SegmentName, Lists, OnDisk;
    OnDiskFacts(disk, l);
    MulPlus(l.numbers[0], 1, l.segmentSize);
    assert FirstCovering(l, 0, 0);
    ListingOf(disk, l, 0, 0, paths);
    assert paths == NamesOf(l);
    NameOnDisk(disk, l, |l.numbers| - 1);
  }

  /** The log ends in a file that is listed, at a place that can be cut back to. */
  ghost predicate CanRepair(crc: Checksum, disk: map<FileName, seq<byte>>, d: Log, cut: Log) {
    && Closed(d) && OnDisk(disk, d) && CutOf(cut, d) && cut.Inv(crc) && |d.files[|cut.files| - 1]| > 0
  }

  /**
   * The reported file is cut at the reported offset, the files listed behind the new end are removed, and the log
   * goes on there. The worker's invariant holds if and only if no file behind the cut is left.
   */
  method RepairLog(crc: Checksum, dir: Directory, segmentSize: nat, path: FileName, offset: nat, table: Table,
                   size: nat, maxSize: nat, ghost d: Log, ghost cut: Log, ghost from: nat) returns (res: StartResult)
    requires CanRepair(crc, dir.files, d, cut) && d.segmentSize == segmentSize
    requires path == SegmentName(segmentSize, cut.numbers[|cut.numbers| - 1]) && offset == EndOf(cut)
    requires from <= |cut.entries| && table == ApplyAll(map[], cut.entries[from..]) && size == TotalLen(cut.entries[from..])
    modifies dir
    ensures res.Started? ==> fresh(res.worker) && fresh(res.worker.wal) && fresh(res.worker.wal.activeSegment)
    ensures StartedOn(res, crc, dir, cut, from, maxSize)
    ensures Works(res) <==> FindsAllBehind(d, cut)
  {
    hide Log.Inv, LastIsListed, SegmentName, OnDisk, FinalEntryAfter, BaseLsn, ApplyAll, TotalLen, Lists, Closed,
         CutOf, FirstFrom,
         Listed, SetLen, EndOf;
    ghost var disk := dir.files;
    LogNamesAreLong(disk, d);
    CutFile(disk, d, cut);
    var segment := TruncateAndOpenSegmentFile(path, offset, dir, segmentSize);
    LessIrreflexive(path);
    if segment.None? {
      return StartFailed;
    }
    FirstFromIs(disk, path, segment.value.path);
    assert dir.files == CutDisk(disk, cut);
    var behind := ListSegmentFiles(dir, segment.value.NextLsn());
    CutFileStays(disk, d, cut, behind);
    RemoveFiles(dir, behind);
    RepairIff(disk, d, cut, behind, dir.files);
    var wal := new Wal.FromSegment(crc, dir, segment.value, segmentSize, cut);
    var worker := new WriteWorker(wal, table, size, maxSize, from);
    res := Started(worker);
  }

  /** The file that is cut, before and after. */
  lemma {:induction false} CutFile(disk: map<FileName, seq<byte>>, d: Log, cut: Log)
    requires Closed(d) && OnDisk(disk, d) && CutOf(cut, d) && |d.files[|cut.files| - 1]| > 0
    ensures d.segmentSize == cut.segmentSize > 0 && |cut.numbers| == |cut.files| > 0
    ensures cut.numbers[|cut.numbers| - 1] * cut.segmentSize < U64_LIMIT
    ensures
      var name := SegmentName(cut.segmentSize, cut.numbers[|cut.numbers| - 1]);
      && Listed(disk, name) && SetLen(disk[name], EndOf(cut)) == cut.files[|cut.files| - 1]
      && BaseLsn(name, cut.segmentSize) == cut.numbers[|cut.numbers| - 1] * cut.segmentSize
      && cut.NextLsn() == cut.numbers[|cut.numbers| - 1] * cut.segmentSize + EndOf(cut)
      && EndOf(cut) <= cut.segmentSize
      && forall other :: other in CutDisk(disk, cut) ==> |other| >= 24
  {
    hide SegmentName, OnDisk, BaseLsn, FinalEntryAfter;
    OnDiskFacts(disk, d);
    var p := |cut.files| - 1;
    assert cut.numbers[p] == d.numbers[p];
    SegmentBase(d.segmentSize, d.numbers[p]);
    NameOnDisk(disk, d, p);
    LogNamesAreLong(disk, d);
    NonEmptyIsListed(d.segmentSize, d.numbers[p], |d.files[p]|);
  }

  lemma {:induction false} NonEmptyIsListed(segmentSize: nat, number: nat, size: nat)
    requires segmentSize > 0 && LOGICAL_LOG % segmentSize == 0 && number * segmentSize < U64_LIMIT && size > 0
    ensures |SegmentName(segmentSize, number)| >= 24 && FinalEntryAfter(SegmentName(segmentSize, number), size, 0)
  {
    hide DetermineSegmentFilename, FinalEntryAfter;
    FinalEntryAfterMeans(segmentSize, number, size, 0);
    var lo := number * segmentSize % LOGICAL_LOG / segmentSize;
    MulAtLeast(lo + 1, 1, size);
    assert size * (lo + 1) == (lo + 1) * size;
  }

  /** The cut file itself does not lie behind the new end. */
  lemma {:induction false} CutFileStays(disk: map<FileName, seq<byte>>, d: Log, cut: Log, behind: seq<FileName>)
    requires Closed(d) && OnDisk(disk, d) && CutOf(cut, d)
    requires cut.segmentSize > 0 && cut.numbers[|cut.numbers| - 1] * cut.segmentSize < U64_LIMIT
    requires Lists(CutDisk(disk, cut), cut.NextLsn(), behind)
    ensures SegmentName(cut.segmentSize, cut.numbers[|cut.numbers| - 1]) !in behind
  {
    hide SegmentName, OnDisk, FinalEntryAfter, Log.NextLsn;
    var p := |cut.files| - 1;
    OnDiskFacts(disk, d);
    CutName(disk, d, cut, p);
    BehindCut(d, cut, p);
    assert cut.numbers[p] == d.numbers[p];
    assert NamesOf(d)[p] == SegmentName(cut.segmentSize, cut.numbers[p]);
  }

  // ---------- what the last run left behind ----------

  // Fresh: nothing, or the empty first file. Clean: a complete log. Damaged: `d` is the log `l` with the record `j` of piece
  // `i` damaged. Torn: the log `l` ends behind byte `n` of file `k`, with part of a record. Missed: file `k`, the active one,
  // holds some bytes, complete, torn or damaged, and fails its listing test. `from` is the entry whose sequence number the start
  // is given; it comes before the damage or is the damaged record itself.
  datatype Scenario =
    | Fresh
    | Clean(l: Log, from: nat)
    | Damaged(l: Log, d: Log, i: nat, j: nat, from: nat)
    | Torn(l: Log, k: nat, n: nat, from: nat)
    | Missed(l: Log, k: nat, f: seq<byte>, from: nat)

  ghost predicate CleanFits(crc: Checksum, disk: map<FileName, seq<byte>>, lsn: nat, l: Log, from: nat) {
    l.Inv(crc) && OnDisk(disk, l) && RestartsFrom(l, lsn, from) && |l.numbers| == |l.files| > 0 && LastIsListed(l, lsn)
  }

  /** The damaged file is among those listed; the active one may be missing. */
  ghost predicate DamagedFits(crc: Checksum, disk: map<FileName, seq<byte>>, lsn: nat, l: Log, d: Log, i: nat, j: nat,
                              from: nat) {
    && DamagedAt(crc, l, d, i, j) && OnDisk(disk, d)
    && RestartsFrom(l, lsn, from) && from <= |Before(l.pieces, i, j)|
    && |d.numbers| == |d.files| > 0 && (i < |d.numbers| - 1 || LastIsListed(d, lsn))
  }

  ghost predicate TornFits(crc: Checksum, disk: map<FileName, seq<byte>>, lsn: nat, l: Log, k: nat, n: nat, from: nat) {
    && TornAt(crc, l, k, n) && |l.numbers| == |l.files| == |l.pieces| && PieceOk(l.pieces[k])
    && TornBytes(l.pieces[k], l.files[k], n) > 0 && OnDisk(disk, TornDisk(l, k, n))
    && RestartsFrom(l, lsn, from) && from <= |Before(l.pieces, k, WholeIn(l.pieces[k], n))|
    && LastIsListed(TornDisk(l, k, n), lsn)
  }

  ghost predicate MissedFits(crc: Checksum, disk: map<FileName, seq<byte>>, lsn: nat, l: Log, k: nat, f: seq<byte>,
                             from: nat) {
    && l.Inv(crc) && k < |l.files| == |l.numbers| == |l.pieces| && 0 < |f| <= l.segmentSize && OnDisk(disk, Behind(l, k, f))
    && RestartsFrom(l, lsn, from) && lsn < (l.numbers[k] + 1) * l.segmentSize && !LastIsListed(Behind(l, k, f), lsn)
  }

  ghost predicate Fits(crc: Checksum, disk: map<FileName, seq<byte>>, segmentSize: nat, lsn: nat, s: Scenario) {
    segmentSize > 0 && LOGICAL_LOG % segmentSize == 0 &&
    match s
    case Fresh => forall name :: name in disk ==> name == SegmentName(segmentSize, 0) && disk[name] == []
    case Clean(l, from) => l.segmentSize == segmentSize && CleanFits(crc, disk, lsn, l, from)
    case Damaged(l, d, i, j, from) => l.segmentSize == segmentSize && DamagedFits(crc, disk, lsn, l, d, i, j, from)
    case Torn(l, k, n, from) => l.segmentSize == segmentSize && TornFits(crc, disk, lsn, l, k, n, from)
    case Missed(l, k, f, from) => l.segmentSize == segmentSize && MissedFits(crc, disk, lsn, l, k, f, from)
  }

  /** The three ways a torn record is met with. */
  datatype Tear = Unnoticed | InContinuation | Noticed

  ghost function TearOf(l: Log, k: nat, n: nat): Tear {
    if k < |l.pieces| && k < |l.files| && PieceOk(l.pieces[k]) && n <= |l.files[k]| then
      var p := l.pieces[k];
      if TornBytes(p, l.files[k], n) < HEADER_SIZE then Unnoticed
      else if p.split && |Lead(p)| + n < |p.recs[0]| then InContinuation
      else Noticed
    else Unnoticed
  }

  /** The directory's files as a log: for a torn one with the entries of its whole records. */
  ghost function DiskLog(s: Scenario): Log
    requires !s.Fresh?
  {
    match s
    case Clean(l, _) => l
    case Damaged(_, d, _, _, _) => d
    case Torn(l, k, n, _) =>
      if k < |l.files| == |l.numbers| && n <= |l.files[k]| then TornDisk(l, k, n).(entries := WholeEntries(l, k, n)) else l
    case Missed(l, k, f, _) =>
      if k < |l.files| == |l.numbers| && FrontCount(l, k) <= |l.entries| then FrontLog(l, k, f) else l
  }

  /** The files before an active one with the given content, that one, and the entries of the files before it. */
  ghost function FrontLog(l: Log, k: nat, f: seq<byte>): Log
    requires k < |l.files| == |l.numbers| && FrontCount(l, k) <= |l.entries|
  {
    Behind(l, k, f).(entries := l.entries[..FrontCount(l, k)])
  }

  /** The given sequence number lies in file `k`. */
  ghost predicate InActive(l: Log, k: nat, lsn: nat) {
    0 < k <= |l.numbers| ==> (l.numbers[k - 1] + 1) * l.segmentSize <= lsn
  }

  /** The listing yields no file. */
  ghost predicate ListsNothing(s: Scenario, lsn: nat) {
    s.Fresh? || (s.Missed? && InActive(s.l, s.k, lsn))
  }

  ghost function WholeEntries(l: Log, k: nat, n: nat): seq<WalEntry> {
    if k < |l.pieces| && PieceOk(l.pieces[k]) && |Before(l.pieces, k, WholeIn(l.pieces[k], n))| <= |l.entries|
    then l.entries[..|Before(l.pieces, k, WholeIn(l.pieces[k], n))|]
    else []
  }

  /** The log up to the damage. */
  ghost function Sound(s: Scenario): Log
    requires !s.Fresh?
  {
    match s
    case Clean(l, _) => l
    case Damaged(l, _, i, j, _) => Cut(l, i, j)
    case Torn(l, k, n, _) =>
      if k < |l.pieces| && PieceOk(l.pieces[k]) then Cut(l, TornRecordAt(l, k, n).0, TornRecordAt(l, k, n).1) else l
    case Missed(l, k, _, _) => Cut(l, k, 0)
  }

  ghost predicate Broken(s: Scenario) {
    || s.Damaged? || (s.Torn? && TearOf(s.l, s.k, s.n).Noticed?)
    || (s.Missed? && s.k < |s.l.pieces| && s.l.pieces[s.k].split)
  }

  // ---------- what is read ----------

  lemma {:induction false} ListedEarlier(d: Log, lsn: nat, earlier: nat)
    requires d.segmentSize > 0 && |d.numbers| == |d.files| > 0 && LOGICAL_LOG % d.segmentSize == 0
    requires d.numbers[|d.numbers| - 1] * d.segmentSize < U64_LIMIT && earlier <= lsn
    ensures LastIsListed(d, lsn) ==> LastIsListed(d, earlier)
  {
  }

  lemma {:induction false} CleanReads(crc: Checksum, dir: Directory, segmentSize: nat, lsn: nat, l: Log, from: nat,
                                      segments: seq<Segment>, paths: seq<FileName>)
    requires Fits(crc, dir.files, segmentSize, lsn, Clean(l, from))
    requires Lists(dir.files, lsn, paths) && Opened(segments, dir, segmentSize, paths)
    ensures Readable(segments) && segments != [] && CanContinue(dir.files, l) && from <= |l.entries|
    ensures Scan(crc, LogFiles(segments), lsn % segmentSize, None) == ScanResult(l.entries[from..], Complete)
  {
    hide Log.Inv, LastIsListed, SegmentName, Scan, Lists, OnDisk, FirstCovering, RestartsFrom, Closed, Opened,
         Readable, LogFiles;
    RestartIsCovered(crc, l, lsn, from);
    var a := FindCovering(l, lsn);
    OnDiskFacts(dir.files, l);
    ListedEarlier(l, lsn, 0);
    ListingOf(dir.files, l, lsn, a, paths);
    OpenedFiles(segments, dir, segmentSize, l, a, |l.files|, paths);
    AllFilesContain(l);
    ReplayFromEntry(crc, l, AllFiles(l), lsn, from, a);
    OpenedLength(segments, dir, segmentSize, paths);
    assert AllFiles(l)[a..|l.files|] == AllFiles(l)[a..];
  }

  lemma {:induction false} OpenedLength(segments: seq<Segment>, dir: Directory, segmentSize: nat, paths: seq<FileName>)
    requires Opened(segments, dir, segmentSize, paths)
    ensures |segments| == |paths|
  {
  }

  lemma {:induction false} DamagedReads(crc: Checksum, dir: Directory, segmentSize: nat, lsn: nat, l: Log, d: Log,
                                        i: nat,
                                        j: nat, from: nat, segments: seq<Segment>, paths: seq<FileName>)
    requires Fits(crc, dir.files, segmentSize, lsn, Damaged(l, d, i, j, from))
    requires Lists(dir.files, lsn, paths) && Opened(segments, dir, segmentSize, paths)
    ensures Readable(segments) && segments != [] && CanRepair(crc, dir.files, d, Cut(l, i, j)) && from <= |Cut(l, i, j).entries|
    ensures d.segmentSize == segmentSize > 0
    ensures
      var cut := Cut(l, i, j);
      && cut.segmentSize == segmentSize && cut.numbers[|cut.numbers| - 1] * segmentSize < U64_LIMIT
      && Scan(crc, LogFiles(segments), lsn % segmentSize, None) ==
         ScanResult(cut.entries[from..], Corrupted(SegmentName(segmentSize, cut.numbers[|cut.numbers| - 1]), EndOf(cut)))
  {
    hide Log.Inv, LastIsListed, SegmentName, Scan, Lists, OnDisk, FirstCovering, RestartsFrom, Closed, Opened,
         Readable, LogFiles,
         DamagedAt, CutOf, Cut, CanCut, Before, EndOf, GoodPrefix, AllGood, CanRepair;
    SameSegments(crc, l, d, i, j);
    OnDiskFacts(dir.files, d);
    DamagedRepairs(crc, dir.files, l, d, i, j);
    RestartIsCovered(crc, l, lsn, from);
    var a := FindCovering(l, lsn);
    SameCovering(l, d, lsn, a);
    ListingOf(dir.files, d, lsn, a, paths);
    var to := if LastIsListed(d, lsn) then |d.numbers| else |d.numbers| - 1;
    DamagedScan(crc, l, d, i, j, lsn, from, a, to);
    OpenedFiles(segments, dir, segmentSize, d, a, to, paths);
    OpenedLength(segments, dir, segmentSize, paths);
  }

  lemma {:induction false} SameSegments(crc: Checksum, l: Log, d: Log, i: nat, j: nat)
    requires DamagedAt(crc, l, d, i, j)
    ensures l.Inv(crc) && d.segmentSize == l.segmentSize && d.numbers == l.numbers && |d.files| == |d.numbers|
    ensures Closed(d) && i < |d.files|
  {
    hide Log.Inv, DamagedAt, Closed, Layout, TruncatedPieces, TruncatedFiles, Check;
    DamagedFacts(crc, l, d, i, j);
  }

  /** A damaged log can be repaired. */
  lemma {:induction false} DamagedRepairs(crc: Checksum, disk: map<FileName, seq<byte>>, l: Log, d: Log, i: nat, j: nat)
    requires DamagedAt(crc, l, d, i, j) && OnDisk(disk, d)
    ensures
      var cut := Cut(l, i, j);
      && CanRepair(crc, disk, d, cut) && cut.segmentSize == d.segmentSize
      && 0 < |cut.files| == |cut.numbers| <= |d.numbers|
      && cut.numbers[|cut.numbers| - 1] == d.numbers[|cut.numbers| - 1]
      && |cut.entries| == |Before(l.pieces, i, j)|
  {
    hide Log.Inv, SegmentName, OnDisk, Closed, DamagedAt, CutOf, Cut, CanCut, Before, EndOf, GoodPrefix, AllGood;
    DamagedFacts(crc, l, d, i, j);
    CutInv(crc, l, i, j);
    DamagedCut(crc, l, d, i, j);
    DamagedFileIsNotEmpty(crc, l, d, i, j);
    CutOfFacts(Cut(l, i, j), d);
  }

  lemma {:induction false} SameCovering(l: Log, d: Log, lsn: nat, a: nat)
    requires d.numbers == l.numbers && d.segmentSize == l.segmentSize && FirstCovering(l, lsn, a)
    ensures FirstCovering(d, lsn, a)
  {
  }

  /** The header of the damaged record lies in the file that is cut. */
  lemma {:induction false} DamagedFileIsNotEmpty(crc: Checksum, l: Log, d: Log, i: nat, j: nat)
    requires DamagedAt(crc, l, d, i, j)
    ensures 0 < |Cut(l, i, j).files| <= |d.files| && |d.files[|Cut(l, i, j).files| - 1]| > 0
  {
    hide Log.Inv, DamagedAt, Cut, CanCut, FileOk, Layout, Stream, InFile, IsFrame, EndOf, Check, TruncatedFiles,
         TruncatedPieces,
         Closed, CutOf;
    DamagedFacts(crc, l, d, i, j);
    LayoutIsOk(d.segmentSize, d.files, d.pieces);
    DamagedCut(crc, l, d, i, j);
    CutOfFacts(Cut(l, i, j), d);
    if d.pieces[i].split && j == 0 {
      ClosedIsFull(crc, l, d, i - 1);
    } else {
      PlaceWithin(d.segmentSize, d.files, d.pieces, i, j + 1);
      RecordIsInFile(d.pieces[i], j);
    }
  }

  lemma {:induction false} ClosedIsFull(crc: Checksum, l: Log, d: Log, p: nat)
    requires Closed(d) && p + 1 < |d.files| && l.Inv(crc) && d.segmentSize == l.segmentSize
    ensures |d.files[p]| > 0
  {
    hide FileOk, PieceOk, AllGood, Flat, GoodPrefix, Log.Placed, Log.Increasing;
  }

  lemma {:induction false} RecordIsInFile(p: Piece, j: nat)
    requires PieceOk(p) && j < |p.recs| && (p.split ==> j > 0)
    ensures InFile(p, |Stream(p.recs[..j + 1])|) > 0
  {
    hide FromLE, Stream;
    StreamNext(p.recs, j);
    if p.split {
      StreamAtLeast(p.recs, j);
    }
  }

  lemma {:induction false} TornReads(crc: Checksum, dir: Directory, segmentSize: nat, lsn: nat, l: Log, k: nat, n: nat,
                                     from: nat, segments: seq<Segment>, paths: seq<FileName>)
    requires Fits(crc, dir.files, segmentSize, lsn, Torn(l, k, n, from))
    requires Lists(dir.files, lsn, paths) && Opened(segments, dir, segmentSize, paths)
    ensures Readable(segments) && segments != [] && CanContinue(dir.files, TornDisk(l, k, n))
    ensures from <= |WholeEntries(l, k, n)| && l.segmentSize == segmentSize > 0
    ensures forall i :: 0 <= i < |l.numbers| && i <= k ==> l.numbers[i] * l.segmentSize < U64_LIMIT
    ensures Scan(crc, LogFiles(segments), lsn % segmentSize, None) ==
            ScanResult(WholeEntries(l, k, n)[from..],
                       TornOutcome(LogFile(SegmentName(segmentSize, l.numbers[k]), l.files[k]), l.pieces[k], n))
  {
    hide Log.Inv, LastIsListed, SegmentName, Scan, Lists, OnDisk, FirstCovering, RestartsFrom, Closed, Opened,
         Readable, LogFiles,
         Before, GoodPrefix, AllGood, TornBytes, TornOutcome, TornDisk, WholeIn, PieceOk;
    var d := TornDisk(l, k, n);
    TornFacts(crc, l, k, n);
    TornDiskClosed(crc, l, k, n);
    OnDiskFacts(dir.files, d);
    TornDiskIs(l, k, n);
    ListedEarlier(d, lsn, 0);
    ListedIsCovered(d, lsn);
    var a := FindCovering(d, lsn);
    ListingOf(dir.files, d, lsn, a, paths);
    OpenedFiles(segments, dir, segmentSize, d, a, |d.files|, paths);
    OpenedLength(segments, dir, segmentSize, paths);
    WholeAreEntries(crc, l, k, WholeIn(l.pieces[k], n));
    assert AllFiles(d)[a..|d.files|] == AllFiles(d)[a..];
    TornScan(crc, l, k, n, lsn, from, a);
  }

  lemma {:induction false} TornDiskIs(l: Log, k: nat, n: nat)
    requires k < |l.files| == |l.numbers| && n <= |l.files[k]|
    ensures
      var d := TornDisk(l, k, n);
      && d.segmentSize == l.segmentSize && |d.numbers| == |d.files| == k + 1
      && (forall i :: 0 <= i <= k ==> d.numbers[i] == l.numbers[i])
      && d.files[k] == l.files[k][..n]
  {
  }

  /** What a start reads whose listing misses the active file. */
  lemma {:induction false} MissedReads(crc: Checksum, dir: Directory, segmentSize: nat, lsn: nat, l: Log, k: nat,
                                       f: seq<byte>, from: nat, segments: seq<Segment>, paths: seq<FileName>)
    requires Fits(crc, dir.files, segmentSize, lsn, Missed(l, k, f, from))
    requires Lists(dir.files, lsn, paths) && Opened(segments, dir, segmentSize, paths)
    ensures Readable(segments) && segmentSize > 0 && (segments == [] <==> InActive(l, k, lsn))
    ensures !InActive(l, k, lsn) ==> FrontReads(l, k, from, Scan(crc, LogFiles(segments), lsn % segmentSize, None))
  {
    hide Log.Inv, LastIsListed, SegmentName, Scan, Lists, OnDisk, RestartsFrom, FirstCovering, Closed, Opened, Readable,
         LogFiles, Behind, InActive, FrontReads;
    var d := Behind(l, k, f);
    InvIsClosed(crc, l);
    BehindClosed(l, k, f);
    BehindIs(l, k, f);
    OnDiskFacts(dir.files, d);
    var a := FindCovering(d, lsn);
    CoveringBehind(l, k, f, lsn, a);
    ListingOf(dir.files, d, lsn, a, paths);
    OpenedFiles(segments, dir, segmentSize, d, a, k, paths);
    OpenedLength(segments, dir, segmentSize, paths);
    InActiveIff(l, k, lsn, a);
    if a < k {
      FrontScan(crc, l, k, f, lsn, from, a);
    }
  }

  lemma {:induction false} MissedReadsAs(crc: Checksum, dir: Directory, segmentSize: nat, lsn: nat, l: Log, k: nat,
                                         f: seq<byte>, from: nat, segments: seq<Segment>, paths: seq<FileName>)
    requires Fits(crc, dir.files, segmentSize, lsn, Missed(l, k, f, from))
    requires Lists(dir.files, lsn, paths) && Opened(segments, dir, segmentSize, paths)
    ensures Readable(segments) && segmentSize > 0 && (segments == [] <==> InActive(l, k, lsn))
    ensures !InActive(l, k, lsn) ==>
              Reads(crc, dir.files, segmentSize, lsn, Missed(l, k, f, from), Scan(crc, LogFiles(segments), lsn % segmentSize, None))
  {
    hide Log.Inv, LastIsListed, SegmentName, Scan, Lists, OnDisk, RestartsFrom, Opened, Readable, LogFiles, Behind, InActive,
         CanContinue, CanRepair, FindsAllBehind, EndOf, Cut, FrontCount;
    MissedReads(crc, dir, segmentSize, lsn, l, k, f, from, segments, paths);
    if !InActive(l, k, lsn) {
      MissedGoesOn(crc, dir.files, segmentSize, lsn, l, k, f, from);
      BehindIs(l, k, f);
      SliceOfTake(l.entries, FrontCount(l, k), from);
    }
  }

  lemma {:induction false} InActiveIff(l: Log, k: nat, lsn: nat, a: nat)
    requires Closed(l) && k < |l.numbers| && FirstCovering(l, lsn, a) && a <= k && l.segmentSize > 0
    ensures InActive(l, k, lsn) <==> a == k
  {
    if a < k {
      NumbersAscend(l, a, k - 1);
      MulAtLeast(l.numbers[k - 1] + 1, l.numbers[a] + 1, l.segmentSize);
    }
  }

  lemma {:induction false} NumbersAscend(l: Log, a: nat, b: nat)
    requires Closed(l) && a <= b < |l.numbers|
    ensures l.numbers[a] <= l.numbers[b]
  {
  }

  /** The log goes on in the active file, or is cut at the header that precedes it. */
  lemma {:induction false} MissedGoesOn(crc: Checksum, disk: map<FileName, seq<byte>>, segmentSize: nat, lsn: nat,
                                        l: Log, k: nat, f: seq<byte>, from: nat)
    requires Fits(crc, disk, segmentSize, lsn, Missed(l, k, f, from)) && !InActive(l, k, lsn) && FrontCount(l, k) <= |l.entries|
    ensures !l.pieces[k].split ==> CanContinue(disk, FrontLog(l, k, f)) && !FrontLog(l, k, f).Inv(crc)
    ensures l.pieces[k].split ==>
              && CanRepair(crc, disk, FrontLog(l, k, f), Cut(l, k, 0)) && !FindsAllBehind(FrontLog(l, k, f), Cut(l, k, 0))
              && Cut(l, k, 0).entries == l.entries[..FrontCount(l, k)] && Cut(l, k, 0).segmentSize == l.segmentSize
              && |Cut(l, k, 0).numbers| == k && Cut(l, k, 0).numbers[k - 1] == l.numbers[k - 1]
  {
    hide Log.Inv, LastIsListed, SegmentName, OnDisk, RestartsFrom, Closed, Behind, Cut, CutOf, FindsAllBehind;
    var d := Behind(l, k, f);
    InvIsClosed(crc, l);
    BehindClosed(l, k, f);
    BehindIs(l, k, f);
    OnDiskFacts(disk, d);
    if l.pieces[k].split {
      FrontCut(crc, l, k, f);
      ClosedIsFull(crc, l, l, k - 1);
      StaleBehindCut(crc, l, k, f, lsn, from);
      EntriesDoNotMatter(crc, disk, d, l.entries[..FrontCount(l, k)], Cut(l, k, 0));
    } else {
      FrontIsListed(d);
      EntriesDoNotMatter(crc, disk, d, l.entries[..FrontCount(l, k)], d);
      FrontLogIsNone(crc, l, k, f);
    }
  }

  /** A last file with any content is listed when all are. */
  lemma {:induction false} FrontIsListed(d: Log)
    requires Closed(d) && d.segmentSize > 0 && LOGICAL_LOG % d.segmentSize == 0 && |d.files[|d.files| - 1]| > 0
    requires d.numbers[|d.numbers| - 1] * d.segmentSize < U64_LIMIT
    ensures LastIsListed(d, 0)
  {
    var n := |d.numbers| - 1;
    var lo := d.numbers[n] * d.segmentSize % LOGICAL_LOG / d.segmentSize;
    MulAtLeast(lo + 1, 1, |d.files[n]|);
    assert |d.files[n]| * (lo + 1) == (lo + 1) * |d.files[n]|;
  }

  /** A file that is not listed for a sequence number is not listed for a later one either, so it stays behind the cut. */
  lemma {:induction false} StaleBehindCut(crc: Checksum, l: Log, k: nat, f: seq<byte>, lsn: nat, from: nat)
    requires l.Inv(crc) && 0 < k < |l.files| == |l.numbers| && |l.numbers| == |l.pieces| && l.pieces[k].split && |f| <= l.segmentSize
    requires RestartsFrom(l, lsn, from) && !InActive(l, k, lsn)
    requires |Behind(l, k, f).numbers| == |Behind(l, k, f).files| == k + 1 && Behind(l, k, f).segmentSize == l.segmentSize
    requires l.segmentSize > 0 && LOGICAL_LOG % l.segmentSize == 0 && Behind(l, k, f).numbers[k] * l.segmentSize < U64_LIMIT
    requires !LastIsListed(Behind(l, k, f), lsn)
    ensures !FindsAllBehind(Behind(l, k, f), Cut(l, k, 0))
  {
    hide Log.Inv, Behind, Cut, RestartsFrom, CutOf;
    FrontCut(crc, l, k, f);
    CutEndsBehind(crc, l, k, lsn, from);
    ListedEarlier(Behind(l, k, f), Cut(l, k, 0).NextLsn(), lsn);
  }

  /** The sequence number of an entry that starts in front of the active file is no later than the end of the log cut there. */
  lemma {:induction false} CutEndsBehind(crc: Checksum, l: Log, k: nat, lsn: nat, from: nat)
    requires l.Inv(crc) && 0 < k < |l.files| == |l.numbers| && |l.numbers| == |l.pieces| && l.pieces[k].split
    requires RestartsFrom(l, lsn, from) && !InActive(l, k, lsn)
    ensures lsn <= Cut(l, k, 0).NextLsn()
  {
    hide Log.Inv, Cut, RestartsFrom, Stream, InFile, PieceOk, Flat, Closed;
    InvIsClosed(crc, l);
    var a := FindInFront(l, k, lsn);
    var j := StartOfRestart(crc, l, lsn, from, a);
    CutEnd(crc, l, k);
    if a < k - 1 {
      NumbersDiffer(l, a, k - 1);
      MulAtLeast(l.numbers[k - 1], l.numbers[a] + 1, l.segmentSize);
    } else {
      InFileGrows(l.pieces[a], j);
      PlaceInSegment(lsn, l.numbers[a], l.segmentSize);
    }
  }

  lemma {:induction false} PlaceInSegment(lsn: nat, number: nat, segmentSize: nat)
    requires segmentSize > 0 && lsn < (number + 1) * segmentSize
    ensures lsn <= number * segmentSize + lsn % segmentSize
  {
    MulPlus(number, 1, segmentSize);
    if number * segmentSize <= lsn {
      DivUnique(lsn, segmentSize, number, lsn - number * segmentSize);
    }
  }

  lemma {:induction false} CutEnd(crc: Checksum, l: Log, k: nat)
    requires l.Inv(crc) && 0 < k < |l.pieces| && l.pieces[k].split
    ensures
      var cut := Cut(l, k, 0);
      && |l.numbers| == |l.pieces| && PieceOk(l.pieces[k - 1]) && |cut.files| == |cut.numbers| == k
      && cut.NextLsn() == l.numbers[k - 1] * l.segmentSize + InFile(l.pieces[k - 1], |Stream(l.pieces[k - 1].recs)|)
  {
    hide Log.Inv, Stream, InFile, PieceOk, Layout, Before, FileOk;
    InvHasShape(crc, l);
    SplitHasRecord(l, k);
    LayoutIsOk(l.segmentSize, l.files, l.pieces);
    CutInv(crc, l, k, 0);
    TruncatedFilesAre(l.segmentSize, l.files, l.pieces, k, 0);
    assert l.pieces[k - 1].recs[..|l.pieces[k - 1].recs|] == l.pieces[k - 1].recs;
  }

  lemma {:induction false} InFileGrows(p: Piece, j: nat)
    requires PieceOk(p) && j <= |p.recs| && (p.split ==> j > 0)
    ensures InFile(p, |Stream(p.recs[..j])|) <= InFile(p, |Stream(p.recs)|)
  {
    hide IsFrame, Stream;
    StreamTake(p.recs, j);
  }

  lemma {:induction false} FindInFront(l: Log, k: nat, lsn: nat) returns (a: nat)
    requires Closed(l) && 0 < k < |l.numbers| && !InActive(l, k, lsn)
    ensures a < k && FirstCovering(l, lsn, a)
  {
    a := 0;
    while lsn >= (l.numbers[a] + 1) * l.segmentSize
      invariant a < k
      invariant forall b :: 0 <= b < a ==> (l.numbers[b] + 1) * l.segmentSize <= lsn
      decreases k - a
    {
      a := a + 1;
    }
  }

  /** No log with a record in that file has only the entries of the files before it. */
  lemma {:induction false} FrontLogIsNone(crc: Checksum, l: Log, k: nat, f: seq<byte>)
    requires l.Inv(crc) && k < |l.files| == |l.numbers| && |l.numbers| == |l.pieces| && FrontCount(l, k) <= |l.entries|
    requires !l.pieces[k].split && |f| > 0
    ensures !FrontLog(l, k, f).Inv(crc)
  {
    hide FileOk, PieceOk, AllGood, Flat, Stream, GoodPrefix, Layout, Log.Placed, Log.Increasing;
    var d := FrontLog(l, k, f);
    if d.Inv(crc) {
      InvHasShape(crc, d);
      GoodPrefixWhole(crc, Flat(d.pieces));
      FlatSnoc(d.pieces, k + 1);
      assert d.pieces[..k + 1] == d.pieces;
      assert d.pieces[k].recs == [];
      LastFileIsWhole(d.segmentSize, d.files, d.pieces);
      StreamEmpty(d.pieces[k].recs);
      assert false;
    }
  }

  // ---------- start ----------

  /** Which entries a directory's files stand for does not matter to what is listed, continued or cut. */
  lemma {:induction false} EntriesDoNotMatter(crc: Checksum, disk: map<FileName, seq<byte>>, d: Log,
                                              es: seq<WalEntry>, cut: Log)
    ensures CanContinue(disk, d) ==> CanContinue(disk, d.(entries := es))
    ensures CanRepair(crc, disk, d, cut) ==> CanRepair(crc, disk, d.(entries := es), cut)
    ensures OnDisk(disk, d) ==> OnDisk(disk, d.(entries := es))
    ensures FindsAllBehind(d.(entries := es), cut) <==> FindsAllBehind(d, cut)
  {
    hide SegmentName, Log.Inv;
  }

  /** A noticed tear: what is read, reported, and can be repaired. */
  lemma {:induction false} NoticedReads(crc: Checksum, disk: map<FileName, seq<byte>>, l: Log, k: nat, n: nat,
                                        from: nat)
    requires TornAt(crc, l, k, n) && TearOf(l, k, n).Noticed? && OnDisk(disk, TornDisk(l, k, n))
    requires |l.numbers| == |l.files| == |l.pieces| && PieceOk(l.pieces[k])
    requires l.numbers[k] * l.segmentSize < U64_LIMIT && l.segmentSize > 0
    ensures
      var cut := Sound(Torn(l, k, n, from));
      && CanRepair(crc, disk, TornDisk(l, k, n), cut) && cut.segmentSize == l.segmentSize
      && cut.entries == WholeEntries(l, k, n) && |cut.files| == k + 1 && |cut.numbers| == k + 1 && cut.numbers[k] == l.numbers[k]
      && TornOutcome(LogFile(SegmentName(l.segmentSize, l.numbers[k]), l.files[k]), l.pieces[k], n) ==
         Corrupted(SegmentName(l.segmentSize, l.numbers[k]), EndOf(cut))
  {
    hide Log.Inv, SegmentName, OnDisk, Cut, CanCut, EndOf, TornOutcome, Before, GoodPrefix, WholeIn, Closed,
         TornBytes, PieceOk, Lead,
         CutOf, TornRecordAt, TornDisk, TearOf, Reported, TornAt;
    NoticedIsReported(crc, l, k, n);
    TornCut(crc, l, k, n);
    var (i, j) := TornRecordAt(l, k, n);
    CanCutMeans(l, i, j);
    CutInv(crc, l, i, j);
    TornOutcomeMeans(LogFile(SegmentName(l.segmentSize, l.numbers[k]), l.files[k]), l.pieces[k], n);
    TornDiskIs(l, k, n);
    CutOfFacts(Cut(l, i, j), TornDisk(l, k, n));
  }

  lemma {:induction false} NoticedIsReported(crc: Checksum, l: Log, k: nat, n: nat)
    requires TornAt(crc, l, k, n) && TearOf(l, k, n).Noticed?
    ensures l.Inv(crc) && Reported(crc, l, k, n) && k < |l.files| && n <= |l.files[k]| && k < |l.pieces| && PieceOk(l.pieces[k])
    ensures TornBytes(l.pieces[k], l.files[k], n) >= HEADER_SIZE && 0 < n
    ensures !(l.pieces[k].split && |Lead(l.pieces[k])| + n < |l.pieces[k].recs[0]|)
  {
    hide Log.Inv, TornBytes, IsFrame;
    TornStart(l.pieces[k], l.files[k], n);
  }

  lemma {:induction false} CanCutMeans(l: Log, i: nat, j: nat)
    requires CanCut(l, i, j)
    ensures i < |l.pieces| && j < |l.pieces[i].recs| && |Before(l.pieces, i, j)| <= |l.entries|
  {
  }

  /** What the recovery of a start yields: everything from the given entry to the damage, and how it ends. */
  ghost predicate Reads(crc: Checksum, disk: map<FileName, seq<byte>>, segmentSize: nat, lsn: nat, s: Scenario,
                        r: ScanResult)
    requires !s.Fresh?
  {
    var l := if Broken(s) then Sound(s) else DiskLog(s);
    && s.from <= |l.entries| && r.entries == l.entries[s.from..] && l.segmentSize == segmentSize == DiskLog(s).segmentSize
    && if Broken(s) then
         && CanRepair(crc, disk, DiskLog(s), l) && segmentSize > 0
         && l.numbers[|l.numbers| - 1] * segmentSize < U64_LIMIT
         && r.outcome == Corrupted(SegmentName(segmentSize, l.numbers[|l.numbers| - 1]), EndOf(l))
       else if s.Torn? && TearOf(s.l, s.k, s.n).InContinuation? then r.outcome.Panics?
       else CanContinue(disk, l) && r.outcome.Complete?
  }

  lemma {:induction false} TornReadsAs(crc: Checksum, dir: Directory, segmentSize: nat, lsn: nat, l: Log, k: nat,
                                       n: nat,
                                       from: nat, segments: seq<Segment>, paths: seq<FileName>)
    requires Fits(crc, dir.files, segmentSize, lsn, Torn(l, k, n, from))
    requires Lists(dir.files, lsn, paths) && Opened(segments, dir, segmentSize, paths)
    ensures Readable(segments) && segments != [] && segmentSize > 0
    ensures Reads(crc, dir.files, segmentSize, lsn, Torn(l, k, n, from), Scan(crc, LogFiles(segments), lsn % segmentSize, None))
  {
    hide Log.Inv, LastIsListed, SegmentName, Scan, Lists, OnDisk, RestartsFrom, Opened, Readable, LogFiles, TornOutcome,
         Before, TornBytes, TornDisk, WholeIn, PieceOk, Lead, CanContinue, CanRepair, WholeEntries, EndOf,
         FindsAllBehind, TornAt,
         TearOf, Sound, DiskLog;
    TornReads(crc, dir, segmentSize, lsn, l, k, n, from, segments, paths);
    TornInBounds(crc, l, k, n);
    TearMeans(l, k, n, SegmentName(l.segmentSize, l.numbers[k]));
    TornDiskIs(l, k, n);
    TornDiskLog(l, k, n, from);
    EntriesDoNotMatter(crc, dir.files, TornDisk(l, k, n), WholeEntries(l, k, n), Sound(Torn(l, k, n, from)));
    if TearOf(l, k, n).Noticed? {
      NoticedReads(crc, dir.files, l, k, n, from);
    }
  }

  lemma {:induction false} TornDiskLog(l: Log, k: nat, n: nat, from: nat)
    requires k < |l.files| == |l.numbers| && n <= |l.files[k]|
    ensures DiskLog(Torn(l, k, n, from)) == TornDisk(l, k, n).(entries := WholeEntries(l, k, n))
  {
  }

  /** The three cases are the three outcomes of recovery. */
  lemma {:induction false} TearMeans(l: Log, k: nat, n: nat, path: FileName)
    requires k < |l.pieces| && k < |l.files| && PieceOk(l.pieces[k]) && n <= |l.files[k]|
    ensures
      var o := TornOutcome(LogFile(path, l.files[k]), l.pieces[k], n);
      && (o.Panics? <==> TearOf(l, k, n).InContinuation?)
      && (o.Complete? <==> TearOf(l, k, n).Unnoticed?)
  {
    hide IsFrame, TornBytes, TornOutcome, Lead;
    TornOutcomeMeans(LogFile(path, l.files[k]), l.pieces[k], n);
    assert LogFile(path, l.files[k]).bytes == l.files[k];
    if l.pieces[k].split && |Lead(l.pieces[k])| + n < |l.pieces[k].recs[0]| {
      PanicsInContinuation(l.pieces[k], l.files[k], n);
    }
  }

  /** A cut inside a continuation leaves at least the header of the record. */
  lemma {:induction false} PanicsInContinuation(p: Piece, file: seq<byte>, n: nat)
    requires PieceOk(p) && n <= |file| && p.split && |Lead(p)| + n < |p.recs[0]|
    ensures TornBytes(p, file, n) >= HEADER_SIZE
  {
  }

  lemma {:induction false} TornInBounds(crc: Checksum, l: Log, k: nat, n: nat)
    requires TornAt(crc, l, k, n)
    ensures k < |l.files| && n <= |l.files[k]|
  {
    hide Log.Inv;
  }

  lemma {:induction false} StartReads(crc: Checksum, dir: Directory, segmentSize: nat, lsn: nat, s: Scenario,
                                      segments: seq<Segment>, paths: seq<FileName>)
    requires Fits(crc, dir.files, segmentSize, lsn, s)
    requires Lists(dir.files, lsn, paths) && Opened(segments, dir, segmentSize, paths)
    ensures Readable(segments) && (segments == [] <==> ListsNothing(s, lsn)) && segmentSize > 0
    ensures !ListsNothing(s, lsn) ==> Reads(crc, dir.files, segmentSize, lsn, s, Scan(crc, LogFiles(segments), lsn % segmentSize, None))
  {
    hide Log.Inv, LastIsListed, SegmentName, OnDisk, TornAt, DamagedAt, Scan, LogFiles, Readable, Lists, Opened,
         TornDisk, Cut,
         CanContinue, CanRepair, RestartsFrom, Before, EndOf, TornBytes;
    match s {
      case Fresh =>
        NothingListed(dir.files, segmentSize, lsn, paths);
        OpenedLength(segments, dir, segmentSize, paths);
        NothingOpened(segments);
      case Clean(l, from) =>
        CleanReads(crc, dir, segmentSize, lsn, l, from, segments, paths);
      case Damaged(l, d, i, j, from) =>
        DamagedReads(crc, dir, segmentSize, lsn, l, d, i, j, from, segments, paths);
      case Torn(l, k, n, from) =>
        TornReadsAs(crc, dir, segmentSize, lsn, l, k, n, from, segments, paths);
      case Missed(l, k, f, from) =>
        MissedReadsAs(crc, dir, segmentSize, lsn, l, k, f, from, segments, paths);
    }
  }

  lemma {:induction false} NothingListed(disk: map<FileName, seq<byte>>, segmentSize: nat, lsn: nat,
                                         paths: seq<FileName>)
    requires segmentSize > 0 && LOGICAL_LOG % segmentSize == 0 && Lists(disk, lsn, paths)
    requires forall name :: name in disk ==> name == SegmentName(segmentSize, 0) && disk[name] == []
    ensures paths == []
  {
    hide FinalEntryAfter, DetermineSegmentFilename;
    FinalEntryAfterMeans(segmentSize, 0, 0, lsn);
    FirstIsMember(paths);
  }

  lemma {:induction false} FirstIsMember(paths: seq<FileName>)
    ensures paths == [] || paths[0] in paths
  {
  }

  lemma {:induction false} NothingOpened(segments: seq<Segment>)
    ensures segments == [] ==> Readable(segments)
  {
  }

  /** Names are long enough, and no file is too large, so all listed ones are opened. */
  lemma {:induction false} StartOpens(crc: Checksum, disk: map<FileName, seq<byte>>, segmentSize: nat, lsn: nat,
                                      s: Scenario)
    requires Fits(crc, disk, segmentSize, lsn, s)
    ensures forall name :: name in disk ==> |name| >= 24 && |disk[name]| <= segmentSize
  {
    hide Log.Inv, LastIsListed, SegmentName, TornAt, DamagedAt, OnDisk, TornDisk, RestartsFrom, Closed, TornBytes,
         Before;
    match s {
      case Fresh =>
        SegmentBase(segmentSize, 0);
      case Clean(l, _) =>
        InvIsClosed(crc, l);
        LogFilesFit(disk, l);
      case Damaged(l, d, i, j, _) =>
        DamagedFacts(crc, l, d, i, j);
        LogFilesFit(disk, d);
      case Torn(l, k, n, _) =>
        TornDiskClosed(crc, l, k, n);
        TornInBounds(crc, l, k, n);
        TornDiskIs(l, k, n);
        LogFilesFit(disk, TornDisk(l, k, n));
      case Missed(l, k, f, _) =>
        InvIsClosed(crc, l);
        BehindClosed(l, k, f);
        BehindIs(l, k, f);
        LogFilesFit(disk, Behind(l, k, f));
    }
  }

  lemma {:induction false} LogFilesFit(disk: map<FileName, seq<byte>>, l: Log)
    requires OnDisk(disk, l) && Closed(l)
    ensures forall name :: name in disk ==> |name| >= 24 && |disk[name]| <= l.segmentSize
  {
    hide SegmentName;
    LogNamesAreLong(disk, l);
  }

  /** How a start for a sequence number ends, by what the last run left behind. */
  ghost predicate Ends(res: StartResult, crc: Checksum, dir: Directory, segmentSize: nat, lsn: nat, s: Scenario,
                       maxSize: nat)
    reads dir, if res.Started? then {res.worker, res.worker.wal, res.worker.wal.dir, res.worker.wal.activeSegment} else {}
  {
    match s
    case Fresh => StartedOn(res, crc, dir, EmptyLog(segmentSize), 0, maxSize) && Works(res)
    case Clean(l, from) => StartedOn(res, crc, dir, l, from, maxSize) && Works(res)
    case Damaged(l, d, i, j, from) =>
      && StartedOn(res, crc, dir, Cut(l, i, j), from, maxSize)
      && (Works(res) <==> FindsAllBehind(d, Cut(l, i, j)))
    case Missed(l, k, f, from) =>
      k < |l.numbers| && k < |l.pieces| &&
      if InActive(l, k, lsn) then
        StartedOn(res, crc, dir, EmptyLog(segmentSize), 0, maxSize) && (Works(res) <==> l.numbers[..k + 1] == [0])
      else
        StartedOn(res, crc, dir, if l.pieces[k].split then Sound(s) else DiskLog(s), from, maxSize) && !Works(res)
    case Torn(l, k, n, from) =>
      match TearOf(l, k, n)
      case Noticed => StartedOn(res, crc, dir, Sound(s), from, maxSize) && Works(res)
      case InContinuation => res.StartPanicked?
      case Unnoticed => StartedOn(res, crc, dir, DiskLog(s), from, maxSize) && !Works(res) && !HoldsLog(crc, dir.files, segmentSize)
  }

  /** A log continued as it lies on disk: complete, or with an unnoticed tear at its end. */
  lemma {:induction false} ContinuedEnds(crc: Checksum, disk: map<FileName, seq<byte>>, segmentSize: nat, lsn: nat,
                                         s: Scenario)
    requires Fits(crc, disk, segmentSize, lsn, s) && !ListsNothing(s, lsn) && !Broken(s)
    ensures s.Clean? ==> DiskLog(s).Inv(crc)
    ensures s.Missed? ==> !DiskLog(s).Inv(crc) && s.k < |s.l.numbers| && s.k < |s.l.pieces| && !s.l.pieces[s.k].split
    ensures s.Torn? && TearOf(s.l, s.k, s.n).Unnoticed? ==> !HoldsLog(crc, disk, segmentSize) && !DiskLog(s).Inv(crc)
  {
    hide Log.Inv, LastIsListed, SegmentName, OnDisk, TornDisk, RestartsFrom, Before, TornBytes, HoldsLog, PieceOk;
    if s.Torn? && TearOf(s.l, s.k, s.n).Unnoticed? {
      UnnoticedTearIsNoLog(crc, s.l, s.k, s.n, disk);
      TornInBounds(crc, s.l, s.k, s.n);
      TornDiskIs(s.l, s.k, s.n);
      TornDiskLog(s.l, s.k, s.n, s.from);
      EntriesDoNotMatter(crc, disk, TornDisk(s.l, s.k, s.n), WholeEntries(s.l, s.k, s.n), Sound(s));
      IsHeld(crc, disk, segmentSize, DiskLog(s));
    }
    if s.Missed? {
      FrontIsPart(crc, s.l, s.k);
      MissedGoesOn(crc, disk, segmentSize, lsn, s.l, s.k, s.f, s.from);
    }
  }

  lemma {:induction false} IsHeld(crc: Checksum, disk: map<FileName, seq<byte>>, segmentSize: nat, l: Log)
    ensures l.segmentSize == segmentSize && l.Inv(crc) && OnDisk(disk, l) ==> HoldsLog(crc, disk, segmentSize)
  {
    hide Log.Inv, OnDisk;
  }

  /** A torn log has no file behind the cut one. */
  lemma {:induction false} NothingBehindTear(crc: Checksum, disk: map<FileName, seq<byte>>, segmentSize: nat, lsn: nat,
                                             s: Scenario)
    requires Fits(crc, disk, segmentSize, lsn, s) && s.Torn? && TearOf(s.l, s.k, s.n).Noticed?
    ensures FindsAllBehind(DiskLog(s), Sound(s))
  {
    hide Log.Inv, LastIsListed, SegmentName, OnDisk, RestartsFrom, Before, TornBytes, PieceOk, Cut, Lead,
         WholeEntries, WholeIn;
    TornCut(crc, s.l, s.k, s.n);
    TornDiskIs(s.l, s.k, s.n);
  }

  /**
   * Start-up. Nothing gives a new log, a complete log is replayed from the given entry on and continued. On a
   * damaged or torn one the entries before the damage are replayed and the log is cut there; it is in order again
   * if and only if no stale file is left. A cut inside a continuation panics, and a tear that goes unnoticed leaves
   * no log. If the active file is missed, the entries of the files before it are replayed, and the worker goes on behind
   * entries that its table lacks or leaves that file behind the log it cuts; if nothing is listed at all, it starts a new
   * log among the files of the old one.
   */
  method Start(crc: Checksum, dir: Directory, segmentSize: nat, sequenceNumber: nat, maxSize: nat, ghost s: Scenario)
    returns (res: StartResult)
    requires Fits(crc, dir.files, segmentSize, sequenceNumber, s)
    modifies dir
    ensures res.Started? ==> fresh(res.worker) && fresh(res.worker.wal) && fresh(res.worker.wal.activeSegment)
    ensures Ends(res, crc, dir, segmentSize, sequenceNumber, s, maxSize)
  {
    hide Log.Inv, LastIsListed, SegmentName, OnDisk, FinalEntryAfter, ApplyAll, TotalLen, Wal.Valid, Lists, DiskLog,
         Sound,
         FindsAllBehind, HoldsLog, Scan, LogFiles, Readable, Opened, CanContinue, CanRepair, EndOf, Cut, TearOf, Works,
         WriteWorker.Valid, CleanFits, DamagedFits, TornFits, StartedOn;
    StartOpens(crc, dir.files, segmentSize, sequenceNumber, s);
    var segments, paths := FindAndOpenSegments(dir, segmentSize, sequenceNumber);
    if segments.None? {
      return StartFailed;
    }
    StartReads(crc, dir, segmentSize, sequenceNumber, s, segments.value, paths);
    if segments.value != [] {
      var result, table := Recover(crc, segments.value, sequenceNumber % segmentSize, map[]);
      match result {
        case Recovered(size) =>
          ContinuedEnds(crc, dir.files, segmentSize, sequenceNumber, s);
          res := ContinueLog(crc, dir, segmentSize, table, size, maxSize, DiskLog(s), s.from);
          StartedIs(res, crc, dir, DiskLog(s), s.from, maxSize);
          CleanIs(s);
        case Failed(size, path, offset) =>
          ghost var disk := dir.files;
          res := RepairLog(crc, dir, segmentSize, path, offset, table, size, maxSize, DiskLog(s), Sound(s), s.from);
          RepairedEnds(crc, disk, segmentSize, sequenceNumber, s);
        case Panicked =>
          res := StartPanicked;
      }
    } else {
      ghost var disk := dir.files;
      var wal := new Wal.CreateNew(crc, dir, segmentSize);
      EmptyApply(map[]);
      assert wal.log.entries[0..] == [];
      var worker := new WriteWorker(wal, map[], 0, maxSize, 0);
      res := Started(worker);
      NewIsOnly(crc, disk, segmentSize, sequenceNumber, s);
      FreshEnds(res, crc, dir, segmentSize, maxSize);
    }
  }

  lemma {:induction false} StartedIs(res: StartResult, crc: Checksum, dir: Directory, l: Log, from: nat,
                                     maxSize: nat)
    requires StartedOn(res, crc, dir, l, from, maxSize)
    ensures res.Started?
  {
  }

  lemma {:induction false} CleanIs(s: Scenario)
    ensures s.Clean? ==> DiskLog(s) == s.l
  {
  }

  lemma {:induction false} FrontIsPart(crc: Checksum, l: Log, k: nat)
    requires l.Inv(crc) && k < |l.pieces|
    ensures FrontCount(l, k) <= |l.entries|
  {
    hide FileOk, PieceOk, AllGood, Flat, GoodPrefix, Layout, Log.Placed, Log.Increasing;
    GoodPrefixWhole(crc, Flat(l.pieces));
    FlatSplit(l.pieces, k);
  }

  lemma {:induction false} RepairedEnds(crc: Checksum, disk: map<FileName, seq<byte>>, segmentSize: nat, lsn: nat,
                                        s: Scenario)
    requires Fits(crc, disk, segmentSize, lsn, s) && !ListsNothing(s, lsn) && Broken(s)
    ensures s.Damaged? ==> DiskLog(s) == s.d && Sound(s) == Cut(s.l, s.i, s.j)
    ensures s.Missed? ==> !FindsAllBehind(DiskLog(s), Sound(s)) && s.k < |s.l.numbers| && s.k < |s.l.pieces| && s.l.pieces[s.k].split
    ensures s.Torn? ==> TearOf(s.l, s.k, s.n).Noticed? && FindsAllBehind(DiskLog(s), Sound(s))
  {
    hide Log.Inv, LastIsListed, SegmentName, OnDisk, RestartsFrom, Cut, FindsAllBehind, TearOf, TornFits;
    if s.Torn? {
      NothingBehindTear(crc, disk, segmentSize, lsn, s);
    }
    if s.Missed? {
      FrontIsPart(crc, s.l, s.k);
      MissedGoesOn(crc, disk, segmentSize, lsn, s.l, s.k, s.f, s.from);
    }
  }

  lemma {:induction false} FreshEnds(res: StartResult, crc: Checksum, dir: Directory, segmentSize: nat, maxSize: nat)
    requires res.Started? && res.worker.wal.crc == crc && res.worker.wal.dir == dir
    requires res.worker.wal.log == EmptyLog(segmentSize) && res.worker.since == 0 && res.worker.flushed == []
    requires res.worker.table == map[] && res.worker.currentSize == 0 && res.worker.maxSize == maxSize
    requires res.worker.wal.segmentMaxSize == segmentSize
    ensures StartedOn(res, crc, dir, EmptyLog(segmentSize), 0, maxSize)
    ensures Works(res) <==> res.worker.Valid()
  {
    hide Wal.Valid, WriteWorker.Valid;
    EmptyApply(map[]);
    assert EmptyLog(segmentSize).entries[0..] == [];
  }

  /** Whether the new log's first file is the only one. */
  lemma {:induction false} NewIsOnly(crc: Checksum, disk: map<FileName, seq<byte>>, segmentSize: nat, lsn: nat,
                                     s: Scenario)
    requires Fits(crc, disk, segmentSize, lsn, s) && ListsNothing(s, lsn)
    ensures segmentSize > 0 && LOGICAL_LOG % segmentSize == 0
    ensures s.Fresh? ==> forall name :: name in disk ==> name == SegmentName(segmentSize, 0)
    ensures s.Missed? ==>
              && s.k < |s.l.numbers| && s.k < |s.l.pieces|
              && ((forall name :: name in disk ==> name == SegmentName(segmentSize, 0)) <==> s.l.numbers[..s.k + 1] == [0])
  {
    hide Log.Inv, LastIsListed, SegmentName, OnDisk, RestartsFrom, Closed, Behind;
    if s.Missed? {
      var d := Behind(s.l, s.k, s.f);
      InvIsClosed(crc, s.l);
      BehindClosed(s.l, s.k, s.f);
      BehindIs(s.l, s.k, s.f);
      OnDiskFacts(disk, d);
      OnlyFirstIff(disk, d);
      assert d.numbers == s.l.numbers[..s.k + 1];
    }
  }

  lemma {:induction false} OnlyFirstIff(disk: map<FileName, seq<byte>>, d: Log)
    requires Closed(d) && OnDisk(disk, d)
    ensures d.segmentSize > 0
    ensures (forall name :: name in disk ==> name == SegmentName(d.segmentSize, 0)) <==> d.numbers == [0]
  {
    hide SegmentName, OnDisk;
    OnDiskFacts(disk, d);
    forall i: nat | i < |d.numbers|
      ensures NamesOf(d)[i] in disk && (NamesOf(d)[i] == SegmentName(d.segmentSize, 0) <==> d.numbers[i] == 0)
    {
      NameOnDisk(disk, d, i);
      NamesDiffer(d.segmentSize, d.numbers[i], 0);
    }
    forall name | name in disk ensures name in NamesOf(d) {
      DiskIsNamed(disk, d, name);
    }
    if d.numbers != [0] && |d.numbers| > 1 {
      NumbersDiffer(d, 0, 1);
    }
  }
}
