/** The write-ahead log writer: the active segment, padding and rotation, over a directory of files. */
module Wal {
  import opened Bytes
  import opened WalRecord
  import opened WalScan
  import opened WalLayout
  import opened WalAppend
  import opened WalNames
  import opened WalLog

  /** The directory holding the segment files. */
  class Directory {
    var files: map<FileName, seq<byte>>

    constructor ()
      ensures files == map[]
    {
      files := map[];
    }
  }

  class Segment {
    const dir: Directory
    const path: FileName
    const maxSize: nat
    const baseLsn: nat
    var fileSize: nat

    ghost predicate Valid()
      reads this, dir
    {
      path in dir.files && |dir.files[path]| == fileSize <= maxSize
    }

    /** Opens an existing file; its base sequence number comes from its name. */
    constructor (dir: Directory, path: FileName, maxSize: nat)
      requires |path| >= 24 && path in dir.files
      ensures this.dir == dir && this.path == path && this.maxSize == maxSize
      ensures baseLsn == BaseLsn(path, maxSize) && fileSize == |dir.files[path]|
      ensures Valid() <==> |dir.files[path]| <= maxSize
    {
      this.dir := dir;
      this.path := path;
      this.maxSize := maxSize;
      baseLsn := BaseLsn(path, maxSize);
      fileSize := |dir.files[path]|;
    }

    method Append(buf: seq<byte>)
      requires Valid() && fileSize + |buf| <= maxSize
      modifies this, dir
      ensures Valid() && fileSize == old(fileSize) + |buf|
      ensures dir.files == old(dir.files)[path := old(dir.files)[path] + buf]
    {
      dir.files := dir.files[path := dir.files[path] + buf];
      fileSize := fileSize + |buf|;
    }

    method Pad()
      requires Valid()
      modifies this, dir
      ensures Valid() && fileSize == maxSize
      ensures dir.files == old(dir.files)[path := old(dir.files)[path] + Zeros(maxSize - old(fileSize))]
    {
      var buf := Zeros(maxSize - fileSize);
      Append(buf);
    }

    /** The file as recovery reads it. */
    function Read(): (file: LogFile)
      requires path in dir.files
      reads this, dir
      ensures file.path == path
    {
      LogFile(path, dir.files[path])
    }

    method ReadParseValidateFromOffset(crc: Checksum, offset: nat) returns (entries: seq<WalEntry>, outcome: Outcome)
      requires path in dir.files
      ensures ScanResult(entries, outcome) == FromOffset(crc, Read(), offset)
    {
      hide Parse;
      var bytes := if offset <= |dir.files[path]| then dir.files[path][offset..] else [];
      var o;
      entries, o := ParseValidateWalEntries(crc, path, bytes);
      outcome := Shift(o, offset);
    }

    method ReadParseValidateFromPartialRecord(crc: Checksum, header: seq<byte>)
      returns (entries: seq<WalEntry>, outcome: Outcome)
      requires path in dir.files
      ensures ScanResult(entries, outcome) == FromPartial(crc, Read(), header)
    {
      hide Parse;
      var partRecSize := |header|;
      var o;
      entries, o := ParseValidateWalEntries(crc, path, header + dir.files[path]);
      match o {
        case Partial(p) =>
          outcome := if p.offset < partRecSize then Panics else Partial(p.(offset := p.offset - partRecSize));
        case Corrupted(fp, bufOffset) =>
          var offset;
          if bufOffset > partRecSize {
            offset := bufOffset - partRecSize;
          } else {
            offset := bufOffset;
          }
          outcome := Corrupted(fp, offset);
        case _ => outcome := o;
      }
    }

    function RemainingSpace(): (free: nat)
      requires Valid()
      reads this, dir
    {
      maxSize - fileSize
    }

    function NextLsn(): nat
      reads this
    {
      baseLsn + fileSize
    }
  }

  // ---------- a log on disk ----------

  function SegmentName(segmentSize: nat, number: nat): FileName
    requires segmentSize > 0 && number * segmentSize < U64_LIMIT
  {
    DetermineSegmentFilename(0, number * segmentSize, segmentSize)
  }

  /** The directory holds exactly the segments of the log, under the names of their base sequence numbers. */
  ghost predicate OnDisk(disk: map<FileName, seq<byte>>, l: Log) {
    && l.segmentSize > 0 && LOGICAL_LOG % l.segmentSize == 0
    && |l.numbers| == |l.files|
    && (forall i :: 0 <= i < |l.numbers| ==> l.numbers[i] * l.segmentSize < U64_LIMIT)
    && (forall i :: 0 <= i < |l.numbers| ==>
          SegmentName(l.segmentSize, l.numbers[i]) in disk && disk[SegmentName(l.segmentSize, l.numbers[i])] == l.files[i])
    && (forall name :: name in disk ==>
          exists i :: 0 <= i < |l.numbers| && name == SegmentName(l.segmentSize, l.numbers[i]))
  }

  /** A name depends only on the segment a sequence number lies in. */
  lemma {:induction false} NameOfLsn(lsn: nat, segmentSize: nat)
    requires lsn < U64_LIMIT && segmentSize > 0 && LOGICAL_LOG % segmentSize == 0
    ensures SegmentOf(lsn, segmentSize) * segmentSize <= lsn
    ensures DetermineSegmentFilename(0, lsn, segmentSize) == SegmentName(segmentSize, SegmentOf(lsn, segmentSize))
    ensures |DetermineSegmentFilename(0, lsn, segmentSize)| == 28
    ensures BaseLsn(DetermineSegmentFilename(0, lsn, segmentSize), segmentSize) == SegmentOf(lsn, segmentSize) * segmentSize
  {
    hide DetermineSegmentFilename, BaseLsn;
    DivAtMost(lsn, segmentSize);
    DivUnique(lsn / segmentSize * segmentSize, segmentSize, lsn / segmentSize, 0);
    NameOrder(lsn, lsn / segmentSize * segmentSize, segmentSize);
    NameGivesBase(lsn, segmentSize);
  }

  lemma {:induction false} NamesDiffer(segmentSize: nat, m: nat, n: nat)
    requires segmentSize > 0 && LOGICAL_LOG % segmentSize == 0
    requires m * segmentSize < U64_LIMIT && n * segmentSize < U64_LIMIT
    ensures m < n <==> Less(SegmentName(segmentSize, m), SegmentName(segmentSize, n))
    ensures m == n <==> SegmentName(segmentSize, m) == SegmentName(segmentSize, n)
  {
    hide DetermineSegmentFilename, Less;
    DivUnique(m * segmentSize, segmentSize, m, 0);
    DivUnique(n * segmentSize, segmentSize, n, 0);
    NameOrder(m * segmentSize, n * segmentSize, segmentSize);
  }

  /** A new first file makes the directory hold the empty log if and only if there is no other file. */
  lemma {:induction false} EmptyLogOnDiskIff(segmentSize: nat, disk: map<FileName, seq<byte>>)
    requires segmentSize > 0 && LOGICAL_LOG % segmentSize == 0
    ensures
      var name := DetermineSegmentFilename(0, 0, segmentSize);
      && |name| == 28 && BaseLsn(name, segmentSize) == 0 && name == SegmentName(segmentSize, 0)
      && (OnDisk(disk[name := []], EmptyLog(segmentSize)) <==> forall other :: other in disk ==> other == name)
  {
    hide DetermineSegmentFilename, BaseLsn;
    NameOfLsn(0, segmentSize);
    DivUnique(0, segmentSize, 0, 0);
    var l := EmptyLog(segmentSize);
    assert l.numbers[0] == 0;
    var disk' := disk[SegmentName(segmentSize, 0) := []];
    forall other | other in disk ensures other in disk' {
    }
  }

  /** Changing the last file only. */
  lemma {:induction false} OnDiskLast(disk: map<FileName, seq<byte>>, l: Log, l': Log, bytes: seq<byte>)
    requires OnDisk(disk, l) && |l.files| > 0
    requires forall i, j :: 0 <= i < j < |l.numbers| ==> l.numbers[i] < l.numbers[j]
    requires l'.segmentSize == l.segmentSize && l'.numbers == l.numbers
    requires l'.files == l.files[..|l.files| - 1] + [bytes]
    ensures OnDisk(disk[SegmentName(l.segmentSize, l.numbers[|l.files| - 1]) := bytes], l')
  {
    hide SegmentName;
    var n := |l.files| - 1;
    forall i | 0 <= i < n
      ensures SegmentName(l.segmentSize, l.numbers[i]) != SegmentName(l.segmentSize, l.numbers[n])
    {
      NamesDiffer(l.segmentSize, l.numbers[i], l.numbers[n]);
    }
    var last := SegmentName(l.segmentSize, l.numbers[n]);
    assert last == SegmentName(l'.segmentSize, l'.numbers[n]);
  }

  /** Adding a file with a higher number. */
  lemma {:induction false} OnDiskNew(disk: map<FileName, seq<byte>>, l: Log, l': Log, number: nat, bytes: seq<byte>)
    requires OnDisk(disk, l) && number * l.segmentSize < U64_LIMIT
    requires forall i :: 0 <= i < |l.numbers| ==> l.numbers[i] < number
    requires l'.segmentSize == l.segmentSize && l'.numbers == l.numbers + [number] && l'.files == l.files + [bytes]
    ensures OnDisk(disk[SegmentName(l.segmentSize, number) := bytes], l')
    ensures SegmentName(l.segmentSize, number) !in disk
  {
    hide SegmentName;
    forall i | 0 <= i < |l.numbers|
      ensures SegmentName(l.segmentSize, l.numbers[i]) != SegmentName(l.segmentSize, number)
    {
      NamesDiffer(l.segmentSize, l.numbers[i], number);
    }
    assert l'.numbers[|l.numbers|] == number;
    var disk' := disk[SegmentName(l.segmentSize, number) := bytes];
    forall name | name in disk'
      ensures exists i :: 0 <= i < |l'.numbers| && name == SegmentName(l'.segmentSize, l'.numbers[i])
    {
      if name != SegmentName(l.segmentSize, number) {
        var i :| 0 <= i < |l.numbers| && name == SegmentName(l.segmentSize, l.numbers[i]);
        assert l'.numbers[i] == l.numbers[i];
      }
    }
  }

  class Wal {
    const crc: Checksum
    const dir: Directory
    const segmentMaxSize: nat
    var activeSegment: Segment
    ghost var log: Log

    ghost predicate Valid()
      reads this, dir, activeSegment
    {
      && log.segmentSize == segmentMaxSize && log.Inv(crc) && OnDisk(dir.files, log)
      && Active(dir, segmentMaxSize, log.numbers[|log.numbers| - 1], activeSegment)
      && activeSegment.Valid()
    }

    constructor CreateNew(crc: Checksum, dir: Directory, segmentMaxSize: nat)
      requires segmentMaxSize > 0 && LOGICAL_LOG % segmentMaxSize == 0
      modifies dir
      ensures fresh(activeSegment) && log == EmptyLog(segmentMaxSize)
      ensures this.crc == crc && this.dir == dir && this.segmentMaxSize == segmentMaxSize
      ensures dir.files == old(dir.files)[SegmentName(segmentMaxSize, 0) := []]
      ensures Valid() <==> forall name :: name in old(dir.files) ==> name == SegmentName(segmentMaxSize, 0)
    {
      hide Log.Inv, DetermineSegmentFilename, BaseLsn, OnDisk;
      var filename := DetermineSegmentFilename(0, 0, segmentMaxSize);
      EmptyLogOnDiskIff(segmentMaxSize, dir.files);
      dir.files := dir.files[filename := []];
      var segment := new Segment(dir, filename, segmentMaxSize);
      this.crc := crc;
      this.dir := dir;
      this.segmentMaxSize := segmentMaxSize;
      activeSegment := segment;
      log := EmptyLog(segmentMaxSize);
      EmptyLogInv(crc, segmentMaxSize);
    }

    /** Continues in a segment: properly, if and only if the directory holds a log of which it is the last. */
    constructor FromSegment(crc: Checksum, dir: Directory, segment: Segment, segmentSize: nat, ghost log: Log)
      ensures this.log == log && activeSegment == segment
      ensures this.crc == crc && this.dir == dir && this.segmentMaxSize == segmentSize
      ensures Valid() <==>
              && log.segmentSize == segmentSize && log.Inv(crc) && OnDisk(dir.files, log)
              && Active(dir, segmentSize, log.numbers[|log.numbers| - 1], segment) && segment.Valid()
    {
      hide Log.Inv, OnDisk, SegmentName;
      this.crc := crc;
      this.dir := dir;
      this.segmentMaxSize := segmentSize;
      activeSegment := segment;
      this.log := log;
    }

    method NextSequenceNumber() returns (lsn: nat)
      requires Valid()
      ensures lsn == log.NextLsn()
    {
      hide Log.Inv, OnDisk, SegmentName;
      LastOnDisk(crc, dir.files, log);
      lsn := activeSegment.NextLsn();
    }

    /** The segment that will hold `nextSequenceNumber` becomes the active one, empty. */
    method Rotate(nextSequenceNumber: nat)
      requires nextSequenceNumber < U64_LIMIT && segmentMaxSize > 0 && LOGICAL_LOG % segmentMaxSize == 0
      modifies this`activeSegment, dir
      ensures fresh(activeSegment) && activeSegment.Valid() && activeSegment.fileSize == 0
      ensures Active(dir, segmentMaxSize, SegmentOf(nextSequenceNumber, segmentMaxSize), activeSegment)
      ensures activeSegment.path == DetermineSegmentFilename(0, nextSequenceNumber, segmentMaxSize)
      ensures dir.files == old(dir.files)[activeSegment.path := []]
    {
      hide SegmentOf, DetermineSegmentFilename, BaseLsn;
      var filename := DetermineSegmentFilename(0, nextSequenceNumber, segmentMaxSize);
      NameOfLsn(nextSequenceNumber, segmentMaxSize);
      dir.files := dir.files[filename := []];
      activeSegment := new Segment(dir, filename, segmentMaxSize);
    }

    /** The two steps every append that does not fit goes through. */
    method PadAndRotate(nextSequenceNumber: nat)
      requires activeSegment.Valid() && activeSegment.dir == dir
      requires nextSequenceNumber < U64_LIMIT && segmentMaxSize > 0 && LOGICAL_LOG % segmentMaxSize == 0
      modifies this`activeSegment, dir, activeSegment
      ensures fresh(activeSegment) && activeSegment.Valid() && activeSegment.fileSize == 0
      ensures Active(dir, segmentMaxSize, SegmentOf(nextSequenceNumber, segmentMaxSize), activeSegment)
      ensures activeSegment.path == DetermineSegmentFilename(0, nextSequenceNumber, segmentMaxSize)
      ensures
        var closed := old(activeSegment);
        var full := old(dir.files[activeSegment.path]) + Zeros(closed.maxSize - old(activeSegment.fileSize));
        dir.files == old(dir.files)[closed.path := full][activeSegment.path := []]
    {
      hide SegmentOf, DetermineSegmentFilename;
      activeSegment.Pad();
      Rotate(nextSequenceNumber);
    }

    /** Pads the active segment behind `head`, rotates, and writes `tail` into the new segment. */
    method WriteAcross(head: seq<byte>, tail: seq<byte>, nextSequenceNumber: nat)
      requires activeSegment.Valid() && activeSegment.dir == dir && activeSegment.maxSize == segmentMaxSize
      requires nextSequenceNumber < U64_LIMIT && segmentMaxSize > 0 && LOGICAL_LOG % segmentMaxSize == 0
      requires activeSegment.fileSize + |head| <= segmentMaxSize && |tail| <= segmentMaxSize
      requires DetermineSegmentFilename(0, nextSequenceNumber, segmentMaxSize) != activeSegment.path
      modifies this`activeSegment, dir, activeSegment
      ensures fresh(activeSegment) && activeSegment.Valid()
      ensures Active(dir, segmentMaxSize, SegmentOf(nextSequenceNumber, segmentMaxSize), activeSegment)
      ensures
        var path := old(activeSegment.path);
        var free := segmentMaxSize - old(activeSegment.fileSize) - |head|;
        var next := DetermineSegmentFilename(0, nextSequenceNumber, segmentMaxSize);
        dir.files == old(dir.files)[path := old(dir.files[activeSegment.path]) + head + Zeros(free)][next := tail]
    {
      hide SegmentOf, DetermineSegmentFilename, SegmentName, Active;
      if head != [] {
        activeSegment.Append(head);
      } else {
        AppendNothing(dir.files, activeSegment.path, head);
      }
      PadAndRotate(nextSequenceNumber);
      ActiveMeans(dir, segmentMaxSize, SegmentOf(nextSequenceNumber, segmentMaxSize), activeSegment);
      activeSegment.Append(tail);
      assert [] + tail == tail;
    }

    method Append(e: WalEntry)
      requires Valid() && CanAppend(log, e)
      modifies this, dir, activeSegment
      ensures Valid() && log == AppendLog(crc, old(log), e)
      ensures activeSegment == old(activeSegment) || fresh(activeSegment)
    {
      hide Log.Inv, OnDisk, SegmentName, SegmentOf, DetermineSegmentFilename, Encode, AppendLog, CanAppend, Log.NextLsn,
           PlacementOf, Active;
      ghost var disk, l := dir.files, log;
      AppendPlan(crc, disk, l, e);
      ActiveMeans(dir, segmentMaxSize, l.numbers[|l.numbers| - 1], activeSegment);
      var buf := ToBytes(crc, e);
      var bufSize := |buf|;
      var freeSpace := activeSegment.RemainingSpace();
      if bufSize <= freeSpace {
        activeSegment.Append(buf);
      } else if HEADER_SIZE <= freeSpace {
        WriteAcross(buf[..HEADER_SIZE], buf[HEADER_SIZE..], e.lsn + bufSize);
      } else {
        AppendNothing(disk, activeSegment.path, []);
        WriteAcross([], buf, e.lsn + bufSize);
      }
      log := AppendLog(crc, l, e);
    }
  }

  lemma {:induction false} AppendNothing(disk: map<FileName, seq<byte>>, path: FileName, head: seq<byte>)
    requires path in disk && head == []
    ensures disk[path] + head == disk[path] && disk[path := disk[path]] == disk
  {
  }

  /** `segment` is the open file of segment `number`. */
  ghost predicate Active(dir: Directory, segmentSize: nat, number: nat, segment: Segment) {
    && segmentSize > 0 && number * segmentSize < U64_LIMIT
    && segment.dir == dir && segment.maxSize == segmentSize
    && segment.path == SegmentName(segmentSize, number)
    && segment.baseLsn == number * segmentSize
  }

  lemma {:induction false} ActiveMeans(dir: Directory, segmentSize: nat, number: nat, segment: Segment)
    requires Active(dir, segmentSize, number, segment)
    ensures segmentSize > 0 && number * segmentSize < U64_LIMIT
    ensures segment.dir == dir && segment.maxSize == segmentSize && segment.path == SegmentName(segmentSize, number)
  {
    hide SegmentName;
  }

  lemma {:induction false} LastOnDisk(crc: Checksum, disk: map<FileName, seq<byte>>, l: Log)
    requires l.Inv(crc) && OnDisk(disk, l)
    ensures |l.numbers| == |l.files| == |l.pieces| > 0 && l.segmentSize > 0 && LOGICAL_LOG % l.segmentSize == 0
    ensures var n := |l.files| - 1;
            && l.numbers[n] * l.segmentSize < U64_LIMIT
            && var name := SegmentName(l.segmentSize, l.numbers[n]);
               name in disk && disk[name] == l.files[n]
  {
    hide SegmentName, AllGood, Flat, GoodPrefix, FileOk, PieceOk;
  }

  /** The two files a rotation writes. */
  lemma {:induction false} RotatedFiles(crc: Checksum, l: Log, e: WalEntry)
    requires |l.numbers| == |l.files| == |l.pieces| > 0 && l.segmentSize > 0 && CanAppend(l, e)
    requires !PlacementOf(l.segmentSize, |l.files[|l.files| - 1]|, e.EncodedLen()).Fits?
    ensures
      var n := |l.files| - 1;
      var free := l.segmentSize - |l.files[n]|;
      var r := Encode(crc, e);
      var fs := AppendLog(crc, l, e).files;
      && |fs| == n + 2
      && (HEADER_SIZE <= free ==> fs[n] == l.files[n] + r[..HEADER_SIZE] + Zeros(free - HEADER_SIZE) && fs[n + 1] == r[HEADER_SIZE..])
      && (free < HEADER_SIZE ==> fs[n] == l.files[n] + Zeros(free) && fs[n + 1] == r)
  {
    hide Encode, SegmentOf, AppendPieces;
  }

  /** The directory after the one write of a record that fits holds the appended log. */
  lemma {:induction false} AppendFitsDisk(crc: Checksum, disk: map<FileName, seq<byte>>, l: Log, e: WalEntry)
    requires l.Inv(crc) && OnDisk(disk, l) && CanAppend(l, e)
    requires PlacementOf(l.segmentSize, |l.files[|l.files| - 1]|, e.EncodedLen()).Fits?
    ensures l.numbers[|l.files| - 1] * l.segmentSize < U64_LIMIT
    ensures
      var last := SegmentName(l.segmentSize, l.numbers[|l.files| - 1]);
      last in disk && OnDisk(disk[last := disk[last] + Encode(crc, e)], AppendLog(crc, l, e))
  {
    hide SegmentName, Encode, AllGood, Flat, GoodPrefix, FileOk, PieceOk, Log.Placed, Log.Increasing, AppendPieces,
         OnDisk;
    LastOnDisk(crc, disk, l);
    OnDiskLast(disk, l, AppendLog(crc, l, e), l.files[|l.files| - 1] + Encode(crc, e));
  }

  /** The directory after the writes of a rotation holds the appended log. */
  lemma {:induction false} AppendRotatesDisk(crc: Checksum, disk: map<FileName, seq<byte>>, l: Log, e: WalEntry)
    requires l.Inv(crc) && OnDisk(disk, l) && CanAppend(l, e)
    requires !PlacementOf(l.segmentSize, |l.files[|l.files| - 1]|, e.EncodedLen()).Fits?
    ensures l.numbers[|l.files| - 1] * l.segmentSize < U64_LIMIT
    ensures
      var n := |l.files| - 1;
      var last := SegmentName(l.segmentSize, l.numbers[n]);
      var next := DetermineSegmentFilename(0, e.lsn + e.EncodedLen(), l.segmentSize);
      var l' := AppendLog(crc, l, e);
      && |l'.files| == n + 2 && last != next && last in disk
      && OnDisk(disk[last := l'.files[n]][next := l'.files[n + 1]], l')
  {
    hide SegmentName, Encode, AllGood, Flat, GoodPrefix, FileOk, PieceOk, Log.Placed, Log.Increasing, AppendPieces,
         OnDisk,
         DetermineSegmentFilename, SegmentOf, BaseLsn;
    LastOnDisk(crc, disk, l);
    var n := |l.files| - 1;
    var l' := AppendLog(crc, l, e);
    var number := SegmentOf(e.lsn + e.EncodedLen(), l.segmentSize);
    NameOfLsn(e.lsn + e.EncodedLen(), l.segmentSize);
    RotationIsNext(l, e);
    var mid := l.(files := l.files[..n] + [l'.files[n]]);
    OnDiskLast(disk, l, mid, l'.files[n]);
    NamesDiffer(l.segmentSize, l.numbers[n], number);
    assert forall i :: 0 <= i < |mid.numbers| ==> mid.numbers[i] < number;
    OnDiskNew(disk[SegmentName(l.segmentSize, l.numbers[n]) := l'.files[n]], mid, l', number, l'.files[n + 1]);
  }

  lemma {:induction false} AppendTop(crc: Checksum, l: Log, e: WalEntry)
    requires |l.numbers| == |l.files| == |l.pieces| > 0 && l.segmentSize > 0 && CanAppend(l, e)
    ensures
      var l' := AppendLog(crc, l, e);
      && l'.segmentSize == l.segmentSize && |l'.numbers| > 0
      && l'.numbers[|l'.numbers| - 1] ==
         if PlacementOf(l.segmentSize, |l.files[|l.files| - 1]|, e.EncodedLen()).Fits? then l.numbers[|l.files| - 1]
         else SegmentOf(e.lsn + e.EncodedLen(), l.segmentSize)
  {
    hide Encode, AppendFiles, AppendPieces, SegmentOf, PlacementOf;
  }

  /** All an append has to know of the log: what it may write, and that the directory it leaves holds the new log. */
  lemma {:induction false} AppendPlan(crc: Checksum, disk: map<FileName, seq<byte>>, l: Log, e: WalEntry)
    requires l.Inv(crc) && OnDisk(disk, l) && CanAppend(l, e)
    ensures |l.numbers| == |l.files| > 0
    ensures e.Valid() && l.segmentSize > 0 && LOGICAL_LOG % l.segmentSize == 0 && |l.pieces| == |l.files|
    ensures e.lsn + e.EncodedLen() < U64_LIMIT && l.numbers[|l.files| - 1] * l.segmentSize < U64_LIMIT
    ensures AppendLog(crc, l, e).Inv(crc) && AppendLog(crc, l, e).segmentSize == l.segmentSize
    ensures |AppendLog(crc, l, e).numbers| == |AppendLog(crc, l, e).files| > 0
    ensures
      var n := |l.files| - 1;
      var r := Encode(crc, e);
      var last := SegmentName(l.segmentSize, l.numbers[n]);
      var next := DetermineSegmentFilename(0, e.lsn + e.EncodedLen(), l.segmentSize);
      var l' := AppendLog(crc, l, e);
      var top := l'.numbers[|l'.numbers| - 1];
      && last in disk && |disk[last]| <= l.segmentSize
      && var free := l.segmentSize - |disk[last]|;
         if |r| <= free then
           top == l.numbers[n] && OnDisk(disk[last := disk[last] + r], l')
         else
           && top == SegmentOf(e.lsn + e.EncodedLen(), l.segmentSize) && last != next
           && if HEADER_SIZE <= free
              then |r| - HEADER_SIZE <= l.segmentSize &&
                   OnDisk(disk[last := disk[last] + r[..HEADER_SIZE] + Zeros(free - HEADER_SIZE)][next := r[HEADER_SIZE..]], l')
              else |r| <= l.segmentSize && OnDisk(disk[last := disk[last] + Zeros(free)][next := r], l')
  {
    hide SegmentName, Encode, AllGood, Flat, GoodPrefix, FileOk, PieceOk, Log.Placed, Log.Increasing, AppendPieces,
         AppendFiles,
         OnDisk, DetermineSegmentFilename, SegmentOf, BaseLsn, AppendLog;
    LastOnDisk(crc, disk, l);
    AppendInv(crc, l, e);
    AppendTop(crc, l, e);
    if PlacementOf(l.segmentSize, |l.files[|l.files| - 1]|, e.EncodedLen()).Fits? {
      AppendFitsDisk(crc, disk, l, e);
    } else {
      AppendRotatesDisk(crc, disk, l, e);
      RotatedFiles(crc, l, e);
    }
  }
}
