/** The segment files of the log: listing them for a sequence number, opening, cutting and removing them. */
module MemTableFiles {
  import opened Bytes
  import opened Options
  import opened Sorting
  import opened WalScan
  import opened WalLayout
  import opened WalNames
  import opened WalLog
  import opened WalReplay
  import opened Wal
  import opened MemTable

  // ---------- listing ----------

  /** The files that count as holding entries behind a sequence number, sorted by name. */
  method ListSegmentFiles(dir: Directory, lsn: nat) returns (paths: seq<FileName>)
    requires forall name :: name in dir.files ==> |name| >= 24
    ensures Lists(dir.files, lsn, paths)
  {
    hide Less, FromHex, FinalEntryAfter, Ascending, Sort;
    var found: seq<FileName> := [];
    var left := dir.files.Keys;
    while left != {}
      invariant left <= dir.files.Keys
      invariant Distinct(found)
      invariant forall name :: name in found <==> name in dir.files && name !in left && FinalEntryAfter(name, |dir.files[name]|, lsn)
      decreases |left|
    {
      var name: FileName :| name in left;
      left := left - {name};
      if FinalEntryAfter(name, |dir.files[name]|, lsn) {
        found := found + [name];
      }
    }
    SortSorts(found);
    paths := Sort(found);
  }

  /** The names of the log's segments, in order. */
  function NamesOf(l: Log): (names: seq<FileName>)
    requires l.segmentSize > 0 && forall i :: 0 <= i < |l.numbers| ==> l.numbers[i] * l.segmentSize < U64_LIMIT
    ensures |names| == |l.numbers| && forall i :: 0 <= i < |names| ==> names[i] == SegmentName(l.segmentSize, l.numbers[i])
  {
    seq(|l.numbers|, i requires 0 <= i < |l.numbers| => SegmentName(l.segmentSize, l.numbers[i]))
  }

  lemma {:induction false} NamesAscend(l: Log)
    requires l.segmentSize > 0 && LOGICAL_LOG % l.segmentSize == 0
    requires forall i :: 0 <= i < |l.numbers| ==> l.numbers[i] * l.segmentSize < U64_LIMIT
    requires forall i, j :: 0 <= i < j < |l.numbers| ==> l.numbers[i] < l.numbers[j]
    ensures Ascending(NamesOf(l))
  {
    hide SegmentName, Less;
    var names := NamesOf(l);
    forall i, j | 0 <= i < j < |names| ensures Less(names[i], names[j]) {
      NamesDiffer(l.segmentSize, l.numbers[i], l.numbers[j]);
    }
  }

  /** The test of the last, possibly unfinished file: it multiplies by the current length of that file. */
  ghost predicate LastIsListed(l: Log, lsn: nat)
    requires l.segmentSize > 0 && |l.numbers| == |l.files| > 0 && LOGICAL_LOG % l.segmentSize == 0
    requires l.numbers[|l.numbers| - 1] * l.segmentSize < U64_LIMIT
  {
    var n := |l.numbers| - 1;
    var base := l.numbers[n] * l.segmentSize;
    lsn < base / LOGICAL_LOG * LOGICAL_LOG + |l.files[n]| * (base % LOGICAL_LOG / l.segmentSize + 1)
  }

  /** Which segments are listed for a sequence number that segment `a` is the first to cover. */
  lemma {:induction false} ListedSegment(l: Log, lsn: nat, a: nat, i: nat)
    requires l.segmentSize > 0 && LOGICAL_LOG % l.segmentSize == 0 && |l.numbers| == |l.files| > 0
    requires forall i :: 0 <= i < |l.numbers| ==> l.numbers[i] * l.segmentSize < U64_LIMIT
    requires forall i, j :: 0 <= i < j < |l.numbers| ==> l.numbers[i] < l.numbers[j]
    requires forall i :: 0 <= i < |l.files| ==> |l.files[i]| <= l.segmentSize && (i + 1 < |l.files| ==> |l.files[i]| == l.segmentSize)
    requires FirstCovering(l, lsn, a) && i < |l.numbers|
    ensures
      var name := SegmentName(l.segmentSize, l.numbers[i]);
      && |name| >= 24
      && (FinalEntryAfter(name, |l.files[i]|, lsn) <==>
          if i + 1 < |l.numbers| then a <= i else LastIsListed(l, lsn))
  {
    hide FinalEntryAfter, DetermineSegmentFilename;
    FinalEntryAfterFull(l.segmentSize, l.numbers[i], |l.files[i]|, lsn);
    FinalEntryAfterMeans(l.segmentSize, l.numbers[i], |l.files[i]|, lsn);
    MulPlus(l.numbers[i], 1, l.segmentSize);
    if a <= i {
      MulAtLeast(l.numbers[i] + 1, l.numbers[a] + 1, l.segmentSize);
    }
  }

  /** Closed segments are full, and no segment is more than full. */
  lemma {:induction false} ClosedAreFull(crc: Checksum, l: Log)
    requires l.Shape(crc)
    ensures |l.files| == |l.numbers| > 0 && l.segmentSize > 0
    ensures forall i :: 0 <= i < |l.files| ==> |l.files[i]| <= l.segmentSize && (i + 1 < |l.files| ==> |l.files[i]| == l.segmentSize)
  {
    hide Stream, Lead, AllGood, Flat, GoodPrefix;
    forall i | 0 <= i < |l.files| ensures |l.files[i]| <= l.segmentSize && (i + 1 < |l.files| ==> |l.files[i]| == l.segmentSize) {
      assert FileOk(l.segmentSize, l.files[i], l.pieces[i], Next(l.pieces, i));
    }
  }

  lemma {:induction false} SameList(names: seq<FileName>, a: nat, paths: seq<FileName>, last: bool)
    requires a < |names| && Ascending(paths) && Ascending(names)
    requires forall i :: 0 <= i < |names| ==> (names[i] in paths <==> if i < |names| - 1 then a <= i else last)
    requires forall name :: name in paths ==> name in names
    ensures paths == names[a..if last then |names| else |names| - 1]
  {
    hide Less;
    var listed := names[a..if last then |names| else |names| - 1];
    assert Ascending(listed);
    forall name ensures name in paths <==> name in listed {
      if name in paths {
        var i :| 0 <= i < |names| && names[i] == name;
        assert listed[i - a] == name;
      }
      if name in listed {
        var i :| 0 <= i < |listed| && listed[i] == name;
        assert name == names[a + i];
      }
    }
    AscendingUnique(paths, listed);
  }

  lemma {:induction false} NameOnDisk(disk: map<FileName, seq<byte>>, l: Log, i: nat)
    requires OnDisk(disk, l) && i < |l.numbers|
    ensures NamesOf(l)[i] in disk && disk[NamesOf(l)[i]] == l.files[i]
  {
    hide SegmentName;
  }

  lemma {:induction false} DiskIsNamed(disk: map<FileName, seq<byte>>, l: Log, name: FileName)
    requires OnDisk(disk, l) && name in disk
    ensures name in NamesOf(l)
  {
    hide SegmentName;
    var i :| 0 <= i < |l.numbers| && name == SegmentName(l.segmentSize, l.numbers[i]);
    assert NamesOf(l)[i] == name;
  }

  /** What a listing of the log's directory for a sequence number yields. */
  ghost predicate Lists(disk: map<FileName, seq<byte>>, lsn: nat, paths: seq<FileName>) {
    && Ascending(paths)
    && (forall name :: name in disk ==> |name| >= 24)
    && (forall name :: name in paths <==> name in disk && FinalEntryAfter(name, |disk[name]|, lsn))
  }

  /** Closed segments full, numbers ascending: what a listing depends on. */
  ghost predicate Closed(l: Log) {
    && |l.numbers| == |l.files| > 0
    && (forall i, j :: 0 <= i < j < |l.numbers| ==> l.numbers[i] < l.numbers[j])
    && (forall i :: 0 <= i < |l.files| ==> |l.files[i]| <= l.segmentSize && (i + 1 < |l.files| ==> |l.files[i]| == l.segmentSize))
  }

  /** The listing for a sequence number that segment `a` covers: all segments from there on, or all but the last. */
  lemma {:induction false} ListingOf(disk: map<FileName, seq<byte>>, l: Log, lsn: nat, a: nat, paths: seq<FileName>)
    requires Closed(l) && OnDisk(disk, l) && FirstCovering(l, lsn, a) && a < |l.numbers| && Lists(disk, lsn, paths)
    ensures paths == NamesOf(l)[a..if LastIsListed(l, lsn) then |l.numbers| else |l.numbers| - 1]
  {
    hide FinalEntryAfter, SegmentName, Less, Ascending, OnDisk, LastIsListed, FirstCovering;
    OnDiskFacts(disk, l);
    var names := NamesOf(l);
    forall i: nat | i < |names|
      ensures names[i] in paths <==> if i < |names| - 1 then a <= i else LastIsListed(l, lsn)
    {
      NameOnDisk(disk, l, i);
      ListedSegment(l, lsn, a, i);
    }
    forall name | name in paths ensures name in names {
      DiskIsNamed(disk, l, name);
    }
    NamesAscend(l);
    SameList(names, a, paths, LastIsListed(l, lsn));
  }

  lemma {:induction false} InvIsClosed(crc: Checksum, l: Log)
    requires l.Inv(crc)
    ensures Closed(l) && l.segmentSize > 0 && |l.pieces| == |l.files| && !l.pieces[0].split
  {
    hide FileOk, PieceOk, AllGood, Flat, GoodPrefix, Log.Placed, Log.Increasing;
    ClosedAreFull(crc, l);
  }

  /** The files listed are exactly those from the covering segment on, if and only if the last one passes its test. */
  lemma {:induction false} ListingIff(crc: Checksum, disk: map<FileName, seq<byte>>, l: Log, lsn: nat, a: nat,
                                      paths: seq<FileName>)
    requires l.Inv(crc) && OnDisk(disk, l) && FirstCovering(l, lsn, a) && a < |l.numbers| && Lists(disk, lsn, paths)
    ensures |l.files| == |l.numbers|
    ensures paths == NamesOf(l)[a..] <==> LastIsListed(l, lsn)
    ensures !LastIsListed(l, lsn) ==> paths == NamesOf(l)[a..|l.numbers| - 1]
  {
    hide FinalEntryAfter, SegmentName, Less, Ascending, OnDisk, LastIsListed, FirstCovering, Lists, Log.Inv;
    InvIsClosed(crc, l);
    ListingOf(disk, l, lsn, a, paths);
  }

  lemma {:induction false} OnDiskFacts(disk: map<FileName, seq<byte>>, l: Log)
    requires OnDisk(disk, l)
    ensures l.segmentSize > 0 && LOGICAL_LOG % l.segmentSize == 0
    ensures forall i :: 0 <= i < |l.numbers| ==> l.numbers[i] * l.segmentSize < U64_LIMIT
  {
    hide SegmentName;
  }

  // ---------- opening ----------

  /** None stands for the error that a file exceeds the segment size. */
  method FindAndOpenSegments(dir: Directory, segmentSize: nat, lsn: nat) returns (segments: Option<seq<Segment>>,
                             ghost paths: seq<FileName>)
    requires forall name :: name in dir.files ==> |name| >= 24
    ensures Lists(dir.files, lsn, paths)
    ensures segments.None? <==> exists name :: name in paths && name in dir.files && |dir.files[name]| > segmentSize
    ensures segments.Some? ==> Opened(segments.value, dir, segmentSize, paths)
    ensures segments.Some? ==> forall i :: 0 <= i < |segments.value| ==> fresh(segments.value[i])
  {
    hide FinalEntryAfter, Ascending;
    var names := ListSegmentFiles(dir, lsn);
    paths := names;
    var found: seq<Segment> := [];
    for i := 0 to |names|
      invariant |found| == i
      invariant forall j :: 0 <= j < i ==> fresh(found[j]) && found[j].dir == dir && found[j].path == names[j] && found[j].maxSize == segmentSize
      invariant forall j :: 0 <= j < i ==> names[j] in dir.files && |dir.files[names[j]]| <= segmentSize
    {
      assert names[i] in names;
      if |dir.files[names[i]]| > segmentSize {
        return None, paths;
      }
      var segment := new Segment(dir, names[i], segmentSize);
      found := found + [segment];
    }
    segments := Some(found);
  }

  /** The listed files, opened in order. */
  ghost predicate Opened(segments: seq<Segment>, dir: Directory, segmentSize: nat, paths: seq<FileName>)
    reads dir
  {
    && |segments| == |paths|
    && forall i :: 0 <= i < |segments| ==> segments[i].dir == dir && segments[i].path == paths[i] && segments[i].maxSize == segmentSize
                                           && paths[i] in dir.files
  }

  datatype OpenLast = NotFound | TooLarge | LastSegment(segment: Segment)

  /** The last non-empty file, which the log continues in. */
  method OpenLastSegment(dir: Directory, segmentSize: nat) returns (res: OpenLast, ghost paths: seq<FileName>)
    requires forall name :: name in dir.files ==> |name| >= 24
    ensures Lists(dir.files, 0, paths)
    ensures res.NotFound? <==> paths == []
    ensures res.TooLarge? <==> paths != [] && paths[|paths| - 1] in dir.files && |dir.files[paths[|paths| - 1]]| > segmentSize
    ensures res.LastSegment? ==>
              && fresh(res.segment) && res.segment.Valid() && res.segment.dir == dir && res.segment.maxSize == segmentSize
              && paths != [] && res.segment.path == paths[|paths| - 1] && |res.segment.path| >= 24
              && res.segment.baseLsn == BaseLsn(res.segment.path, segmentSize)
  {
    hide FinalEntryAfter, Ascending, BaseLsn;
    var names := ListSegmentFiles(dir, 0);
    paths := names;
    if names == [] {
      return NotFound, paths;
    }
    var last := names[|names| - 1];
    assert last in names;
    if |dir.files[last]| > segmentSize {
      return TooLarge, paths;
    }
    var segment := new Segment(dir, last, segmentSize);
    res := LastSegment(segment);
  }

  /** A file that a listing for sequence number zero contains. */
  ghost predicate Listed(disk: map<FileName, seq<byte>>, name: FileName) {
    name in disk && |name| >= 24 && FinalEntryAfter(name, |disk[name]|, 0)
  }

  /** The first listed file that is not before the given name. */
  ghost predicate FirstFrom(disk: map<FileName, seq<byte>>, path: FileName, name: FileName) {
    && Listed(disk, name) && !Less(name, path)
    && forall other :: Listed(disk, other) && !Less(other, path) ==> !Less(other, name)
  }

  /**
   * The first listed file not before the corrupted one is cut to the offset, or extended to it, and reopened; None
   * stands for the error that there is no such file.
   */
  method TruncateAndOpenSegmentFile(path: FileName, offset: nat, dir: Directory,
                                    segmentSize: nat) returns (segment: Option<Segment>)
    requires forall name :: name in dir.files ==> |name| >= 24
    modifies dir
    ensures segment.None? <==> forall name :: Listed(old(dir.files), name) ==> Less(name, path)
    ensures segment.None? ==> dir.files == old(dir.files)
    ensures segment.Some? ==>
              && fresh(segment.value) && segment.value.dir == dir && segment.value.maxSize == segmentSize
              && FirstFrom(old(dir.files), path, segment.value.path)
              && segment.value.baseLsn == BaseLsn(segment.value.path, segmentSize) && segment.value.fileSize == offset
              && dir.files == old(dir.files)[segment.value.path := SetLen(old(dir.files)[segment.value.path], offset)]
  {
    hide FinalEntryAfter, BaseLsn, Ascending, Less, SetLen;
    var names := ListSegmentFiles(dir, 0);
    ListedAre(dir.files, names);
    var i := 0;
    while i < |names| && Less(names[i], path)
      invariant 0 <= i <= |names|
      invariant forall j :: 0 <= j < i ==> Less(names[j], path)
    {
      i := i + 1;
    }
    if i == |names| {
      return None;
    }
    FirstNotBefore(dir.files, names, i, path);
    var bytes := dir.files[names[i]];
    dir.files := dir.files[names[i] := SetLen(bytes, offset)];
    var s := new Segment(dir, names[i], segmentSize);
    segment := Some(s);
  }

  lemma {:induction false} ListedAre(disk: map<FileName, seq<byte>>, names: seq<FileName>)
    requires Lists(disk, 0, names)
    ensures forall name :: Listed(disk, name) <==> exists i :: 0 <= i < |names| && names[i] == name
  {
    hide FinalEntryAfter, Ascending;
    forall name ensures Listed(disk, name) <==> name in names {
    }
  }

  lemma {:induction false} FirstNotBefore(disk: map<FileName, seq<byte>>, names: seq<FileName>, i: nat, path: FileName)
    requires Lists(disk, 0, names) && i < |names| && !Less(names[i], path) && forall j :: 0 <= j < i ==> Less(names[j], path)
    ensures FirstFrom(disk, path, names[i])
  {
    hide Less, FinalEntryAfter;
    ListedAre(disk, names);
    forall other | Listed(disk, other) && !Less(other, path) ensures !Less(other, names[i]) {
      var k :| 0 <= k < |names| && names[k] == other;
      LessIrreflexive(other);
      if Less(other, names[i]) && i < k {
        LessTransitive(other, names[i], other);
      }
    }
  }

  /** If the corrupted file itself is listed, it is the one. */
  lemma {:induction false} FirstFromIs(disk: map<FileName, seq<byte>>, path: FileName, name: FileName)
    requires Listed(disk, path) && FirstFrom(disk, path, name)
    ensures name == path
  {
    hide Less, Listed;
    LessIrreflexive(path);
    LessConnected(path, name);
  }

  /** A file length set by the system: cut, or extended with zeros. */
  function SetLen(bytes: seq<byte>, n: nat): (b: seq<byte>)
    ensures |b| == n && forall i :: 0 <= i < n ==> b[i] == if i < |bytes| then bytes[i] else 0
  {
    if n <= |bytes| then bytes[..n] else bytes + Zeros(n - |bytes|)
  }

  // ---------- the log's files ----------

  /** The log's files under their names. */
  function AllFiles(l: Log): (files: seq<LogFile>)
    requires l.segmentSize > 0 && (forall i :: 0 <= i < |l.numbers| ==> l.numbers[i] * l.segmentSize < U64_LIMIT)
    requires |l.numbers| == |l.files|
    ensures |files| == |l.files| && forall i :: 0 <= i < |files| ==> files[i] == LogFile(NamesOf(l)[i], l.files[i])
  {
    seq(|l.files|, i requires 0 <= i < |l.files| => LogFile(NamesOf(l)[i], l.files[i]))
  }

  lemma {:induction false} AllFilesContain(l: Log)
    requires l.segmentSize > 0 && (forall i :: 0 <= i < |l.numbers| ==> l.numbers[i] * l.segmentSize < U64_LIMIT)
    requires |l.numbers| == |l.files|
    ensures ContentsAre(l, AllFiles(l))
  {
    hide SegmentName;
    assert Contents(AllFiles(l)) == l.files;
  }

  /** What recovery reads are the log's files from segment `a` to segment `b`. */
  lemma {:induction false} OpenedFiles(segments: seq<Segment>, dir: Directory, segmentSize: nat, l: Log, a: nat, b: nat,
                                       paths: seq<FileName>)
    requires OnDisk(dir.files, l) && |l.numbers| == |l.files| && a <= b <= |l.files|
    requires paths == NamesOf(l)[a..b] && Opened(segments, dir, segmentSize, paths)
    ensures Readable(segments) && LogFiles(segments) == AllFiles(l)[a..b]
  {
    hide SegmentName, OnDisk;
    OnDiskFacts(dir.files, l);
    forall i: nat | i < |segments| ensures segments[i].path in segments[i].dir.files {
      NameOnDisk(dir.files, l, a + i);
    }
    forall i: nat | i < |segments| ensures LogFiles(segments)[i] == AllFiles(l)[a..b][i] {
      NameOnDisk(dir.files, l, a + i);
    }
  }

  /** The first segment to cover a sequence number, when the last one does. */
  lemma {:induction false} FindCovering(l: Log, lsn: nat) returns (a: nat)
    requires Closed(l) && lsn < (l.numbers[|l.numbers| - 1] + 1) * l.segmentSize
    ensures a < |l.numbers| && FirstCovering(l, lsn, a)
  {
    var n := |l.numbers| - 1;
    a := 0;
    while lsn >= (l.numbers[a] + 1) * l.segmentSize
      invariant a <= n
      invariant forall b :: 0 <= b < a ==> (l.numbers[b] + 1) * l.segmentSize <= lsn
      decreases n - a
    {
      a := a + 1;
    }
  }

  lemma {:induction false} RestartIsCovered(crc: Checksum, l: Log, lsn: nat, from: nat)
    requires l.Inv(crc) && RestartsFrom(l, lsn, from)
    ensures Closed(l) && lsn < (l.numbers[|l.numbers| - 1] + 1) * l.segmentSize
  {
    hide FileOk, PieceOk, AllGood, Flat, GoodPrefix, Log.Placed;
    InvIsClosed(crc, l);
    var n := |l.numbers| - 1;
    MulPlus(l.numbers[n], 1, l.segmentSize);
    MulPlus(l.numbers[0], 1, l.segmentSize);
    MulAtLeast(l.numbers[n] + 1, l.numbers[0] + 1, l.segmentSize);
  }

  /** A last segment that is listed for a sequence number covers it. */
  lemma {:induction false} ListedIsCovered(l: Log, lsn: nat)
    requires Closed(l) && l.segmentSize > 0 && LOGICAL_LOG % l.segmentSize == 0
    requires l.numbers[|l.numbers| - 1] * l.segmentSize < U64_LIMIT && LastIsListed(l, lsn)
    ensures lsn < (l.numbers[|l.numbers| - 1] + 1) * l.segmentSize
  {
    hide FinalEntryAfter, DetermineSegmentFilename;
    var n := |l.numbers| - 1;
    FinalEntryAfterFull(l.segmentSize, l.numbers[n], |l.files[n]|, lsn);
    FinalEntryAfterMeans(l.segmentSize, l.numbers[n], |l.files[n]|, lsn);
    MulPlus(l.numbers[n], 1, l.segmentSize);
  }

  lemma {:induction false} SegmentBase(segmentSize: nat, number: nat)
    requires segmentSize > 0 && LOGICAL_LOG % segmentSize == 0 && number * segmentSize < U64_LIMIT
    ensures |SegmentName(segmentSize, number)| == 28
    ensures BaseLsn(SegmentName(segmentSize, number), segmentSize) == number * segmentSize
  {
    hide DetermineSegmentFilename, BaseLsn;
    NameOfLsn(number * segmentSize, segmentSize);
    DivUnique(number * segmentSize, segmentSize, number, 0);
  }

  lemma {:induction false} LogNamesAreLong(disk: map<FileName, seq<byte>>, l: Log)
    requires OnDisk(disk, l)
    ensures forall name :: name in disk ==> |name| >= 24
  {
    hide SegmentName;
    forall name | name in disk ensures |name| >= 24 {
      var i :| 0 <= i < |l.numbers| && name == SegmentName(l.segmentSize, l.numbers[i]);
      SegmentBase(l.segmentSize, l.numbers[i]);
    }
  }

  method RemoveFiles(dir: Directory, paths: seq<FileName>)
    modifies dir
    ensures forall name :: name in dir.files <==> name in old(dir.files) && name !in paths
    ensures forall name :: name in dir.files ==> dir.files[name] == old(dir.files)[name]
  {
    for i := 0 to |paths|
      invariant forall name :: name in dir.files <==> name in old(dir.files) && name !in paths[..i]
      invariant forall name :: name in dir.files ==> dir.files[name] == old(dir.files)[name]
    {
      dir.files := dir.files - {paths[i]};
    }
    assert paths[..|paths|] == paths;
  }
}
