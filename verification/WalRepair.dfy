/**
 * Damaged and torn logs on disk: what a restart reads of them, where it reports the corruption, and whether cutting the
 * reported file and removing the files listed behind it leaves a log.
 */
module WalRepair {
  import opened Bytes
  import opened WalScan
  import opened WalNames
  import opened WalLog
  import opened Wal
  import opened MemTableFiles

  // ---------- cutting and removing ----------

  /** `cut` is the log `d` up to some byte of some file. */
  ghost predicate CutOf(cut: Log, d: Log) {
    && cut.segmentSize == d.segmentSize
    && 0 < |cut.files| == |cut.numbers| <= |d.numbers| == |d.files|
    && cut.numbers == d.numbers[..|cut.numbers|]
    && var p := |cut.files| - 1;
       cut.files[..p] == d.files[..p] && cut.files[p] <= d.files[p]
  }

  /** The listing that follows the cut finds every file behind it: there is none, or the last one passes its test. */
  ghost predicate FindsAllBehind(d: Log, cut: Log) {
    || |cut.files| == |d.files|
    || (&& d.segmentSize > 0 && LOGICAL_LOG % d.segmentSize == 0 && |d.numbers| == |d.files| > 0
        && d.numbers[|d.numbers| - 1] * d.segmentSize < U64_LIMIT && LastIsListed(d, cut.NextLsn()))
  }

  /** The directory without the given files. */
  ghost predicate Without(disk: map<FileName, seq<byte>>, removed: seq<FileName>, disk': map<FileName, seq<byte>>) {
    && (forall name :: name in disk' <==> name in disk && name !in removed)
    && (forall name :: name in disk' ==> disk'[name] == disk[name])
  }

  /** The directory after the reported file was cut. */
  function CutDisk(disk: map<FileName, seq<byte>>, cut: Log): map<FileName, seq<byte>>
    requires cut.segmentSize > 0 && |cut.files| == |cut.numbers| > 0
    requires cut.numbers[|cut.numbers| - 1] * cut.segmentSize < U64_LIMIT
  {
    var p := |cut.files| - 1;
    disk[SegmentName(cut.segmentSize, cut.numbers[p]) := cut.files[p]]
  }

  /** Which files count as lying behind the end of the cut log. */
  lemma {:induction false} BehindCut(d: Log, cut: Log, i: nat)
    requires Closed(d) && CutOf(cut, d) && i < |d.numbers| && d.segmentSize > 0 && LOGICAL_LOG % d.segmentSize == 0
    requires forall i :: 0 <= i < |d.numbers| ==> d.numbers[i] * d.segmentSize < U64_LIMIT
    ensures
      var p := |cut.files| - 1;
      var name := SegmentName(d.segmentSize, d.numbers[i]);
      && |name| >= 24
      && (FinalEntryAfter(name, if i == p then |cut.files[p]| else |d.files[i]|, cut.NextLsn()) <==>
          p < i && (i < |d.numbers| - 1 || LastIsListed(d, cut.NextLsn())))
  {
    hide FinalEntryAfter, DetermineSegmentFilename;
    var p := |cut.files| - 1;
    var size := if i == p then |cut.files[p]| else |d.files[i]|;
    FinalEntryAfterFull(d.segmentSize, d.numbers[i], size, cut.NextLsn());
    FinalEntryAfterMeans(d.segmentSize, d.numbers[i], size, cut.NextLsn());
    if i < p {
      MulPlus(d.numbers[i], 1, d.segmentSize);
      MulAtLeast(d.numbers[p], d.numbers[i] + 1, d.segmentSize);
    } else if p < i {
      MulPlus(d.numbers[p], 1, d.segmentSize);
      MulAtLeast(d.numbers[i], d.numbers[p] + 1, d.segmentSize);
    }
  }

  lemma {:induction false} CutName(disk: map<FileName, seq<byte>>, d: Log, cut: Log, i: nat)
    requires Closed(d) && OnDisk(disk, d) && CutOf(cut, d) && i < |d.numbers|
    ensures forall i :: 0 <= i < |d.numbers| ==> d.numbers[i] * d.segmentSize < U64_LIMIT
    ensures d.segmentSize > 0 && LOGICAL_LOG % d.segmentSize == 0
    ensures
      var p := |cut.files| - 1;
      NamesOf(d)[i] in CutDisk(disk, cut) && CutDisk(disk, cut)[NamesOf(d)[i]] == if i == p then cut.files[p] else d.files[i]
  {
    hide SegmentName, OnDisk;
    OnDiskFacts(disk, d);
    NameOnDisk(disk, d, i);
    var p := |cut.files| - 1;
    NamesDiffer(d.segmentSize, d.numbers[i], d.numbers[p]);
    if i < p {
      NumbersDiffer(d, i, p);
    } else if p < i {
      NumbersDiffer(d, p, i);
    }
  }

  lemma {:induction false} NumbersDiffer(d: Log, i: nat, j: nat)
    requires Closed(d) && i < j < |d.numbers|
    ensures d.numbers[i] < d.numbers[j]
  {
  }

  /**
   * The repair. After the reported file has been cut and the files listed behind the new end have been removed, the
   * directory holds exactly the cut log if and only if the cut file was the last one or the last one passes its test.
   */
  lemma {:induction false} RepairIff(disk: map<FileName, seq<byte>>, d: Log, cut: Log, behind: seq<FileName>,
                                     disk': map<FileName, seq<byte>>)
    requires Closed(d) && OnDisk(disk, d) && CutOf(cut, d)
    ensures d.segmentSize > 0 && LOGICAL_LOG % d.segmentSize == 0
    ensures forall i :: 0 <= i < |d.numbers| ==> d.numbers[i] * d.segmentSize < U64_LIMIT
    ensures Lists(CutDisk(disk, cut), cut.NextLsn(), behind) && Without(CutDisk(disk, cut), behind, disk')
            ==> (OnDisk(disk', cut) <==> FindsAllBehind(d, cut))
  {
    hide SegmentName, OnDisk, FinalEntryAfter, LastIsListed, CutDisk, Log.NextLsn, CutOf, Closed;
    OnDiskFacts(disk, d);
    CutOfFacts(cut, d);
    if Lists(CutDisk(disk, cut), cut.NextLsn(), behind) && Without(CutDisk(disk, cut), behind, disk') {
      forall i: nat | i < |d.numbers|
        ensures NamesOf(d)[i] in disk' <==> i < |cut.files| || (i == |d.numbers| - 1 && !LastIsListed(d, cut.NextLsn()))
        ensures NamesOf(d)[i] in disk' ==> disk'[NamesOf(d)[i]] == if i == |cut.files| - 1 then cut.files[i] else d.files[i]
      {
        CutName(disk, d, cut, i);
        BehindCut(d, cut, i);
      }
      forall name | name in disk' ensures name in NamesOf(d) {
        CutDiskNames(disk, d, cut, name);
      }
      LeftOnDisk(disk', d, cut);
    }
  }

  lemma {:induction false} CutOfFacts(cut: Log, d: Log)
    requires CutOf(cut, d) && Closed(d)
    ensures cut.segmentSize == d.segmentSize && 0 < |cut.files| == |cut.numbers| <= |d.numbers| == |d.files|
    ensures cut.numbers[|cut.numbers| - 1] == d.numbers[|cut.numbers| - 1]
  {
  }

  lemma {:induction false} CutDiskNames(disk: map<FileName, seq<byte>>, d: Log, cut: Log, name: FileName)
    requires Closed(d) && OnDisk(disk, d) && CutOf(cut, d)
    requires forall i :: 0 <= i < |d.numbers| ==> d.numbers[i] * d.segmentSize < U64_LIMIT
    requires name in CutDisk(disk, cut)
    ensures name in NamesOf(d)
  {
    hide SegmentName;
    NameOnDisk(disk, d, |cut.files| - 1);
    DiskIsNamed(disk, d, name);
  }

  /** What is left of the directory, read as a log. */
  lemma {:induction false} LeftOnDisk(disk: map<FileName, seq<byte>>, d: Log, cut: Log)
    requires Closed(d) && CutOf(cut, d) && d.segmentSize > 0 && LOGICAL_LOG % d.segmentSize == 0
    requires forall i :: 0 <= i < |d.numbers| ==> d.numbers[i] * d.segmentSize < U64_LIMIT
    requires forall i :: 0 <= i < |d.numbers| ==>
               (NamesOf(d)[i] in disk <==> i < |cut.files| || (i == |d.numbers| - 1 && !LastIsListed(d, cut.NextLsn())))
    requires forall i :: 0 <= i < |d.numbers| && NamesOf(d)[i] in disk ==>
               disk[NamesOf(d)[i]] == if i == |cut.files| - 1 then cut.files[i] else d.files[i]
    requires forall name :: name in disk ==> name in NamesOf(d)
    ensures OnDisk(disk, cut) <==> FindsAllBehind(d, cut)
  {
    hide SegmentName, LastIsListed, Log.NextLsn, OnDisk;
    if FindsAllBehind(d, cut) {
      NothingElseLeft(disk, d, cut);
    } else if OnDisk(disk, cut) {
      var last := |d.numbers| - 1;
      DiskIsNamed(disk, cut, NamesOf(d)[last]);
      var i :| 0 <= i < |cut.numbers| && NamesOf(cut)[i] == NamesOf(d)[last];
      NamesDiffer(d.segmentSize, d.numbers[i], d.numbers[last]);
      assert false;
    }
  }

  lemma {:induction false} NothingElseLeft(disk: map<FileName, seq<byte>>, d: Log, cut: Log)
    requires Closed(d) && CutOf(cut, d) && d.segmentSize > 0 && LOGICAL_LOG % d.segmentSize == 0
    requires forall i :: 0 <= i < |d.numbers| ==> d.numbers[i] * d.segmentSize < U64_LIMIT
    requires forall i :: 0 <= i < |d.numbers| ==> (NamesOf(d)[i] in disk <==> i < |cut.files|)
    requires forall i :: 0 <= i < |d.numbers| && NamesOf(d)[i] in disk ==>
               disk[NamesOf(d)[i]] == if i == |cut.files| - 1 then cut.files[i] else d.files[i]
    requires forall name :: name in disk ==> name in NamesOf(d)
    ensures OnDisk(disk, cut)
  {
    hide SegmentName, LastIsListed, CutOf;
    CutNumbers(d, cut);
    forall name | name in disk
      ensures exists i :: 0 <= i < |cut.numbers| && name == SegmentName(cut.segmentSize, cut.numbers[i])
    {
      NameIsKept(disk, d, cut, name);
    }
    forall i: nat | i < |cut.numbers|
      ensures SegmentName(cut.segmentSize, cut.numbers[i]) in disk && disk[SegmentName(cut.segmentSize, cut.numbers[i])] == cut.files[i]
    {
      assert NamesOf(d)[i] in disk;
      if i + 1 < |cut.files| {
        CutFileIs(d, cut, i);
      }
    }
  }

  lemma {:induction false} CutNumbers(d: Log, cut: Log)
    requires Closed(d) && CutOf(cut, d)
    ensures cut.segmentSize == d.segmentSize && |cut.files| == |cut.numbers| <= |d.numbers|
    ensures forall i :: 0 <= i < |cut.numbers| ==> cut.numbers[i] == d.numbers[i]
  {
  }

  lemma {:induction false} NameIsKept(disk: map<FileName, seq<byte>>, d: Log, cut: Log, name: FileName)
    requires d.segmentSize > 0 && forall i :: 0 <= i < |d.numbers| ==> d.numbers[i] * d.segmentSize < U64_LIMIT
    requires cut.segmentSize == d.segmentSize && |cut.numbers| <= |d.numbers|
    requires forall i :: 0 <= i < |cut.numbers| ==> cut.numbers[i] == d.numbers[i]
    requires forall i :: 0 <= i < |d.numbers| ==> (NamesOf(d)[i] in disk <==> i < |cut.numbers|)
    requires name in disk && name in NamesOf(d)
    ensures exists i :: 0 <= i < |cut.numbers| && name == SegmentName(cut.segmentSize, cut.numbers[i])
  {
    hide SegmentName;
    var i :| 0 <= i < |d.numbers| && NamesOf(d)[i] == name;
    assert name == SegmentName(cut.segmentSize, cut.numbers[i]);
  }

  lemma {:induction false} CutFileIs(d: Log, cut: Log, i: nat)
    requires CutOf(cut, d) && i + 1 < |cut.files|
    ensures cut.files[i] == d.files[i]
  {
    assert cut.files[..|cut.files| - 1][i] == d.files[..|cut.files| - 1][i];
  }
}
