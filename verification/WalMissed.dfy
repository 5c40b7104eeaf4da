/**
 * A restart whose listing misses the active file, because that fails its test: what is read of the files before it, and
 * what is reported.
 */
module WalMissed {
  import opened Bytes
  import opened Options
  import opened WalRecord
  import opened WalScan
  import opened WalLayout
  import opened WalLog
  import opened WalReplay
  import opened WalTruncate
  import opened Wal
  import opened MemTableFiles
  import opened WalRepair
  import opened WalCrash

  /** The first `k` files of a log, and behind them one with any content: the active one, cut, damaged or not. */
  function Behind(l: Log, k: nat, f: seq<byte>): Log
    requires k < |l.files| == |l.numbers|
  {
    l.(numbers := l.numbers[..k + 1], files := l.files[..k] + [f])
  }

  /** How many entries have their records end in the first `k` files. */
  ghost function FrontCount(l: Log, k: nat): nat {
    if k <= |l.pieces| then |Flat(l.pieces[..k])| else 0
  }

  /** The entries of the first `k` files from the given one on; an error only if they end with the header of a split record. */
  ghost predicate FrontReads(l: Log, k: nat, from: nat, r: ScanResult) {
    && 0 < k < |l.pieces| && |l.numbers| == |l.pieces| && l.segmentSize > 0 && l.numbers[k - 1] * l.segmentSize < U64_LIMIT
    && from <= FrontCount(l, k) <= |l.entries| && r.entries == l.entries[from..FrontCount(l, k)]
    && r.outcome == if l.pieces[k].split
                    then Corrupted(SegmentName(l.segmentSize, l.numbers[k - 1]), EndOf(Cut(l, k, 0)))
                    else Complete
  }

  /**
   * The files before the active one: exactly the entries whose records end in them. Nothing is reported unless the first record
   * of the active file begins in the file before it.
   */
  lemma {:induction false} FrontScan(crc: Checksum, l: Log, k: nat, f: seq<byte>, lsn: nat, from: nat, a: nat)
    requires l.Inv(crc) && 0 < k < |l.files| && RestartsFrom(l, lsn, from) && FirstCovering(l, lsn, a) && a < k
    requires l.segmentSize > 0 && |l.numbers| == |l.files| == |l.pieces|
    requires forall i :: 0 <= i <= k ==> l.numbers[i] * l.segmentSize < U64_LIMIT
    ensures forall i :: 0 <= i < |Behind(l, k, f).numbers| ==> Behind(l, k, f).numbers[i] * l.segmentSize < U64_LIMIT
    ensures FrontReads(l, k, from, Scan(crc, AllFiles(Behind(l, k, f))[a..k], lsn % l.segmentSize, None))
  {
    hide FileOk, PieceOk, AllGood, Flat, GoodPrefix, Log.Inv, Closed, Stream, Whole, Lead, Before, Scan, SegmentName,
         TornOutcome, RestartsFrom, FirstCovering, Layout, NamesOf, AllFiles, TornDisk, WholeIn, TornBytes, Cut, CanCut, EndOf;
    var n := |l.files[k - 1]|;
    InvHasShape(crc, l);
    LayoutIsOk(l.segmentSize, l.files, l.pieces);
    ClosedFileIsWhole(l, k - 1);
    var b := StartOfRestart(crc, l, lsn, from, a);
    FrontCounts(crc, l, k, a, b);
    FrontFiles(l, k, f);
    CoveringInFront(l, k - 1, n, lsn, a);
    TornScan(crc, l, k - 1, n, lsn, from, a);
    FrontOutcome(crc, l, k);
    SliceOfTake(l.entries, FrontCount(l, k), from);
  }

  lemma {:induction false} FrontOutcome(crc: Checksum, l: Log, k: nat)
    requires l.Inv(crc) && 0 < k < |l.files| && |l.numbers| == |l.files| == |l.pieces| && PieceOk(l.pieces[k - 1])
    requires l.segmentSize > 0 && l.numbers[k - 1] * l.segmentSize < U64_LIMIT
    ensures TornOutcome(LogFile(SegmentName(l.segmentSize, l.numbers[k - 1]), l.files[k - 1]), l.pieces[k - 1], |l.files[k - 1]|) ==
            if l.pieces[k].split then Corrupted(SegmentName(l.segmentSize, l.numbers[k - 1]), EndOf(Cut(l, k, 0)))
            else Complete
  {
    hide FileOk, PieceOk, Log.Inv, Closed, Stream, Whole, Lead, Before, SegmentName, TornOutcome, Layout, TornDisk, WholeIn,
         TornBytes, Cut, CanCut, EndOf, CutOf, CutPlace;
    var n := |l.files[k - 1]|;
    InvHasShape(crc, l);
    ClosedFileIsWhole(l, k - 1);
    TornOutcomeMeans(LogFile(SegmentName(l.segmentSize, l.numbers[k - 1]), l.files[k - 1]), l.pieces[k - 1], n);
    WholeHoldsFirst(l.pieces[k - 1], n);
    if l.pieces[k].split {
      TornCut(crc, l, k - 1, n);
    }
  }

  lemma {:induction false} WholeHoldsFirst(p: Piece, n: nat)
    requires PieceOk(p) && WholeIn(p, n) == |p.recs|
    ensures !(p.split && |Lead(p)| + n < |p.recs[0]|)
  {
    hide IsFrame, Lead;
  }

  /** The log up to the split record, if there is one. */
  lemma {:induction false} FrontCut(crc: Checksum, l: Log, k: nat, f: seq<byte>)
    requires l.Inv(crc) && 0 < k < |l.files| && |l.numbers| == |l.files| == |l.pieces| && l.pieces[k].split
    requires |f| <= l.segmentSize
    ensures var cut := Cut(l, k, 0);
            && cut.Inv(crc) && cut.segmentSize == l.segmentSize && |cut.files| == |cut.numbers| == k
            && cut.numbers[k - 1] == l.numbers[k - 1] && cut.entries == l.entries[..FrontCount(l, k)]
            && CutOf(cut, Behind(l, k, f))
  {
    hide FileOk, PieceOk, Log.Inv, Closed, Stream, Whole, Lead, Layout, TornDisk, WholeIn, TornBytes, Cut, CanCut, EndOf, CutOf,
         CutPlace, AllGood, GoodPrefix, Flat;
    var n := |l.files[k - 1]|;
    InvHasShape(crc, l);
    SplitHasRecord(l, k);
    ClosedFileIsWhole(l, k - 1);
    WholeHoldsFirst(l.pieces[k - 1], n);
    TornCut(crc, l, k - 1, n);
    CutInv(crc, l, k, 0);
    FrontCutOf(l, k, f, Cut(l, k, 0));
  }

  lemma {:induction false} SplitHasRecord(l: Log, k: nat)
    requires Layout(l.segmentSize, l.files, l.pieces) && k < |l.pieces| && l.pieces[k].split
    ensures |l.pieces[k].recs| > 0
  {
    hide IsFrame, FileOk;
  }

  lemma {:induction false} FrontCutOf(l: Log, k: nat, f: seq<byte>, cut: Log)
    requires 0 < k < |l.files| == |l.numbers| && CutOf(cut, TornDisk(l, k - 1, |l.files[k - 1]|)) && |cut.files| == k
    ensures CutOf(cut, Behind(l, k, f)) && |cut.numbers| == k && cut.numbers[k - 1] == l.numbers[k - 1]
  {
    var d, b := TornDisk(l, k - 1, |l.files[k - 1]|), Behind(l, k, f);
    assert d.files[..k - 1] == b.files[..k - 1] && d.files[k - 1] == b.files[k - 1];
    assert b.numbers[..k] == d.numbers[..k];
  }

  lemma {:induction false} BehindIs(l: Log, k: nat, f: seq<byte>)
    requires k < |l.files| == |l.numbers|
    ensures
      var d := Behind(l, k, f);
      && d.segmentSize == l.segmentSize && |d.numbers| == |d.files| == k + 1 && d.files[k] == f
      && (forall i :: 0 <= i <= k ==> d.numbers[i] == l.numbers[i]) && (forall i :: 0 <= i < k ==> d.files[i] == l.files[i])
  {
  }

  lemma {:induction false} BehindClosed(l: Log, k: nat, f: seq<byte>)
    requires Closed(l) && k < |l.files| && |f| <= l.segmentSize
    ensures |l.numbers| == |l.files| && Closed(Behind(l, k, f))
  {
  }

  lemma {:induction false} SliceOfTake<T>(s: seq<T>, n: nat, from: nat)
    requires from <= n <= |s|
    ensures s[..n][from..] == s[from..n]
  {
  }

  /** A closed file holds all records that end in it, and behind them a header exactly if the next record is split. */
  lemma {:induction false} ClosedFileIsWhole(l: Log, k: nat)
    requires Layout(l.segmentSize, l.files, l.pieces) && k + 1 < |l.files|
    ensures |l.files| == |l.pieces| && PieceOk(l.pieces[k])
    ensures WholeIn(l.pieces[k], |l.files[k]|) == |l.pieces[k].recs|
    ensures Before(l.pieces, k, |l.pieces[k].recs|) == Flat(l.pieces[..k + 1])
    ensures TornBytes(l.pieces[k], l.files[k], |l.files[k]|) >= HEADER_SIZE <==> l.pieces[k + 1].split
  {
    hide IsFrame, Stream, Whole, Flat, FileOk, Lead, WholeIn, TornBytes;
    LayoutIsOk(l.segmentSize, l.files, l.pieces);
    assert Next(l.pieces, k) == Some(l.pieces[k + 1]);
    ClosedFileTail(l.segmentSize, l.files[k], l.pieces[k], l.pieces[k + 1]);
    assert l.pieces[k].recs[..|l.pieces[k].recs|] == l.pieces[k].recs;
    FlatSnoc(l.pieces, k + 1);
  }

  lemma {:induction false} ClosedFileTail(segmentSize: nat, file: seq<byte>, p: Piece, q: Piece)
    requires PieceOk(p) && PieceOk(q) && FileOk(segmentSize, file, p, Some(q))
    ensures WholeIn(p, |file|) == |p.recs|
    ensures TornBytes(p, file, |file|) >= HEADER_SIZE <==> q.split
  {
    hide IsFrame, Stream, Whole;
    AllFit(p.recs, |Lead(p)| + |file|);
    assert p.recs[..|p.recs|] == p.recs;
  }

  lemma {:induction false} AllFit(recs: seq<Raw>, n: nat)
    requires |Stream(recs)| <= n
    ensures Whole(recs, n) == |recs|
  {
    if recs != [] {
      AllFit(recs[1..], n - |recs[0]|);
    }
  }

  lemma {:induction false} FrontCounts(crc: Checksum, l: Log, k: nat, a: nat, b: nat)
    requires l.Inv(crc) && k < |l.pieces| && a < k && b <= |l.pieces[a].recs|
    ensures |Flat(l.pieces[..a])| + b <= FrontCount(l, k) <= |l.entries|
  {
    hide FileOk, PieceOk, AllGood, Flat, GoodPrefix, Log.Placed, Log.Increasing;
    GoodPrefixWhole(crc, Flat(l.pieces));
    FlatSplit(l.pieces, k);
    FlatGrows(l.pieces, a, k);
  }

  lemma {:induction false} FrontFiles(l: Log, k: nat, f: seq<byte>)
    requires l.segmentSize > 0 && 0 < k < |l.files| == |l.numbers|
    requires forall i :: 0 <= i <= k ==> l.numbers[i] * l.segmentSize < U64_LIMIT
    ensures
      var d, b := TornDisk(l, k - 1, |l.files[k - 1]|), Behind(l, k, f);
      && |d.numbers| == |d.files| && |b.numbers| == |b.files| && d.segmentSize == b.segmentSize == l.segmentSize
      && (forall i :: 0 <= i < |d.numbers| ==> d.numbers[i] * d.segmentSize < U64_LIMIT)
      && (forall i :: 0 <= i < |b.numbers| ==> b.numbers[i] * b.segmentSize < U64_LIMIT)
      && forall a: nat :: a <= k ==> AllFiles(d)[a..] == AllFiles(b)[a..k]
  {
    hide SegmentName;
    var d, b := TornDisk(l, k - 1, |l.files[k - 1]|), Behind(l, k, f);
    forall i: nat | i < k ensures AllFiles(d)[i] == AllFiles(b)[i] {
      assert d.numbers[i] == b.numbers[i] && d.files[i] == b.files[i];
    }
    assert AllFiles(d) == AllFiles(b)[..k];
  }

  lemma {:induction false} CoveringInFront(l: Log, k: nat, n: nat, lsn: nat, a: nat)
    requires k < |l.files| == |l.numbers| && n <= |l.files[k]| && FirstCovering(l, lsn, a) && a <= k
    ensures FirstCovering(TornDisk(l, k, n), lsn, a)
  {
  }

  lemma {:induction false} CoveringBehind(l: Log, k: nat, f: seq<byte>, lsn: nat, a: nat)
    requires k < |l.files| == |l.numbers| && a <= k
    ensures FirstCovering(Behind(l, k, f), lsn, a) <==> FirstCovering(l, lsn, a)
  {
  }
}
