/**
 * The two ways a log is broken: some record is damaged, or the log ends at some byte of some file. For each, what a
 * restart from any surviving entry reads, and that the place it reports is where the records before it end.
 */
module WalCrash {
  import opened Bytes
  import opened Options
  import opened WalRecord
  import opened WalScan
  import opened WalLayout
  import opened WalLog
  import opened WalReplay
  import opened WalTruncate
  import opened WalDamage
  import opened Wal
  import opened MemTableFiles
  import opened WalRepair

  // ---------- the records before a place ----------

  ghost predicate CanCut(l: Log, i: nat, j: nat) {
    && |l.files| == |l.pieces| == |l.numbers| && i < |l.pieces| && j < |l.pieces[i].recs|
    && (forall k :: 0 <= k < |l.pieces| ==> PieceOk(l.pieces[k]))
    && (l.pieces[i].split && j == 0 ==> i > 0)
    && |Before(l.pieces, i, j)| <= |l.entries|
  }

  /** The log of the records before record `j` of piece `i`. */
  ghost function Cut(l: Log, i: nat, j: nat): Log {
    if CanCut(l, i, j) then TruncatedLog(l, i, j) else l
  }

  /** How long its last file is. */
  function EndOf(l: Log): nat {
    if l.files == [] then 0 else |l.files[|l.files| - 1]|
  }

  lemma {:induction false} CutInv(crc: Checksum, l: Log, i: nat, j: nat)
    requires l.Inv(crc) && i < |l.pieces| && j < |l.pieces[i].recs|
    ensures CanCut(l, i, j) && Cut(l, i, j).Inv(crc) && Closed(Cut(l, i, j))
    ensures Cut(l, i, j).segmentSize == l.segmentSize
    ensures |Before(l.pieces, i, j)| < |l.entries| && AllGood(crc, Before(l.pieces, i, j))
    ensures Cut(l, i, j).entries == l.entries[..|Before(l.pieces, i, j)|] == GoodPrefix(crc, Before(l.pieces, i, j))
  {
    hide FileOk, PieceOk, AllGood, Flat, Stream, Lead, GoodPrefix, TruncatedFiles, TruncatedPieces, Before, Log.Placed,
         Log.Increasing, Closed;
    InvHasShape(crc, l);
    CanTruncate(crc, l, i, j);
    TruncateInv(crc, l, i, j);
    InvIsClosed(crc, Cut(l, i, j));
  }

  lemma {:induction false} InvHasShape(crc: Checksum, l: Log)
    requires l.Inv(crc)
    ensures l.Shape(crc) && |l.numbers| == |l.files| == |l.pieces| > 0 && l.segmentSize > 0
    ensures Layout(l.segmentSize, l.files, l.pieces) && !l.pieces[0].split
  {
    hide FileOk, PieceOk, AllGood, Flat, GoodPrefix, Log.Placed, Log.Increasing;
  }

  lemma {:induction false} LayoutIsOk(segmentSize: nat, files: seq<seq<byte>>, pieces: seq<Piece>)
    requires Layout(segmentSize, files, pieces)
    ensures |files| == |pieces| > 0 && forall k :: 0 <= k < |pieces| ==> PieceOk(pieces[k])
  {
    hide FileOk, PieceOk;
  }

  /** A place behind records lies in its file. */
  lemma {:induction false} PlaceWithin(segmentSize: nat, files: seq<seq<byte>>, pieces: seq<Piece>, p: nat, q: nat)
    requires Layout(segmentSize, files, pieces) && p < |pieces| && q <= |pieces[p].recs| && (pieces[p].split ==> q > 0)
    ensures InFile(pieces[p], |Stream(pieces[p].recs[..q])|) <= |files[p]|
  {
    hide IsFrame, Stream;
    assert FileOk(segmentSize, files[p], pieces[p], Next(pieces, p));
    StreamTake(pieces[p].recs, q);
    if pieces[p].split {
      StreamAtLeast(pieces[p].recs, q);
    }
  }

  /** The files of a cut log: whole ones, and a part of the next. */
  lemma {:induction false} TruncatedFilesAre(segmentSize: nat, files: seq<seq<byte>>, pieces: seq<Piece>, i: nat,
                                             j: nat)
    requires Layout(segmentSize, files, pieces) && !pieces[0].split && i < |pieces| && j < |pieces[i].recs|
    ensures
      var (p, q) := CutPlace(pieces, i, j);
      && p < |pieces| && q <= |pieces[p].recs| && (pieces[p].split ==> q > 0)
      && var at := InFile(pieces[p], |Stream(pieces[p].recs[..q])|);
         at <= |files[p]| && TruncatedFiles(files, pieces, i, j) == files[..p] + [files[p][..at]]
  {
    hide Stream, FileOk, InFile, IsFrame;
    var (p, q) := CutPlace(pieces, i, j);
    assert PieceOk(pieces[p]);
    PlaceWithin(segmentSize, files, pieces, p, q);
    assert pieces[p].recs[..|pieces[p].recs|] == pieces[p].recs;
  }

  /** A layout whose segments are numbered upwards has full files in front. */
  lemma {:induction false} LayoutIsClosed(d: Log)
    requires Layout(d.segmentSize, d.files, d.pieces) && |d.numbers| == |d.files|
    requires forall i, j :: 0 <= i < j < |d.numbers| ==> d.numbers[i] < d.numbers[j]
    ensures Closed(d)
  {
    hide Stream, Lead;
    forall i | 0 <= i < |d.files| ensures |d.files[i]| <= d.segmentSize && (i + 1 < |d.files| ==> |d.files[i]| == d.segmentSize) {
      assert FileOk(d.segmentSize, d.files[i], d.pieces[i], Next(d.pieces, i));
    }
  }

  // ---------- damage ----------

  /** `d` is the log `l` after damage from record `j` of piece `i` on, whose checksum or content is bad and length intact. */
  ghost predicate DamagedAt(crc: Checksum, l: Log, d: Log, i: nat, j: nat) {
    && l.Inv(crc)
    && d.segmentSize == l.segmentSize && d.numbers == l.numbers && Layout(d.segmentSize, d.files, d.pieces)
    && i < |l.pieces| == |d.pieces| && j < |l.pieces[i].recs| && j < |d.pieces[i].recs|
    && d.pieces[i].split == l.pieces[i].split
    && TruncatedPieces(d.pieces, i, j) == TruncatedPieces(l.pieces, i, j)
    && TruncatedFiles(d.files, d.pieces, i, j) == TruncatedFiles(l.files, l.pieces, i, j)
    && Check(crc, d.pieces[i].recs[j]).Bad?
  }

  lemma {:induction false} DamagedFacts(crc: Checksum, l: Log, d: Log, i: nat, j: nat)
    requires DamagedAt(crc, l, d, i, j)
    ensures l.Inv(crc) && d.segmentSize == l.segmentSize && d.numbers == l.numbers
    ensures |d.files| == |d.numbers| == |d.pieces| == |l.pieces| == |l.files| > 0
    ensures Layout(d.segmentSize, d.files, d.pieces) && Layout(l.segmentSize, l.files, l.pieces)
    ensures i < |l.pieces| && j < |l.pieces[i].recs| && j < |d.pieces[i].recs| && d.pieces[i].split == l.pieces[i].split
    ensures !l.pieces[0].split && !d.pieces[0].split && Check(crc, d.pieces[i].recs[j]).Bad?
    ensures TruncatedPieces(d.pieces, i, j) == TruncatedPieces(l.pieces, i, j)
    ensures Closed(d) && (l.pieces[i].split && j == 0 ==> i > 0)
    ensures TruncatedFiles(d.files, d.pieces, i, j) == TruncatedFiles(l.files, l.pieces, i, j)
  {
    hide FileOk, PieceOk, AllGood, Flat, GoodPrefix, Log.Placed, Log.Increasing, Closed, Check, TruncatedFiles;
    InvHasShape(crc, l);
    LayoutIsClosed(d);
    TruncatedFirst(d.pieces, l.pieces, i, j);
  }

  lemma {:induction false} TruncatedFirst(a: seq<Piece>, b: seq<Piece>, i: nat, j: nat)
    requires i < |a| && i < |b| && j <= |a[i].recs| && j <= |b[i].recs| && a[i].split == b[i].split && !b[0].split
    requires TruncatedPieces(a, i, j) == TruncatedPieces(b, i, j)
    ensures !a[0].split
  {
    if i > 0 {
      assert TruncatedPieces(a, i, j)[0] == a[0] && TruncatedPieces(b, i, j)[0] == b[0];
    }
  }

  /** The damaged log begins with the log of the records before the damage. */
  lemma {:induction false} DamagedCut(crc: Checksum, l: Log, d: Log, i: nat, j: nat)
    requires DamagedAt(crc, l, d, i, j)
    ensures CanCut(l, i, j) && CutOf(Cut(l, i, j), d) && Closed(d)
    ensures PieceOk(d.pieces[i])
    ensures
      var (p, q) := CutPlace(d.pieces, i, j);
      && |Cut(l, i, j).files| == p + 1 && q <= |d.pieces[p].recs| && PieceOk(d.pieces[p])
      && EndOf(Cut(l, i, j)) == InFile(d.pieces[p], |Stream(d.pieces[p].recs[..q])|)
  {
    hide FileOk, IsFrame, AllGood, Flat, GoodPrefix, Log.Inv, Closed, Check, TruncatedFiles, Before, DamagedAt,
         Stream, InFile;
    DamagedFacts(crc, l, d, i, j);
    CutInv(crc, l, i, j);
    TruncatedFilesAre(d.segmentSize, d.files, d.pieces, i, j);
    var (p, q) := CutPlace(d.pieces, i, j);
    assert PieceOk(d.pieces[p]);
    var cut := Cut(l, i, j);
    var at := InFile(d.pieces[p], |Stream(d.pieces[p].recs[..q])|);
    assert cut.files == d.files[..p] + [d.files[p][..at]];
    assert cut.numbers == d.numbers[..p + 1];
  }

  /** A place before the cut looks the same in both logs. */
  lemma {:induction false} SamePlace(pieces: seq<Piece>, i: nat, j: nat, a: nat, b: nat)
    requires forall k :: 0 <= k < |pieces| ==> PieceOk(pieces[k])
    requires i < |pieces| && j < |pieces[i].recs| && Starts(pieces, a, b, i, j) && (pieces[i].split && j == 0 ==> i > 0)
    requires PieceOk(Piece(pieces[i].split && j > 0, pieces[i].recs[..j]))
    ensures
      var ps := TruncatedPieces(pieces, i, j);
      && a < |ps| && b <= |ps[a].recs| && PieceOk(ps[a])
      && InFile(ps[a], |Stream(ps[a].recs[..b])|) == InFile(pieces[a], |Stream(pieces[a].recs[..b])|)
      && (b < |ps[a].recs| || b == |ps[a].recs|)
      && Before(ps, a, b) == Before(pieces, a, b)
  {
    hide IsFrame, Stream, Flat;
    var ps := TruncatedPieces(pieces, i, j);
    assert ps[..a] == pieces[..a];
    if a == i {
      assert ps[a].recs[..b] == pieces[a].recs[..b];
      assert ps[a] == Piece(pieces[i].split, pieces[i].recs[..j]);
    } else {
      assert ps[a] == pieces[a];
    }
  }

  lemma {:induction false} FrontIsOk(p: Piece, j: nat)
    requires PieceOk(p) && j <= |p.recs|
    ensures PieceOk(Piece(p.split && j > 0, p.recs[..j]))
  {
    hide IsFrame;
  }

  /** Where the restart begins, in the damaged log. */
  lemma {:induction false} DamagedStart(crc: Checksum, l: Log, d: Log, i: nat, j: nat, lsn: nat, from: nat, a: nat)
    returns (b: nat)
    requires DamagedAt(crc, l, d, i, j) && RestartsFrom(l, lsn, from) && FirstCovering(d, lsn, a)
    requires from <= |Cut(l, i, j).entries|
    ensures Starts(d.pieces, a, b, i, j) && PieceOk(d.pieces[a]) && |Before(d.pieces, a, b)| == from
    ensures InFile(d.pieces[a], |Stream(d.pieces[a].recs[..b])|) == lsn % l.segmentSize
    ensures d.segmentSize == l.segmentSize > 0 && Before(d.pieces, i, j) == Before(l.pieces, i, j)
  {
    hide FileOk, IsFrame, AllGood, Flat, GoodPrefix, Log.Inv, Closed, Check, TruncatedFiles, DamagedAt, Stream, InFile,
         TruncatedPieces, Lead, Layout, Starts, CutPlace, Before;
    DamagedFacts(crc, l, d, i, j);
    CutInv(crc, l, i, j);
    LayoutIsOk(l.segmentSize, l.files, l.pieces);
    LayoutIsOk(d.segmentSize, d.files, d.pieces);
    b := StartOfRestart(crc, l, lsn, from, a);
    var (p, q) := CutPlace(l.pieces, i, j);
    CutPlaceMeans(l.pieces, i, j);
    StartBefore(l.pieces, a, b, p, q);
    BeforeLength(l.pieces, a, b);
    BeforeLength(l.pieces, i, j);
    StartsHere(l.pieces, i, j, a, b);
    FrontIsOk(l.pieces[i], j);
    FrontIsOk(d.pieces[i], j);
    SamePlace(l.pieces, i, j, a, b);
    StartsThere(l.pieces, d.pieces, i, j, a, b);
    SamePlace(d.pieces, i, j, a, b);
    TruncateFlat(l.pieces, i, j);
    TruncateFlat(d.pieces, i, j);
  }

  lemma {:induction false} BeforeLength(pieces: seq<Piece>, i: nat, j: nat)
    requires i < |pieces| && j <= |pieces[i].recs|
    ensures |Before(pieces, i, j)| == |Flat(pieces[..i])| + j
  {
    hide Flat;
  }

  lemma {:induction false} StartsHere(pieces: seq<Piece>, i: nat, j: nat, a: nat, b: nat)
    requires i < |pieces| && j < |pieces[i].recs| && (pieces[i].split && j == 0 ==> i > 0)
    requires a < |pieces| && b <= |pieces[a].recs| && (pieces[a].split ==> b > 0)
    requires a < CutPlace(pieces, i, j).0 || (a == CutPlace(pieces, i, j).0 && b <= CutPlace(pieces, i, j).1)
    ensures Starts(pieces, a, b, i, j)
  {
  }

  lemma {:induction false} StartsThere(pieces: seq<Piece>, pieces': seq<Piece>, i: nat, j: nat, a: nat, b: nat)
    requires i < |pieces| && i < |pieces'| && j < |pieces[i].recs| && j < |pieces'[i].recs| && pieces[i].split == pieces'[i].split
    requires TruncatedPieces(pieces, i, j) == TruncatedPieces(pieces', i, j) && Starts(pieces, a, b, i, j)
    ensures Starts(pieces', a, b, i, j)
  {
    var ps := TruncatedPieces(pieces, i, j);
    if a < i {
      assert ps[a] == pieces[a] && ps[a] == pieces'[a];
    }
  }

  /** The names of a log's files are what a recovery of them reports. */
  lemma {:induction false} PositionIs(d: Log, i: nat, j: nat)
    requires Layout(d.segmentSize, d.files, d.pieces) && !d.pieces[0].split && i < |d.pieces| && j < |d.pieces[i].recs|
    requires d.segmentSize > 0 && |d.numbers| == |d.files| && forall k :: 0 <= k < |d.numbers| ==> d.numbers[k] * d.segmentSize < U64_LIMIT
    ensures
      var (p, q) := CutPlace(d.pieces, i, j);
      && p < |d.pieces| && q <= |d.pieces[p].recs| && PieceOk(d.pieces[p])
      && Position(AllFiles(d), d.pieces, i, j) == (NamesOf(d)[p], InFile(d.pieces[p], |Stream(d.pieces[p].recs[..q])|))
  {
    hide FileOk, PieceOk, Stream, InFile, SegmentName, Layout, Position;
    LayoutIsOk(d.segmentSize, d.files, d.pieces);
    PlaceIs(AllFiles(d), d.pieces, i, j);
  }

  lemma {:induction false} PlaceIs(files: seq<LogFile>, pieces: seq<Piece>, i: nat, j: nat)
    requires |files| == |pieces| && i < |pieces| && j <= |pieces[i].recs| && !pieces[0].split
    requires forall k :: 0 <= k < |pieces| ==> PieceOk(pieces[k])
    ensures
      var (p, q) := CutPlace(pieces, i, j);
      && p < |pieces| && q <= |pieces[p].recs|
      && Position(files, pieces, i, j) == (files[p].path, InFile(pieces[p], |Stream(pieces[p].recs[..q])|))
  {
    hide PieceOk, Stream, InFile;
    var (p, q) := CutPlace(pieces, i, j);
    assert pieces[p].recs[..|pieces[p].recs|] == pieces[p].recs;
  }

  /**
   * The restart on a damaged log reads exactly the entries before the damage, from the given one on, and reports the
   * damage where those entries end, whichever files it lists as long as the damaged one is among them.
   */
  lemma {:induction false} DamagedScan(crc: Checksum, l: Log, d: Log, i: nat, j: nat, lsn: nat, from: nat, a: nat,
                                       to: nat)
    requires DamagedAt(crc, l, d, i, j) && RestartsFrom(l, lsn, from) && FirstCovering(d, lsn, a)
    requires from <= |Cut(l, i, j).entries| && i < to <= |d.files|
    requires forall k :: 0 <= k < |d.numbers| ==> d.numbers[k] * d.segmentSize < U64_LIMIT
    ensures a <= i && d.segmentSize > 0 && |d.numbers| == |d.files| && 0 < |Cut(l, i, j).files| <= |d.files|
    ensures Scan(crc, AllFiles(d)[a..to], lsn % d.segmentSize, None) ==
            ScanResult(Cut(l, i, j).entries[from..], Corrupted(NamesOf(d)[|Cut(l, i, j).files| - 1], EndOf(Cut(l, i, j))))
  {
    hide FileOk, IsFrame, AllGood, Flat, GoodPrefix, Log.Inv, Closed, Check, TruncatedFiles, DamagedAt, Stream, InFile,
         TruncatedPieces, Lead, Before, Scan, SegmentName, CutOf, Cut, CanCut, EndOf, Position, Contents, CutPlace,
         RestartsFrom,
         FirstCovering;
    DamagedFacts(crc, l, d, i, j);
    CutInv(crc, l, i, j);
    DamagedCut(crc, l, d, i, j);
    CutOfFacts(Cut(l, i, j), d);
    var b := DamagedStart(crc, l, d, i, j, lsn, from, a);
    AllFilesContain(d);
    RecoverDamagedFrom(crc, d.segmentSize, AllFiles(d), d.pieces, a, b, i, j, to);
    PositionIs(d, i, j);
  }

  // ---------- torn logs ----------

  /** The log as a crash leaves it: file `k` holds its first `n` bytes, and later files do not exist. */
  function TornDisk(l: Log, k: nat, n: nat): Log
    requires k < |l.files| == |l.numbers| && n <= |l.files[k]|
  {
    l.(numbers := l.numbers[..k + 1], files := l.files[..k] + [l.files[k][..n]])
  }

  /** How many records of the cut file are whole. */
  function WholeIn(p: Piece, n: nat): (m: nat)
    requires PieceOk(p)
    ensures m <= |p.recs|
  {
    Whole(p.recs, |Lead(p)| + n)
  }

  /** The log ends at byte `n` of file `k`. */
  ghost predicate TornAt(crc: Checksum, l: Log, k: nat, n: nat) {
    l.Inv(crc) && k < |l.files| && n <= |l.files[k]|
  }

  /** The torn record, as piece and index: its header may be all that is in the cut file. */
  ghost function TornRecordAt(l: Log, k: nat, n: nat): (nat, nat)
    requires k < |l.pieces| && PieceOk(l.pieces[k])
  {
    if WholeIn(l.pieces[k], n) < |l.pieces[k].recs| then (k, WholeIn(l.pieces[k], n)) else (k + 1, 0)
  }

  lemma {:induction false} TornFacts(crc: Checksum, l: Log, k: nat, n: nat)
    requires TornAt(crc, l, k, n)
    ensures l.segmentSize > 0 && |l.numbers| == |l.files| == |l.pieces| && k < |l.pieces| && PieceOk(l.pieces[k])
    ensures Layout(l.segmentSize, l.files, l.pieces) && !l.pieces[0].split && Closed(l)
    ensures FileOk(l.segmentSize, l.files[k], l.pieces[k], Next(l.pieces, k))
  {
    hide FileOk, PieceOk, AllGood, Flat, GoodPrefix, Log.Inv, Closed, Log.Shape;
    InvHasShape(crc, l);
    InvIsClosed(crc, l);
  }

  lemma {:induction false} TornDiskClosed(crc: Checksum, l: Log, k: nat, n: nat)
    requires TornAt(crc, l, k, n)
    ensures |l.numbers| == |l.files| && n <= |l.files[k]| && Closed(TornDisk(l, k, n))
  {
    hide FileOk, PieceOk, Log.Inv;
    TornFacts(crc, l, k, n);
  }

  /** Thirteen torn bytes or more belong to a record that starts in the file, unless its continuation does. */
  lemma {:induction false} TornRecordExists(crc: Checksum, l: Log, k: nat, n: nat)
    requires TornAt(crc, l, k, n)
    ensures k < |l.pieces| == |l.files| && PieceOk(l.pieces[k])
    ensures TornBytes(l.pieces[k], l.files[k], n) >= HEADER_SIZE ==>
              var (i, j) := TornRecordAt(l, k, n);
              i < |l.pieces| && j < |l.pieces[i].recs| && (i == k + 1 ==> l.pieces[i].split)
  {
    hide Stream, Whole, Log.Inv, IsFrame, FileOk, Lead, TornBytes, Layout;
    TornFacts(crc, l, k, n);
    NextIsOk(l, k);
    TornInFile(l.segmentSize, l.files[k], l.pieces[k], Next(l.pieces, k), n);
  }

  lemma {:induction false} NextIsOk(l: Log, k: nat)
    requires Layout(l.segmentSize, l.files, l.pieces) && k < |l.pieces|
    ensures Next(l.pieces, k).Some? ==> PieceOk(Next(l.pieces, k).value)
    ensures Next(l.pieces, k).Some? && Next(l.pieces, k).value.split ==> k + 1 < |l.pieces| && 0 < |l.pieces[k + 1].recs|
  {
    hide IsFrame, FileOk;
  }

  lemma {:induction false} TornInFile(segmentSize: nat, file: seq<byte>, p: Piece, next: Option<Piece>, n: nat)
    requires PieceOk(p) && (next.Some? ==> PieceOk(next.value)) && FileOk(segmentSize, file, p, next) && n <= |file|
    ensures TornBytes(p, file, n) >= HEADER_SIZE && WholeIn(p, n) == |p.recs| ==> next.Some? && next.value.split
  {
    hide Stream, Whole, IsFrame;
    WholeFits(p.recs, |Lead(p)| + n);
    assert p.recs[..|p.recs|] == p.recs;
  }

  /** Where the torn record starts. */
  lemma {:induction false} TornStart(p: Piece, file: seq<byte>, n: nat)
    requires PieceOk(p) && n <= |file| && !(p.split && |Lead(p)| + n < |p.recs[0]|)
    ensures
      var m := WholeIn(p, n);
      && (p.split ==> m > 0) && TornBytes(p, file, n) <= n
      && InFile(p, |Stream(p.recs[..m])|) == n - TornBytes(p, file, n)
  {
    hide IsFrame, FromLE, Stream, Whole;
    var m := Whole(p.recs, |Lead(p)| + n);
    WholeFits(p.recs, |Lead(p)| + n);
    if m > 0 {
      StreamAtLeast(p.recs, m);
    } else {
      StreamEmpty(p.recs[..0]);
      WholeNone(p.recs, |Lead(p)| + n);
    }
  }

  lemma {:induction false} WholeNone(recs: seq<Raw>, n: nat)
    ensures Whole(recs, n) == 0 ==> recs == [] || n < |recs[0]|
  {
  }

  /** A noticed tear outside a continuation. */
  ghost predicate Reported(crc: Checksum, l: Log, k: nat, n: nat) {
    && TornAt(crc, l, k, n) && k < |l.pieces|
    && var p := l.pieces[k];
       TornBytes(p, l.files[k], n) >= HEADER_SIZE && !(p.split && |Lead(p)| + n < |p.recs[0]|)
  }

  /** The torn record's header lies behind the whole records of the cut file. */
  lemma {:induction false} TornPlaceIs(l: Log, k: nat, n: nat)
    requires k < |l.pieces| && PieceOk(l.pieces[k]) && (l.pieces[k].split ==> WholeIn(l.pieces[k], n) > 0)
    requires TornRecordAt(l, k, n).0 < |l.pieces|
    requires TornRecordAt(l, k, n).0 == k + 1 ==> l.pieces[k + 1].split
    ensures
      var (i, j) := TornRecordAt(l, k, n);
      && i <= k + 1 && j <= |l.pieces[i].recs| && (i == k + 1 ==> l.pieces[i].split && j == 0)
      && CutPlace(l.pieces, i, j) == (k, WholeIn(l.pieces[k], n))
      && Before(l.pieces, i, j) == Before(l.pieces, k, WholeIn(l.pieces[k], n))
  {
    hide WholeIn, PieceOk, Flat;
    var m := WholeIn(l.pieces[k], n);
    if m == |l.pieces[k].recs| {
      FlatSnoc(l.pieces, k + 1);
      assert l.pieces[k].recs[..m] == l.pieces[k].recs;
    }
  }

  /** The torn log begins with the log of its whole records. */
  lemma {:induction false} TornCut(crc: Checksum, l: Log, k: nat, n: nat)
    requires Reported(crc, l, k, n)
    ensures k < |l.pieces| == |l.files| && PieceOk(l.pieces[k]) && |l.numbers| == |l.files|
    ensures
      var (i, j) := TornRecordAt(l, k, n);
      && CanCut(l, i, j) && CutOf(Cut(l, i, j), TornDisk(l, k, n)) && Closed(TornDisk(l, k, n))
      && |Cut(l, i, j).files| == k + 1 && EndOf(Cut(l, i, j)) == n - TornBytes(l.pieces[k], l.files[k], n)
      && CutPlace(l.pieces, i, j) == (k, WholeIn(l.pieces[k], n))
      && Before(l.pieces, i, j) == Before(l.pieces, k, WholeIn(l.pieces[k], n))
  {
    hide FileOk, AllGood, Flat, GoodPrefix, Log.Inv, Closed, TruncatedFiles, Stream, InFile, WholeIn, TornBytes, Lead,
         PieceOk, Layout, TornDisk, CutOf, CutPlace, TornRecordAt, Before, CanCut, EndOf, Cut;
    TornFacts(crc, l, k, n);
    TornRecordExists(crc, l, k, n);
    TornDiskClosed(crc, l, k, n);
    TornStart(l.pieces[k], l.files[k], n);
    TornPlaceIs(l, k, n);
    var (i, j) := TornRecordAt(l, k, n);
    CutInv(crc, l, i, j);
    TruncatedFilesAre(l.segmentSize, l.files, l.pieces, i, j);
    TornCutFiles(l, k, n, i, j);
  }

  lemma {:induction false} TornCutFiles(l: Log, k: nat, n: nat, i: nat, j: nat)
    requires CanCut(l, i, j) && k < |l.files| && n <= |l.files[k]| && i <= k + 1 && (i == k + 1 ==> l.pieces[i].split && j == 0)
    requires CutPlace(l.pieces, i, j).0 == k
    requires TornBytes(l.pieces[k], l.files[k], n) <= n
    requires TruncatedFiles(l.files, l.pieces, i, j) == l.files[..k] + [l.files[k][..n - TornBytes(l.pieces[k], l.files[k], n)]]
    ensures CutOf(Cut(l, i, j), TornDisk(l, k, n))
    ensures |Cut(l, i, j).files| == k + 1 && EndOf(Cut(l, i, j)) == n - TornBytes(l.pieces[k], l.files[k], n)
  {
    hide TruncatedFiles, TornBytes, PieceOk, Before, TruncatedPieces;
    var cut, d := Cut(l, i, j), TornDisk(l, k, n);
    var at := n - TornBytes(l.pieces[k], l.files[k], n);
    assert cut.files[k] == l.files[k][..at];
    assert l.files[k][..n][..at] == l.files[k][..at];
    assert cut.files[..k] == l.files[..k] == d.files[..k];
    assert cut.numbers == l.numbers[..k + 1];
  }

  /** The surviving segment that covers a sequence number is the one that covered it before. */
  lemma {:induction false} CoveringInTorn(l: Log, k: nat, n: nat, lsn: nat, a: nat)
    requires k < |l.files| == |l.numbers| && n <= |l.files[k]| && FirstCovering(TornDisk(l, k, n), lsn, a) && a <= k
    ensures FirstCovering(l, lsn, a)
  {
  }

  /** The files of the log before the crash, under the names of those that are left. */
  function FilesBefore(l: Log, k: nat, n: nat): (files: seq<LogFile>)
    requires k < |l.files| == |l.numbers| && n <= |l.files[k]| && l.segmentSize > 0
    requires forall i :: 0 <= i <= k ==> l.numbers[i] * l.segmentSize < U64_LIMIT
    ensures |files| == |l.files| && forall i :: 0 <= i < |files| ==> files[i].bytes == l.files[i]
    ensures forall i :: 0 <= i <= k ==> files[i].path == SegmentName(l.segmentSize, l.numbers[i])
  {
    seq(|l.files|, i requires 0 <= i < |l.files| =>
      LogFile(if i <= k then SegmentName(l.segmentSize, l.numbers[i]) else [], l.files[i]))
  }

  /**
   * The restart on a torn log: the whole records from the given one on, and the outcome for the torn bytes, also if the
   * cut lies in an earlier file than the last of the log.
   */
  lemma {:induction false} TornScan(crc: Checksum, l: Log, k: nat, n: nat, lsn: nat, from: nat, a: nat)
    requires TornAt(crc, l, k, n) && |l.numbers| == |l.files| == |l.pieces| && PieceOk(l.pieces[k])
    requires RestartsFrom(l, lsn, from) && FirstCovering(TornDisk(l, k, n), lsn, a) && a <= k
    requires from <= |Before(l.pieces, k, WholeIn(l.pieces[k], n))| <= |l.entries|
    requires l.segmentSize > 0 && forall i :: 0 <= i <= k ==> l.numbers[i] * l.segmentSize < U64_LIMIT
    ensures forall i :: 0 <= i < |TornDisk(l, k, n).numbers| ==> TornDisk(l, k, n).numbers[i] * l.segmentSize < U64_LIMIT
    ensures Scan(crc, AllFiles(TornDisk(l, k, n))[a..], lsn % l.segmentSize, None) ==
            ScanResult(l.entries[..|Before(l.pieces, k, WholeIn(l.pieces[k], n))|][from..],
                       TornOutcome(LogFile(SegmentName(l.segmentSize, l.numbers[k]), l.files[k]), l.pieces[k], n))
  {
    hide FileOk, IsFrame, AllGood, Flat, GoodPrefix, Log.Inv, Closed, Stream, InFile, Whole, Lead, Before, Scan,
         SegmentName,
         TornOutcome, Contents, RestartsFrom, FirstCovering, Layout, Starts, NamesOf, AllFiles, TornDisk, FilesBefore;
    TornFacts(crc, l, k, n);
    CoveringInTorn(l, k, n, lsn, a);
    var b := StartOfRestart(crc, l, lsn, from, a);
    StartsBeforeTear(l.pieces, a, b, k, WholeIn(l.pieces[k], n));
    WholeAreEntries(crc, l, k, WholeIn(l.pieces[k], n));
    TornFiles(l, k, n);
    RecoverTornFrom(crc, l.segmentSize, FilesBefore(l, k, n), l.pieces, a, b, k, n);
  }

  lemma {:induction false} StartsBeforeTear(pieces: seq<Piece>, a: nat, b: nat, k: nat, m: nat)
    requires a <= k < |pieces| && b <= |pieces[a].recs| && (pieces[a].split ==> b > 0) && m <= |pieces[k].recs|
    requires |Flat(pieces[..a])| + b <= |Before(pieces, k, m)|
    ensures Starts(pieces, a, b, k, m) && |Before(pieces, a, b)| == |Flat(pieces[..a])| + b
  {
    hide Flat, Before;
    BeforeLength(pieces, k, m);
    BeforeLength(pieces, a, b);
  }

  lemma {:induction false} WholeAreEntries(crc: Checksum, l: Log, k: nat, m: nat)
    requires l.Inv(crc) && k < |l.pieces| && m <= |l.pieces[k].recs|
    ensures AllGood(crc, Before(l.pieces, k, m)) && |Before(l.pieces, k, m)| <= |l.entries|
    ensures l.entries[..|Before(l.pieces, k, m)|] == GoodPrefix(crc, Before(l.pieces, k, m))
  {
    hide FileOk, PieceOk, AllGood, Flat, GoodPrefix, Log.Placed, Log.Increasing, Before;
    FlatFrom(l.pieces, k, m);
    var front, rest := Before(l.pieces, k, m), l.pieces[k].recs[m..] + Flat(l.pieces[k + 1..]);
    AllGoodParts(crc, front, rest);
    GoodPrefixConcat(crc, front, rest);
    GoodPrefixWhole(crc, front);
  }

  lemma {:induction false} TornFiles(l: Log, k: nat, n: nat)
    requires k < |l.files| == |l.numbers| && n <= |l.files[k]|
    requires l.segmentSize > 0 && forall i :: 0 <= i <= k ==> l.numbers[i] * l.segmentSize < U64_LIMIT
    ensures forall i :: 0 <= i < |TornDisk(l, k, n).numbers| ==> TornDisk(l, k, n).numbers[i] * l.segmentSize < U64_LIMIT
    ensures TornDisk(l, k, n).segmentSize == l.segmentSize && |TornDisk(l, k, n).numbers| == |TornDisk(l, k, n).files|
    ensures AllFiles(TornDisk(l, k, n)) == TornLog(FilesBefore(l, k, n), k, n)
    ensures Contents(FilesBefore(l, k, n)) == l.files && FilesBefore(l, k, n)[k].path == SegmentName(l.segmentSize, l.numbers[k])
  {
    hide SegmentName;
  }
}
