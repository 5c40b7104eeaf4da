/** Short runs of the log, from its first record on, on which naming, listing and repair go wrong. */
module WalExamples {
  import opened Bytes
  import opened Options
  import opened WalRecord
  import opened WalScan
  import opened WalNames
  import opened WalLayout
  import opened WalAppend
  import opened WalLog
  import opened WalReplay
  import opened Wal
  import opened MemTableFiles
  import opened WalRepair
  import opened WalCrash

  /** A tombstone whose record has the given length. */
  function Sized(len: nat, lsn: nat): (e: WalEntry)
    requires 22 <= len <= 64 && lsn < 1000
    ensures e.Valid() && e.EncodedLen() == len && e.lsn == lsn
  {
    WalEntry(Delete, Zeros(len - 21), None, lsn)
  }

  /** A record of which all fits into the active segment. */
  lemma {:induction false} StepFits(crc: Checksum, l: Log, fs: seq<seq<byte>>, f: seq<byte>, ps: seq<Piece>, q: Piece,
                                    e: WalEntry, l': Log)
    requires l.segmentSize == 64 && l.files == fs + [f] && l.pieces == ps + [q] && |l.numbers| == |l.files| == |l.pieces|
    requires e.Valid() && e.EncodedLen() + |f| <= 64 && e.lsn < 1000 && e.lsn == l.numbers[|fs|] * 64 + |f|
    requires l'.segmentSize == 64 && l'.numbers == l.numbers && l'.entries == l.entries + [e]
    requires l'.files == fs + [f + Encode(crc, e)] && l'.pieces == ps + [Piece(q.split, q.recs + [Encode(crc, e)])]
    ensures CanAppend(l, e) && AppendLog(crc, l, e) == l'
  {
    hide Encode, SegmentOf;
    assert l.files[..|fs|] == fs && l.files[|fs|] == f && l.pieces[..|ps|] == ps && l.pieces[|ps|] == q;
  }

  /** A record of which nothing fits, behind a full segment. */
  lemma {:induction false} StepMoves(crc: Checksum, l: Log, fs: seq<seq<byte>>, f: seq<byte>, e: WalEntry, l': Log)
    requires l.segmentSize == 64 && l.files == fs + [f] && |l.numbers| == |l.files| == |l.pieces|
    requires e.Valid() && e.EncodedLen() <= 64 == |f| && e.lsn < 1000 && e.lsn == l.numbers[|fs|] * 64 + |f|
    requires l'.segmentSize == 64 && l'.numbers == l.numbers + [(e.lsn + e.EncodedLen()) / 64] && l'.entries == l.entries + [e]
    requires l'.files == fs + [f, Encode(crc, e)] && l'.pieces == l.pieces + [Piece(false, [Encode(crc, e)])]
    ensures CanAppend(l, e) && AppendLog(crc, l, e) == l'
  {
    hide Encode;
    assert l.files[..|fs|] == fs && l.files[|fs|] == f && f + Zeros(0) == f;
  }

  lemma {:induction false} RunStep(crc: Checksum, l: Log, e: WalEntry, es: seq<WalEntry>)
    requires |l.numbers| == |l.files| == |l.pieces| > 0 && l.segmentSize > 0 && CanAppend(l, e)
    requires CanAppendAll(crc, AppendLog(crc, l, e), es)
    ensures CanAppendAll(crc, l, [e] + es) && AppendAll(crc, l, [e] + es) == AppendAll(crc, AppendLog(crc, l, e), es)
  {
    hide CanAppend, AppendLog;
    assert ([e] + es)[1..] == es && ([e] + es)[0] == e;
  }

  /** Two records that each fill a segment: segment number one is never used. */
  lemma {:induction false} NumberIsSkipped(crc: Checksum)
    ensures
      var es := [Sized(64, 0)] + ([Sized(64, 64)] + []);
      CanAppendAll(crc, EmptyLog(64), es) && AppendAll(crc, EmptyLog(64), es).numbers == [0, 2]
  {
    hide AppendLog, CanAppend, Sized, Encode;
    var a, b := Sized(64, 0), Sized(64, 64);
    var r, s := Encode(crc, a), Encode(crc, b);
    var l0 := EmptyLog(64);
    var l1 := Log(64, [0], [r], [Piece(false, [r])], [a]);
    assert [] + r == r && [] + [r] == [r];
    StepFits(crc, l0, [], [], [], Piece(false, []), a, l1);
    var l2 := Log(64, [0, 2], [r, s], [Piece(false, [r]), Piece(false, [s])], [a, b]);
    StepMoves(crc, l1, [], r, b, l2);
    RunStep(crc, l1, b, []);
    RunStep(crc, l0, a, [b] + []);
  }

  /** Five records of half a segment: two full segments, and half of a third. */
  function FiveHalves(): (es: seq<WalEntry>)
    ensures |es| == 5 && es[4].lsn == 128 && es[3].lsn == 96
  {
    [Sized(32, 0)] + ([Sized(32, 32)] + ([Sized(32, 64)] + ([Sized(32, 96)] + ([Sized(32, 128)] + []))))
  }

  function Half(crc: Checksum, lsn: nat): (r: Raw)
    requires lsn < 1000
    ensures |r| == 32 && IsFrame(r) && Check(crc, r) == Good(Sized(32, lsn))
  {
    CheckEncode(crc, Sized(32, lsn));
    Encode(crc, Sized(32, lsn))
  }

  /** What the five records leave behind. */
  function HalvesLog(crc: Checksum): Log {
    Log(64, [0, 1, 2],
        [Half(crc, 0) + Half(crc, 32), Half(crc, 64) + Half(crc, 96), Half(crc, 128)],
        [Piece(false, [Half(crc, 0), Half(crc, 32)]), Piece(false, [Half(crc, 64), Half(crc, 96)]), Piece(false, [Half(crc, 128)])],
        FiveHalves())
  }

  lemma {:induction false} FiveHalvesAre(crc: Checksum)
    ensures CanAppendAll(crc, EmptyLog(64), FiveHalves())
    ensures AppendAll(crc, EmptyLog(64), FiveHalves()) == HalvesLog(crc)
  {
    hide AppendLog, CanAppend, Sized, Encode, CanAppendAll, AppendAll, HalvesLog;
    var a, b, c := Half(crc, 0), Half(crc, 32), Half(crc, 64);
    var l0 := EmptyLog(64);
    var l1 := Log(64, [0], [a], [Piece(false, [a])], [Sized(32, 0)]);
    assert [] + a == a && [] + [a] == [a];
    StepFits(crc, l0, [], [], [], Piece(false, []), Sized(32, 0), l1);
    var l2 := Log(64, [0], [a + b], [Piece(false, [a, b])], [Sized(32, 0), Sized(32, 32)]);
    assert [a] + [b] == [a, b];
    StepFits(crc, l1, [], a, [], Piece(false, [a]), Sized(32, 32), l2);
    var l3 := Log(64, [0, 1], [a + b, c], [Piece(false, [a, b]), Piece(false, [c])], [Sized(32, 0), Sized(32, 32), Sized(32, 64)]);
    StepMoves(crc, l2, [], a + b, Sized(32, 64), l3);
    SecondHalf(crc, l3);
    RunStep(crc, l2, Sized(32, 64), [Sized(32, 96)] + ([Sized(32, 128)] + []));
    RunStep(crc, l1, Sized(32, 32), [Sized(32, 64)] + ([Sized(32, 96)] + ([Sized(32, 128)] + [])));
    RunStep(crc, l0, Sized(32, 0), [Sized(32, 32)] + ([Sized(32, 64)] + ([Sized(32, 96)] + ([Sized(32, 128)] + []))));
  }

  lemma {:induction false} SecondHalf(crc: Checksum, l: Log)
    requires
      var a, b, c := Half(crc, 0), Half(crc, 32), Half(crc, 64);
      l == Log(64, [0, 1], [a + b, c], [Piece(false, [a, b]), Piece(false, [c])], [Sized(32, 0), Sized(32, 32), Sized(32, 64)])
    ensures
      var es := [Sized(32, 96)] + ([Sized(32, 128)] + []);
      CanAppendAll(crc, l, es) && AppendAll(crc, l, es) == HalvesLog(crc)
  {
    hide AppendLog, CanAppend, Sized, Encode;
    var a, b, c, d, e := Half(crc, 0), Half(crc, 32), Half(crc, 64), Half(crc, 96), Half(crc, 128);
    var l4 := Log(64, [0, 1], [a + b, c + d], [Piece(false, [a, b]), Piece(false, [c, d])], l.entries + [Sized(32, 96)]);
    assert [c] + [d] == [c, d];
    StepFits(crc, l, [a + b], c, [Piece(false, [a, b])], Piece(false, [c]), Sized(32, 96), l4);
    assert HalvesLog(crc).entries == l4.entries + [Sized(32, 128)];
    StepMoves(crc, l4, [a + b], c + d, Sized(32, 128), HalvesLog(crc));
    RunStep(crc, l4, Sized(32, 128), []);
    RunStep(crc, l, Sized(32, 96), [Sized(32, 128)] + []);
  }

  lemma {:induction false} HalvesShape(crc: Checksum)
    ensures
      var l := HalvesLog(crc);
      && l.segmentSize == 64 && l.numbers == [0, 1, 2] && |l.files| == |l.pieces| == 3 && |l.files[2]| == 32
      && l.entries == FiveHalves()
  {
    hide Half;
  }

  /** It satisfies the invariant. */
  lemma {:induction false} HalvesInv(crc: Checksum)
    ensures HalvesLog(crc).Inv(crc)
  {
    hide Log.Inv, CanAppendAll, AppendAll;
    FiveHalvesAre(crc);
    EmptyLogInv(crc, 64);
    AppendAllInv(crc, EmptyLog(64), FiveHalves());
  }

  /**
   * A restart that misses its own entry. After these five appends a listing for the sequence number of the last
   * entry contains no file at all: the active segment's test compares 32 * 3 with 128.
   */
  lemma {:induction false} NothingIsListed(crc: Checksum, disk: map<FileName, seq<byte>>, paths: seq<FileName>)
    ensures CanAppendAll(crc, EmptyLog(64), FiveHalves())
    ensures
      var l := AppendAll(crc, EmptyLog(64), FiveHalves());
      && l.Inv(crc) && RestartsFrom(l, 128, 4) && |l.entries| == 5
      && (OnDisk(disk, l) && Lists(disk, 128, paths) ==> paths == [])
  {
    hide Log.Inv, CanAppendAll, AppendAll, OnDisk, Lists, SegmentName, Sized, HalvesLog;
    FiveHalvesAre(crc);
    HalvesInv(crc);
    HalvesShape(crc);
    var l := HalvesLog(crc);
    if OnDisk(disk, l) && Lists(disk, 128, paths) {
      OnDiskFacts(disk, l);
      assert 128 % LOGICAL_LOG / 64 == 2;
      assert !LastIsListed(l, 128);
      assert FirstCovering(l, 128, 2);
      ListingIff(crc, disk, l, 128, 2, paths);
    }
  }

  // ---------- a repair that fails ----------

  /** The fourth record with the lowest byte of its checksum changed. */
  function Flipped(crc: Checksum): (r: Raw)
    ensures |r| == 32 && IsFrame(r) && Check(crc, r).Bad?
  {
    hide FromLE, Sized, Decode, Encode;
    var r := Half(crc, 96);
    var r' := r[4 := if r[4] == 255 then 0 else r[4] + 1];
    assert r'[..4] == r[..4] && r'[8..] == r[8..];
    LowestByteDiffers(r[4..8], r'[4..8]);
    r'
  }

  lemma {:induction false} LowestByteDiffers(a: seq<byte>, b: seq<byte>)
    requires |a| == |b| == 4 && a[0] != b[0] && a[1..] == b[1..]
    ensures FromLE(a) != FromLE(b)
  {
  }

  function DamagedHalves(crc: Checksum): Log {
    HalvesLog(crc).(
      files := [Half(crc, 0) + Half(crc, 32), Half(crc, 64) + Flipped(crc), Half(crc, 128)],
      pieces := [Piece(false, [Half(crc, 0), Half(crc, 32)]), Piece(false, [Half(crc, 64), Flipped(crc)]), Piece(false, [Half(crc, 128)])])
  }

  lemma {:induction false} TwoRecords(a: Raw, b: Raw)
    ensures Stream([a, b]) == a + b && Stream([a, b][..1]) == a && Stream([a]) == a
  {
    StreamOne(a);
    StreamOne(b);
    assert [a, b][..1] == [a] && [a, b] == [a] + [b];
    StreamConcat([a], [b]);
  }

  /** Two full files of two records each, and a third with one. */
  lemma {:induction false} HalvesLayout(a: Raw, b: Raw, c: Raw, d: Raw, e: Raw)
    requires IsFrame(a) && IsFrame(b) && IsFrame(c) && IsFrame(d) && IsFrame(e)
    requires |a| == |b| == |c| == |d| == |e| == 32
    ensures Layout(64, [a + b, c + d, e], [Piece(false, [a, b]), Piece(false, [c, d]), Piece(false, [e])])
  {
    hide IsFrame, Stream;
    TwoRecords(a, b);
    TwoRecords(c, d);
    TwoRecords(e, e);
    WholeFile(a + b, [a, b], Some(Piece(false, [c, d])));
    WholeFile(c + d, [c, d], Some(Piece(false, [e])));
    WholeFile(e, [e], None);
  }

  lemma {:induction false} WholeFile(file: seq<byte>, recs: seq<Raw>, next: Option<Piece>)
    requires AllFrames(recs) && (next.Some? ==> PieceOk(next.value) && !next.value.split)
    requires file == Stream(recs) && |file| <= 64 && (next.Some? ==> |file| == 64)
    ensures FileOk(64, file, Piece(false, recs), next)
  {
    hide IsFrame, Stream;
    assert [] + file == file;
  }

  /** Two such files cut at the second record of the second one. */
  lemma {:induction false} HalvesCut(a: Raw, b: Raw, c: Raw, d: Raw, e: Raw)
    requires IsFrame(a) && IsFrame(b) && IsFrame(c) && IsFrame(d) && IsFrame(e)
    requires |a| == |b| == |c| == |d| == |e| == 32
    ensures
      var pieces := [Piece(false, [a, b]), Piece(false, [c, d]), Piece(false, [e])];
      && (forall k :: 0 <= k < |pieces| ==> PieceOk(pieces[k]))
      && TruncatedPieces(pieces, 1, 1) == [Piece(false, [a, b]), Piece(false, [c])]
      && TruncatedFiles([a + b, c + d, e], pieces, 1, 1) == [a + b, c]
  {
    hide IsFrame, Stream;
    TwoRecords(c, d);
    var pieces := [Piece(false, [a, b]), Piece(false, [c, d]), Piece(false, [e])];
    assert [c, d][..1] == [c] && pieces[..1] == [Piece(false, [a, b])] && [a + b, c + d, e][..1] == [a + b];
    assert (c + d)[..32] == c;
  }

  /** The record with sequence number 96 is damaged. */
  lemma {:induction false} HalvesAreDamaged(crc: Checksum)
    ensures DamagedAt(crc, HalvesLog(crc), DamagedHalves(crc), 1, 1)
  {
    hide Log.Inv, IsFrame, Stream, Half, Flipped, Check, FiveHalves, TruncatedFiles, TruncatedPieces, Layout, PieceOk;
    HalvesInv(crc);
    InvHasShape(crc, HalvesLog(crc));
    HalvesLayout(Half(crc, 0), Half(crc, 32), Half(crc, 64), Flipped(crc), Half(crc, 128));
    HalvesCut(Half(crc, 0), Half(crc, 32), Half(crc, 64), Flipped(crc), Half(crc, 128));
    HalvesCut(Half(crc, 0), Half(crc, 32), Half(crc, 64), Half(crc, 96), Half(crc, 128));
  }

  /** The log in front of the damage ends at sequence number 96. */
  lemma {:induction false} CutHalvesEnd(crc: Checksum)
    ensures
      var cut := Cut(HalvesLog(crc), 1, 1);
      && cut.segmentSize == 64 && cut.numbers == [0, 1] && |cut.files| == 2 && cut.NextLsn() == 96
      && cut.entries == FiveHalves()[..3]
  {
    hide Log.Inv, IsFrame, Stream, Half, FiveHalves, TruncatedFiles, TruncatedPieces, PieceOk, Log.NextLsn, AllGood, GoodPrefix,
         Flat;
    var l := HalvesLog(crc);
    HalvesInv(crc);
    CutInv(crc, l, 1, 1);
    HalvesCut(Half(crc, 0), Half(crc, 32), Half(crc, 64), Half(crc, 96), Half(crc, 128));
    assert l.numbers[..2] == [0, 1];
    CutHalvesCount(crc);
    CutNextLsn(Cut(l, 1, 1));
  }

  lemma {:induction false} CutHalvesCount(crc: Checksum)
    ensures |HalvesLog(crc).pieces| > 1 && |HalvesLog(crc).pieces[1].recs| > 1
    ensures |Before(HalvesLog(crc).pieces, 1, 1)| == 3
  {
    hide Half;
    var p := HalvesLog(crc).pieces;
    FlatEmpty();
    FlatSnoc(p, 1);
    assert p[..0] == [];
  }

  lemma {:induction false} CutNextLsn(l: Log)
    requires l.segmentSize == 64 && l.numbers == [0, 1] && |l.files| == 2 && |l.files[1]| == 32
    ensures l.NextLsn() == 96
  {
  }

  /**
   * A repair that fails, on a run of five appends and one damaged record. The record with sequence number 96 is the second of
   * the second segment; the cut leaves 96 as the end of the log, and the test of the third segment compares 32 * 3 with it. So
   * that segment stays, and whatever a repair makes of the directory is not the log it means to continue.
   */
  lemma {:induction false} StaleFileStays(crc: Checksum, disk: map<FileName, seq<byte>>, behind: seq<FileName>,
                                          disk': map<FileName, seq<byte>>)
    requires OnDisk(disk, DamagedHalves(crc))
    ensures DamagedAt(crc, AppendedHalves(crc), DamagedHalves(crc), 1, 1)
    ensures
      var cut := Cut(AppendedHalves(crc), 1, 1);
      && cut.segmentSize > 0 && |cut.files| == |cut.numbers| > 0
      && cut.numbers[|cut.numbers| - 1] * cut.segmentSize < U64_LIMIT
      && (Lists(CutDisk(disk, cut), cut.NextLsn(), behind) && Without(CutDisk(disk, cut), behind, disk') ==> !OnDisk(disk', cut))
  {
    hide Log.Inv, OnDisk, Lists, Without, CutDisk, SegmentName, Log.NextLsn, DamagedAt, Cut, HalvesLog, DamagedHalves,
         LastIsListed;
    FiveHalvesAre(crc);
    HalvesAreDamaged(crc);
    CutHalvesEnd(crc);
    var d, cut := DamagedHalves(crc), Cut(HalvesLog(crc), 1, 1);
    DamagedCut(crc, HalvesLog(crc), d, 1, 1);
    RepairIff(disk, d, cut, behind, disk');
    DamagedIsMissed(crc);
  }

  /** The five records, appended to an empty log. */
  ghost function AppendedHalves(crc: Checksum): Log {
    FiveHalvesAre(crc);
    AppendAll(crc, EmptyLog(64), FiveHalves())
  }

  lemma {:induction false} DamagedIsMissed(crc: Checksum)
    ensures
      var d := DamagedHalves(crc);
      && d.segmentSize == 64 && LOGICAL_LOG % 64 == 0 && |d.numbers| == |d.files| == 3 && d.numbers[2] == 2
      && !LastIsListed(d, 96)
  {
    hide Half, Flipped;
    assert 128 % LOGICAL_LOG / 64 == 2;
  }
}
