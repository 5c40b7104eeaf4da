/**
 * The bytes of a directory determine the log: there is at most one. A torn tail too short to be noticed leaves a
 * directory that holds no log at all, so what is appended behind it is appended to nothing recovery can read.
 */
module WalUnique {
  import opened Bytes
  import opened Options
  import opened Sorting
  import opened WalRecord
  import opened WalScan
  import opened WalLayout
  import opened WalLog
  import opened Wal
  import opened MemTableFiles
  import opened WalCrash

  // ---------- records in bytes ----------

  /** The bytes do not begin with a whole record. */
  predicate NoFrame(tail: seq<byte>) {
    |tail| < HEADER_SIZE || 4 + FromLE(tail[..4]) > |tail|
  }

  lemma {:induction false} FrameLength(r: Raw, all: seq<byte>)
    requires IsFrame(r) && r <= all
    ensures |all| >= HEADER_SIZE && 4 + FromLE(all[..4]) == |r|
  {
    hide FromLE;
    assert all[..4] == r[..4];
  }

  /** Bytes split into records, and a rest without one, in only one way. */
  lemma {:induction false} FramesUnique(a: seq<Raw>, b: seq<Raw>, ta: seq<byte>, tb: seq<byte>)
    requires AllFrames(a) && AllFrames(b) && NoFrame(ta) && NoFrame(tb)
    requires Stream(a) + ta == Stream(b) + tb
    ensures a == b && ta == tb
    decreases |a|
  {
    hide FromLE, IsFrame, NoFrame;
    var all := Stream(a) + ta;
    if a == [] {
      assert all == ta;
      if b == [] {
        assert Stream(b) + tb == tb;
      } else {
        assert all == b[0] + (Stream(b[1..]) + tb);
        NoneInFront(b[0], Stream(b[1..]) + tb, ta);
        assert false;
      }
    } else {
      assert all == a[0] + (Stream(a[1..]) + ta);
      if b == [] {
        assert Stream(b) + tb == tb;
        NoneInFront(a[0], Stream(a[1..]) + ta, tb);
        assert false;
      } else {
        assert all == b[0] + (Stream(b[1..]) + tb);
        FramesUniqueStep(a, b, ta, tb, all);
        FramesUnique(a[1..], b[1..], ta, tb);
      }
    }
  }

  lemma {:induction false} FramesUniqueStep(a: seq<Raw>, b: seq<Raw>, ta: seq<byte>, tb: seq<byte>, all: seq<byte>)
    requires a != [] && b != [] && AllFrames(a) && AllFrames(b)
    requires all == a[0] + (Stream(a[1..]) + ta) && all == b[0] + (Stream(b[1..]) + tb)
    ensures a[0] == b[0] && Stream(a[1..]) + ta == Stream(b[1..]) + tb
  {
    hide FromLE, Stream;
    FrameLength(a[0], all);
    FrameLength(b[0], all);
    assert a[0] == all[..|a[0]|] && b[0] == all[..|b[0]|];
    assert Stream(a[1..]) + ta == all[|a[0]|..] && Stream(b[1..]) + tb == all[|b[0]|..];
  }

  lemma {:induction false} NoneInFront(r: Raw, rest: seq<byte>, tail: seq<byte>)
    requires IsFrame(r) && NoFrame(tail)
    ensures r + rest != tail
  {
    hide FromLE;
    if r + rest == tail {
      FrameLength(r, tail);
      assert false;
    }
  }

  // ---------- one file ----------

  /** The records of a file and what it says about the next. */
  lemma {:induction false} FileUnique(segmentSize: nat, file: seq<byte>, p: Piece, p': Piece, q: Piece, q': Piece)
    requires PieceOk(p) && PieceOk(p') && PieceOk(q) && PieceOk(q') && Lead(p) == Lead(p') && p.split == p'.split
    requires FileOk(segmentSize, file, p, Some(q)) && FileOk(segmentSize, file, p', Some(q'))
    ensures p == p' && q.split == q'.split && Lead(q) == Lead(q')
  {
    hide FromLE, IsFrame, Stream, NoFrame;
    var all := Lead(p) + file;
    var ta, tb := all[|Stream(p.recs)|..], all[|Stream(p'.recs)|..];
    TailHasNoFrame(segmentSize, |file|, ta, q);
    TailHasNoFrame(segmentSize, |file|, tb, q');
    assert all == Stream(p.recs) + ta && all == Stream(p'.recs) + tb;
    FramesUnique(p.recs, p'.recs, ta, tb);
  }

  lemma {:induction false} TailHasNoFrame(segmentSize: nat, size: nat, tail: seq<byte>, q: Piece)
    requires PieceOk(q) && TailOk(segmentSize, size, tail, Some(q))
    ensures NoFrame(tail)
  {
    hide FromLE;
    if q.split {
      assert IsFrame(q.recs[0]);
      assert tail[..4] == tail[..HEADER_SIZE][..4] == q.recs[0][..HEADER_SIZE][..4] == q.recs[0][..4];
    }
  }

  /** Equal files in front have equal pieces. */
  lemma {:induction false} PiecesUnique(segmentSize: nat, files: seq<seq<byte>>, files': seq<seq<byte>>,
                                        pieces: seq<Piece>, pieces': seq<Piece>, k: nat)
    requires Layout(segmentSize, files, pieces) && Layout(segmentSize, files', pieces')
    requires !pieces[0].split && !pieces'[0].split && k < |files| && k < |files'| && files[..k] == files'[..k]
    ensures pieces[..k] == pieces'[..k] && pieces[k].split == pieces'[k].split
    ensures PieceOk(pieces[k]) && PieceOk(pieces'[k]) && Lead(pieces[k]) == Lead(pieces'[k])
  {
    hide FileOk, PieceOk, Lead;
    if k == 0 {
      LeadOfNone(pieces[0], pieces'[0]);
    } else {
      assert files[..k - 1] == files[..k][..k - 1] && files'[..k - 1] == files'[..k][..k - 1];
      PiecesUnique(segmentSize, files, files', pieces, pieces', k - 1);
      assert files[k - 1] == files[..k][k - 1] == files'[..k][k - 1] == files'[k - 1];
      assert Next(pieces, k - 1) == Some(pieces[k]) && Next(pieces', k - 1) == Some(pieces'[k]);
      FileUnique(segmentSize, files[k - 1], pieces[k - 1], pieces'[k - 1], pieces[k], pieces'[k]);
      assert pieces[..k] == pieces[..k - 1] + [pieces[k - 1]] && pieces'[..k] == pieces'[..k - 1] + [pieces'[k - 1]];
    }
  }

  lemma {:induction false} LeadOfNone(p: Piece, q: Piece)
    requires PieceOk(p) && PieceOk(q) && !p.split && !q.split
    ensures Lead(p) == Lead(q)
  {
  }

  // ---------- the directory ----------

  /** Two logs on the same disk have the same segments. */
  lemma {:induction false} SegmentsUnique(disk: map<FileName, seq<byte>>, d: Log, l: Log)
    requires OnDisk(disk, d) && OnDisk(disk, l) && Closed(d) && Closed(l) && d.segmentSize == l.segmentSize
    ensures d.numbers == l.numbers && d.files == l.files
  {
    hide SegmentName, Less, OnDisk;
    OnDiskFacts(disk, d);
    OnDiskFacts(disk, l);
    NamesAscend(d);
    NamesAscend(l);
    forall name ensures name in NamesOf(d) <==> name in NamesOf(l) {
      NamesAreDisk(disk, d, name);
      NamesAreDisk(disk, l, name);
    }
    AscendingUnique(NamesOf(d), NamesOf(l));
    forall i | 0 <= i < |d.numbers| ensures d.numbers[i] == l.numbers[i] && d.files[i] == l.files[i] {
      NameOnDisk(disk, d, i);
      NameOnDisk(disk, l, i);
      NamesDiffer(d.segmentSize, d.numbers[i], l.numbers[i]);
    }
  }

  lemma {:induction false} NamesAreDisk(disk: map<FileName, seq<byte>>, l: Log, name: FileName)
    requires OnDisk(disk, l)
    ensures l.segmentSize > 0 && forall i :: 0 <= i < |l.numbers| ==> l.numbers[i] * l.segmentSize < U64_LIMIT
    ensures name in NamesOf(l) <==> name in disk
  {
    hide SegmentName;
    if name in disk {
      DiskIsNamed(disk, l, name);
    }
  }

  ghost predicate HoldsLog(crc: Checksum, disk: map<FileName, seq<byte>>, segmentSize: nat) {
    exists l: Log :: l.segmentSize == segmentSize && l.Inv(crc) && OnDisk(disk, l)
  }

  /** A directory holds at most one log: records, entries and all. */
  lemma {:induction false} LogUnique(crc: Checksum, disk: map<FileName, seq<byte>>, l: Log, l': Log)
    requires l.Inv(crc) && l'.Inv(crc) && OnDisk(disk, l) && OnDisk(disk, l') && l.segmentSize == l'.segmentSize
    ensures l == l'
  {
    hide Log.Inv, OnDisk, FileOk, IsFrame, Stream, Flat, AllGood, GoodPrefix, Closed;
    InvIsClosed(crc, l);
    InvIsClosed(crc, l');
    SegmentsUnique(disk, l, l');
    InvHasShape(crc, l);
    InvHasShape(crc, l');
    var k := |l.files| - 1;
    PiecesUnique(l.segmentSize, l.files, l'.files, l.pieces, l'.pieces, k);
    LastIsStream(l);
    LastIsStream(l');
    FramesUnique(l.pieces[k].recs, l'.pieces[k].recs, [], []);
    assert l.pieces == l.pieces[..k] + [l.pieces[k]] && l'.pieces == l'.pieces[..k] + [l'.pieces[k]];
  }

  lemma {:induction false} LastIsStream(l: Log)
    requires Layout(l.segmentSize, l.files, l.pieces)
    ensures |l.pieces| == |l.files| > 0 && PieceOk(l.pieces[|l.pieces| - 1])
    ensures
      var p := l.pieces[|l.pieces| - 1];
      AllFrames(p.recs) && Stream(p.recs) + [] == Lead(p) + l.files[|l.files| - 1]
  {
    hide IsFrame, Stream;
    var k := |l.files| - 1;
    assert FileOk(l.segmentSize, l.files[k], l.pieces[k], Next(l.pieces, k)) && Next(l.pieces, k) == None;
  }

  /** One to twelve torn bytes: recovery does not notice them, and no log is on the disk. */
  lemma {:induction false} UnnoticedTearIsNoLog(crc: Checksum, l: Log, k: nat, n: nat, disk: map<FileName, seq<byte>>)
    requires TornAt(crc, l, k, n) && |l.numbers| == |l.files| == |l.pieces| && PieceOk(l.pieces[k])
    requires 0 < TornBytes(l.pieces[k], l.files[k], n) < HEADER_SIZE && OnDisk(disk, TornDisk(l, k, n))
    ensures !HoldsLog(crc, disk, l.segmentSize)
  {
    hide Log.Inv, OnDisk, TornBytes, PieceOk;
    if HoldsLog(crc, disk, l.segmentSize) {
      var l': Log :| l'.segmentSize == l.segmentSize && l'.Inv(crc) && OnDisk(disk, l');
      NoSuchLog(crc, l, k, n, disk, l');
    }
  }

  lemma {:induction false} NoSuchLog(crc: Checksum, l: Log, k: nat, n: nat, disk: map<FileName, seq<byte>>, l': Log)
    requires TornAt(crc, l, k, n) && |l.numbers| == |l.files| == |l.pieces| && PieceOk(l.pieces[k])
    requires 0 < TornBytes(l.pieces[k], l.files[k], n) < HEADER_SIZE && OnDisk(disk, TornDisk(l, k, n))
    requires l'.Inv(crc) && l'.segmentSize == l.segmentSize
    ensures !OnDisk(disk, l')
  {
    hide Log.Inv, OnDisk, FileOk, IsFrame, Stream, Flat, AllGood, GoodPrefix, Closed, Whole, TornBytes, Lead, FromLE,
         NoFrame;
    if OnDisk(disk, l') {
      TornFacts(crc, l, k, n);
      TornDiskClosed(crc, l, k, n);
      InvIsClosed(crc, l');
      InvHasShape(crc, l');
      var d := TornDisk(l, k, n);
      SegmentsUnique(disk, d, l');
      assert l'.files[..k] == l.files[..k] && l'.files[k] == l.files[k][..n];
      PiecesUnique(l.segmentSize, l.files, l'.files, l.pieces, l'.pieces, k);
      LastIsStream(l');
      TornIsStream(l.segmentSize, l.files[k], l.pieces[k], Next(l.pieces, k), n, l'.pieces[k]);
      assert false;
    }
  }

  lemma {:induction false} TornIsStream(segmentSize: nat, file: seq<byte>, p: Piece, next: Option<Piece>, n: nat,
                                        p': Piece)
    requires PieceOk(p) && (next.Some? ==> PieceOk(next.value)) && FileOk(segmentSize, file, p, next) && n <= |file|
    requires 0 < TornBytes(p, file, n) < HEADER_SIZE && AllFrames(p'.recs)
    ensures Stream(p'.recs) + [] != Lead(p) + file[..n]
  {
    hide IsFrame, Stream, Whole, Lead, FromLE;
    var m := Whole(p.recs, |Lead(p)| + n);
    CutSplit(segmentSize, file, p, next, n);
    var torn := (Lead(p) + file)[|Stream(p.recs[..m])|..|Lead(p)| + n];
    if Stream(p'.recs) + [] == Lead(p) + file[..n] {
      FramesUnique(p'.recs, p.recs[..m], [], torn);
      assert false;
    }
  }
}
