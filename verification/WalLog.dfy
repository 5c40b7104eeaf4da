/**
 * The log as a value: numbered segments, their bytes, the records in them and the entries those stand for.
 * Appending keeps the invariant; reading back from any entry's sequence number yields that entry and all later ones.
 */
module WalLog {
  import opened Bytes
  import opened Options
  import opened WalRecord
  import opened WalLayout
  import opened WalAppend
  import opened WalNames

  /** Segment `numbers[i]` covers the sequence numbers from `numbers[i] * segmentSize` on and holds `files[i]`. */
  datatype Log = Log(segmentSize: nat, numbers: seq<nat>, files: seq<seq<byte>>, pieces: seq<Piece>,
                     entries: seq<WalEntry>)
  {
    ghost predicate Shape(crc: Checksum) {
      && segmentSize > 0
      && Layout(segmentSize, files, pieces)
      && !pieces[0].split
      && AllGood(crc, Flat(pieces))
      && entries == GoodPrefix(crc, Flat(pieces))
      && |numbers| == |files|
      && forall i, j :: 0 <= i < j < |numbers| ==> numbers[i] < numbers[j]
    }

    /** The original's `next_lsn` of the active segment. */
    function NextLsn(): nat {
      if |numbers| == |files| > 0 then numbers[|numbers| - 1] * segmentSize + |files[|files| - 1]| else 0
    }

    /** Entry `k` starts behind `j` records of file `i`, at the byte its sequence number names. */
    ghost predicate StartsAt(k: nat, i: nat, j: nat)
      requires |numbers| == |pieces| && k < |entries|
      requires forall m :: 0 <= m < |pieces| ==> PieceOk(pieces[m])
    {
      && i < |pieces| && j <= |pieces[i].recs| && (pieces[i].split ==> j > 0)
      && |Flat(pieces[..i])| + j == k
      && entries[k].lsn == numbers[i] * segmentSize + InFile(pieces[i], |Stream(pieces[i].recs[..j])|)
    }

    ghost predicate Placed()
      requires |numbers| == |pieces|
      requires forall m :: 0 <= m < |pieces| ==> PieceOk(pieces[m])
    {
      forall k :: 0 <= k < |entries| ==> HasStart(k)
    }

    ghost predicate HasStart(k: nat)
      requires |numbers| == |pieces| && k < |entries|
      requires forall m :: 0 <= m < |pieces| ==> PieceOk(pieces[m])
    {
      exists i, j :: StartsAt(k, i, j)
    }

    ghost predicate Increasing() {
      && (forall k, l :: 0 <= k < l < |entries| ==> entries[k].lsn < entries[l].lsn)
      && (forall k :: 0 <= k < |entries| ==> entries[k].lsn < NextLsn())
    }

    ghost predicate Inv(crc: Checksum) {
      Shape(crc) && Placed() && Increasing()
    }
  }

  /** A fresh log: one empty segment, number zero. */
  function EmptyLog(segmentSize: nat): Log {
    Log(segmentSize, [0], [[]], [Piece(false, [])], [])
  }

  lemma {:induction false} EmptyLogInv(crc: Checksum, segmentSize: nat)
    requires segmentSize > 0
    ensures EmptyLog(segmentSize).Inv(crc)
  {
    var l := EmptyLog(segmentSize);
    assert Flat(l.pieces) == [] by {
      assert Flat(l.pieces) == l.pieces[0].recs + Flat(l.pieces[1..]);
    }
    StreamEmpty(l.pieces[0].recs);
    assert FileOk(segmentSize, [], l.pieces[0], None);
  }

  /** What may be appended: the next entry, not too large for the segments, and within the sequence number range. */
  predicate CanAppend(l: Log, e: WalEntry) {
    && |l.numbers| == |l.files| > 0
    && e.Valid()
    && e.lsn == l.NextLsn()
    && |l.files[|l.files| - 1]| <= l.segmentSize
    && Placeable(l.segmentSize, |l.files[|l.files| - 1]|, e.EncodedLen())
    && e.lsn + e.EncodedLen() < U64_LIMIT
  }

  /** The segment a sequence number lies in. */
  function SegmentOf(lsn: nat, segmentSize: nat): nat
    requires segmentSize > 0
  {
    lsn / segmentSize
  }

  function AppendLog(crc: Checksum, l: Log, e: WalEntry): Log
    requires |l.numbers| == |l.files| == |l.pieces| > 0 && l.segmentSize > 0 && CanAppend(l, e)
  {
    var size := |l.files[|l.files| - 1]|;
    var r := Encode(crc, e);
    Log(l.segmentSize,
        if PlacementOf(l.segmentSize, size, |r|).Fits? then l.numbers
        else l.numbers + [SegmentOf(e.lsn + |r|, l.segmentSize)],
        AppendFiles(l.segmentSize, l.files, r),
        AppendPieces(l.segmentSize, size, l.pieces, r),
        l.entries + [e])
  }

  /** A rotation opens the next segment, unless the record reaches exactly two segments past the base. */
  lemma {:induction false} RotationNumber(segmentSize: nat, number: nat, size: nat, recordLen: nat)
    requires segmentSize > 0 && size <= segmentSize && Placeable(segmentSize, size, recordLen)
    requires !PlacementOf(segmentSize, size, recordLen).Fits?
    ensures SegmentOf(number * segmentSize + size + recordLen, segmentSize) ==
            if size + recordLen < 2 * segmentSize then number + 1 else number + 2
    ensures size + recordLen == 2 * segmentSize ||
            (size + recordLen < 2 * segmentSize)
  {
    var past := size + recordLen - segmentSize;
    MulPlus(number, 1, segmentSize);
    if past < segmentSize {
      DivUnique(number * segmentSize + size + recordLen, segmentSize, number + 1, past);
    } else {
      MulPlus(number + 1, 1, segmentSize);
      DivUnique(number * segmentSize + size + recordLen, segmentSize, number + 2, 0);
    }
  }

  /** The segment a rotation opens comes right after the active one, with that one exception. */
  lemma {:induction false} RotationIsNext(l: Log, e: WalEntry)
    requires |l.numbers| == |l.files| > 0 && l.segmentSize > 0 && CanAppend(l, e)
    requires !PlacementOf(l.segmentSize, |l.files[|l.files| - 1]|, e.EncodedLen()).Fits?
    ensures
      var n := |l.files| - 1;
      SegmentOf(e.lsn + e.EncodedLen(), l.segmentSize) ==
      if |l.files[n]| + e.EncodedLen() < 2 * l.segmentSize then l.numbers[n] + 1 else l.numbers[n] + 2
    ensures |l.files[|l.files| - 1]| + e.EncodedLen() <= 2 * l.segmentSize
  {
    hide SegmentOf;
    var n := |l.files| - 1;
    RotationNumber(l.segmentSize, l.numbers[n], |l.files[n]|, e.EncodedLen());
    assert e.lsn + e.EncodedLen() == l.numbers[n] * l.segmentSize + |l.files[n]| + e.EncodedLen();
  }

  lemma {:induction false} GoodPrefixSnoc(crc: Checksum, recs: seq<Raw>, e: WalEntry)
    requires AllGood(crc, recs) && e.Valid()
    ensures AllGood(crc, recs + [Encode(crc, e)])
    ensures GoodPrefix(crc, recs + [Encode(crc, e)]) == GoodPrefix(crc, recs) + [e]
  {
    hide Check, Encode;
    CheckEncode(crc, e);
    var r := Encode(crc, e);
    GoodPrefixConcat(crc, recs, [r]);
    GoodPrefixEmpty(crc);
    var none: seq<Raw> := [r][1..];
    assert none == [];
    assert GoodPrefix(crc, [r]) == [Check(crc, r).entry] + GoodPrefix(crc, [r][1..]);
  }

  /** Shape of the log after an append: this is what the layout theorems need. */
  lemma {:induction false} AppendShape(crc: Checksum, l: Log, e: WalEntry)
    requires l.Shape(crc) && CanAppend(l, e)
    ensures AppendLog(crc, l, e).Shape(crc)
  {
    hide Encode, FileOk, PieceOk, AllGood, AppendFiles, AppendPieces, Flat, SegmentOf, GoodPrefix, PlacementOf, Lead,
         Stream;
    var size := |l.files[|l.files| - 1]|;
    var r := Encode(crc, e);
    var l' := AppendLog(crc, l, e);
    CheckEncode(crc, e);
    AppendLayout(l.segmentSize, l.files, l.pieces, r);
    GoodPrefixSnoc(crc, Flat(l.pieces), e);
    AppendCounts(l.segmentSize, l.files, l.pieces, r);
    AppendNumbers(crc, l, e);
  }

  lemma {:induction false} AppendNumbers(crc: Checksum, l: Log, e: WalEntry)
    requires |l.numbers| == |l.files| == |l.pieces| > 0 && l.segmentSize > 0 && CanAppend(l, e)
    requires forall i, j :: 0 <= i < j < |l.numbers| ==> l.numbers[i] < l.numbers[j]
    ensures
      var ns := AppendLog(crc, l, e).numbers;
      && |ns| == |l.numbers| + (if PlacementOf(l.segmentSize, |l.files[|l.files| - 1]|, e.EncodedLen()).Fits? then 0 else 1)
      && forall i, j :: 0 <= i < j < |ns| ==> ns[i] < ns[j]
  {
    hide Encode, AppendFiles, AppendPieces, SegmentOf, PlacementOf;
    if !PlacementOf(l.segmentSize, |l.files[|l.files| - 1]|, e.EncodedLen()).Fits? {
      RotationIsNext(l, e);
    }
  }

  lemma {:induction false} AppendCounts(segmentSize: nat, files: seq<seq<byte>>, pieces: seq<Piece>, r: Raw)
    requires files != [] && |pieces| == |files| && |files[|files| - 1]| <= segmentSize && |r| >= HEADER_SIZE
    ensures
      var fits := PlacementOf(segmentSize, |files[|files| - 1]|, |r|).Fits?;
      && |AppendFiles(segmentSize, files, r)| == |files| + (if fits then 0 else 1)
      && |AppendPieces(segmentSize, |files[|files| - 1]|, pieces, r)| == |files| + (if fits then 0 else 1)
  {
  }

  lemma {:induction false} AppendedTail(segmentSize: nat, files: seq<seq<byte>>, r: Raw)
    requires files != [] && |files[|files| - 1]| <= segmentSize && |r| >= HEADER_SIZE
    ensures
      var fs := AppendFiles(segmentSize, files, r);
      |fs[|fs| - 1]| ==
      match PlacementOf(segmentSize, |files[|files| - 1]|, |r|)
      case Fits => |files[|files| - 1]| + |r|
      case HeaderOnly => |r| - HEADER_SIZE
      case Moved => |r|
  {
  }

  /** Every append moves the next sequence number past the whole record. */
  lemma {:induction false} AppendAdvances(crc: Checksum, l: Log, e: WalEntry)
    requires |l.numbers| == |l.files| == |l.pieces| > 0 && l.segmentSize > 0 && CanAppend(l, e)
    ensures |AppendLog(crc, l, e).numbers| == |AppendLog(crc, l, e).files| > 0
    ensures AppendLog(crc, l, e).NextLsn() >= e.lsn + e.EncodedLen() > e.lsn
  {
    hide Encode, AppendPieces, AppendFiles, SegmentOf;
    var n := |l.files| - 1;
    var size := |l.files[n]|;
    var r := Encode(crc, e);
    AppendedTail(l.segmentSize, l.files, r);
    AppendCounts(l.segmentSize, l.files, l.pieces, r);
    if !PlacementOf(l.segmentSize, size, |r|).Fits? {
      RotationIsNext(l, e);
      var k := SegmentOf(e.lsn + |r|, l.segmentSize);
      MulPlus(l.numbers[n], 1, l.segmentSize);
      MulAtLeast(k, l.numbers[n] + 1, l.segmentSize);
    }
  }

  /** A piece that was there before an append still has its records in front. */
  lemma {:induction false} AppendKeepsPieces(segmentSize: nat, size: nat, pieces: seq<Piece>, r: Raw, i: nat, j: nat)
    requires i < |pieces| && j <= |pieces[i].recs| && (pieces[i].split ==> j > 0)
    requires forall m :: 0 <= m < |pieces| ==> PieceOk(pieces[m])
    requires IsFrame(r)
    ensures
      var ps := AppendPieces(segmentSize, size, pieces, r);
      && i < |ps| && j <= |ps[i].recs| && ps[i].split == pieces[i].split
      && PieceOk(ps[i]) && Lead(ps[i]) == Lead(pieces[i])
      && ps[i].recs[..j] == pieces[i].recs[..j]
      && ps[..i] == pieces[..i]
  {
    hide FromLE;
    var ps := AppendPieces(segmentSize, size, pieces, r);
    assert ps[..i] == pieces[..i];
    if i == |pieces| - 1 && PlacementOf(segmentSize, size, |r|).Fits? {
      assert ps[i].recs == pieces[i].recs + [r];
      assert ps[i].recs[..j] == pieces[i].recs[..j];
    } else {
      assert ps[i] == pieces[i];
    }
  }

  lemma {:induction false} AppendKeepsStart(crc: Checksum, l: Log, e: WalEntry, k: nat)
    requires l.Shape(crc) && CanAppend(l, e) && AppendLog(crc, l, e).Shape(crc)
    requires k < |l.entries| && l.HasStart(k)
    ensures AppendLog(crc, l, e).HasStart(k)
  {
    hide Encode, FileOk, PieceOk, AllGood, GoodPrefix, AppendFiles, AppendPieces, Flat, Stream, Lead;
    var i: nat, j: nat :| l.StartsAt(k, i, j);
    var r := Encode(crc, e);
    var l' := AppendLog(crc, l, e);
    CheckEncode(crc, e);
    AppendKeepsPieces(l.segmentSize, |l.files[|l.files| - 1]|, l.pieces, r, i, j);
    assert l'.StartsAt(k, i, j);
  }

  /** The new entry starts where the last file ended. */
  lemma {:induction false} AppendStart(crc: Checksum, l: Log, e: WalEntry)
    requires l.Shape(crc) && CanAppend(l, e) && AppendLog(crc, l, e).Shape(crc)
    ensures AppendLog(crc, l, e).HasStart(|l.entries|)
  {
    hide Encode, FileOk, PieceOk, AllGood, AppendFiles, AppendPieces, Flat, Stream, Lead, GoodPrefix;
    var n := |l.files| - 1;
    var p := l.pieces[n];
    var j := |p.recs|;
    var r := Encode(crc, e);
    var l' := AppendLog(crc, l, e);
    CheckEncode(crc, e);
    LastFileIsWhole(l.segmentSize, l.files, l.pieces);
    AppendKeepsPieces(l.segmentSize, |l.files[n]|, l.pieces, r, n, j);
    assert p.recs[..j] == p.recs;
    FlatSnoc(l.pieces, n + 1);
    assert l.pieces[..n + 1] == l.pieces;
    GoodPrefixWhole(crc, Flat(l.pieces));
    assert l'.StartsAt(|l.entries|, n, j);
  }

  lemma {:induction false} LastFileIsWhole(segmentSize: nat, files: seq<seq<byte>>, pieces: seq<Piece>)
    requires Layout(segmentSize, files, pieces)
    ensures
      var p := pieces[|pieces| - 1];
      && (p.split ==> |p.recs| > 0)
      && |files[|files| - 1]| == InFile(p, |Stream(p.recs)|) <= segmentSize
  {
    hide FromLE, Stream;
    var n := |files| - 1;
    assert FileOk(segmentSize, files[n], pieces[n], Next(pieces, n)) && Next(pieces, n) == None;
    LastFileIsStream(segmentSize, files[n], pieces[n]);
  }

  /** The invariant of the log over every run of appends. */
  lemma {:induction false} AppendInv(crc: Checksum, l: Log, e: WalEntry)
    requires l.Inv(crc) && CanAppend(l, e)
    ensures AppendLog(crc, l, e).Inv(crc)
  {
    hide Encode, FileOk, PieceOk, AllGood, AppendFiles, AppendPieces, Flat, Stream, Lead, GoodPrefix, Log.HasStart;
    var l' := AppendLog(crc, l, e);
    AppendShape(crc, l, e);
    AppendAdvances(crc, l, e);
    forall k | 0 <= k < |l'.entries| ensures l'.HasStart(k) {
      if k < |l.entries| {
        AppendKeepsStart(crc, l, e, k);
      } else {
        AppendStart(crc, l, e);
      }
    }
  }
}
