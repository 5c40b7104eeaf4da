/** Where an append puts a record, and that the log it leaves has the described layout with that record last. */
module WalAppend {
  import opened Bytes
  import opened Options
  import opened WalRecord
  import opened WalLayout

  /** The three cases of the original: the record fits, only its header fits, or nothing of it fits. */
  datatype Placement = Fits | HeaderOnly | Moved

  function PlacementOf(segmentSize: nat, size: nat, recordLen: nat): Placement {
    if size + recordLen <= segmentSize then Fits
    else if size + HEADER_SIZE <= segmentSize then HeaderOnly
    else Moved
  }

  /** What goes to the next file fits into it; otherwise the original panics. */
  predicate Placeable(segmentSize: nat, size: nat, recordLen: nat) {
    match PlacementOf(segmentSize, size, recordLen)
    case Fits => true
    case HeaderOnly => recordLen <= segmentSize + HEADER_SIZE
    case Moved => recordLen <= segmentSize
  }

  function AppendFiles(segmentSize: nat, files: seq<seq<byte>>, r: Raw): (fs: seq<seq<byte>>)
    requires files != [] && |files[|files| - 1]| <= segmentSize && |r| >= HEADER_SIZE
    ensures fs != [] && |files| <= |fs| <= |files| + 1
  {
    var n := |files| - 1;
    var free := segmentSize - |files[n]|;
    match PlacementOf(segmentSize, |files[n]|, |r|)
    case Fits => files[..n] + [files[n] + r]
    case HeaderOnly => files[..n] + [files[n] + r[..HEADER_SIZE] + Zeros(free - HEADER_SIZE), r[HEADER_SIZE..]]
    case Moved => files[..n] + [files[n] + Zeros(free), r]
  }

  function AppendPieces(segmentSize: nat, size: nat, pieces: seq<Piece>, r: Raw): seq<Piece>
    requires pieces != []
  {
    var n := |pieces| - 1;
    match PlacementOf(segmentSize, size, |r|)
    case Fits => pieces[..n] + [Piece(pieces[n].split, pieces[n].recs + [r])]
    case HeaderOnly => pieces + [Piece(true, [r])]
    case Moved => pieces + [Piece(false, [r])]
  }

  lemma {:induction false} StreamOne(r: Raw)
    ensures Stream([r]) == r
  {
    StreamEmpty([r][1..]);
  }

  /** The last file ends with its last record. */
  lemma {:induction false} LastFileIsStream(segmentSize: nat, file: seq<byte>, p: Piece)
    requires PieceOk(p) && FileOk(segmentSize, file, p, None)
    ensures Lead(p) + file == Stream(p.recs) && |file| <= segmentSize
  {
  }

  lemma {:induction false} ExtendedFileOk(segmentSize: nat, file: seq<byte>, p: Piece, r: Raw)
    requires PieceOk(p) && IsFrame(r) && FileOk(segmentSize, file, p, None) && |file| + |r| <= segmentSize
    ensures
      var q := Piece(p.split, p.recs + [r]);
      PieceOk(q) && FileOk(segmentSize, file + r, q, None)
  {
    hide IsFrame, Stream;
    LastFileIsStream(segmentSize, file, p);
    StreamConcat(p.recs, [r]);
    StreamOne(r);
    var q := Piece(p.split, p.recs + [r]);
    assert Lead(q) == Lead(p);
    assert Lead(q) + (file + r) == Stream(q.recs);
  }

  lemma {:induction false} ClosedFileOk(segmentSize: nat, file: seq<byte>, p: Piece, q: Piece, tail: seq<byte>)
    requires PieceOk(p) && PieceOk(q) && FileOk(segmentSize, file, p, None) && |file| + |tail| == segmentSize
    requires if q.split then HEADER_SIZE <= |tail| < |q.recs[0]| && tail[..HEADER_SIZE] == Lead(q)
             else |tail| < HEADER_SIZE
    ensures FileOk(segmentSize, file + tail, p, Some(q))
  {
    hide IsFrame, Stream;
    LastFileIsStream(segmentSize, file, p);
    assert Lead(p) + (file + tail) == Stream(p.recs) + tail;
  }

  lemma {:induction false} NewFileOk(segmentSize: nat, r: Raw, split: bool)
    requires IsFrame(r) && |r| <= segmentSize + (if split then HEADER_SIZE else 0)
    ensures
      var q := Piece(split, [r]);
      PieceOk(q) && FileOk(segmentSize, if split then r[HEADER_SIZE..] else r, q, None)
  {
    hide FromLE, Stream;
    var q := Piece(split, [r]);
    StreamOne(r);
    assert Lead(q) + (if split then r[HEADER_SIZE..] else r) == r;
  }

  /** Every append keeps the layout, and adds its record behind all others. */
  lemma {:induction false} AppendLayout(segmentSize: nat, files: seq<seq<byte>>, pieces: seq<Piece>, r: Raw)
    requires Layout(segmentSize, files, pieces) && IsFrame(r)
    requires |files[|files| - 1]| <= segmentSize && Placeable(segmentSize, |files[|files| - 1]|, |r|)
    ensures
      var ps := AppendPieces(segmentSize, |files[|files| - 1]|, pieces, r);
      Layout(segmentSize, AppendFiles(segmentSize, files, r), ps) && Flat(ps) == Flat(pieces) + [r]
      && ps[0].split == pieces[0].split
  {
    hide FromLE, Stream, FileOk, Flat, Lead;
    var n := |files| - 1;
    var size := |files[n]|;
    var free := segmentSize - size;
    var fs := AppendFiles(segmentSize, files, r);
    var ps := AppendPieces(segmentSize, size, pieces, r);
    assert Next(pieces, n) == None;
    match PlacementOf(segmentSize, size, |r|) {
      case Fits =>
        ExtendedFileOk(segmentSize, files[n], pieces[n], r);
      case HeaderOnly =>
        NewFileOk(segmentSize, r, true);
        var tail := r[..HEADER_SIZE] + Zeros(free - HEADER_SIZE);
        LeadOfNew(r);
        ClosedFileOk(segmentSize, files[n], pieces[n], ps[n + 1], tail);
        assert fs[n] == files[n] + tail;
      case Moved =>
        NewFileOk(segmentSize, r, false);
        ClosedFileOk(segmentSize, files[n], pieces[n], ps[n + 1], Zeros(free));
    }
    forall k | 0 <= k < n
      ensures PieceOk(ps[k]) && FileOk(segmentSize, fs[k], ps[k], Next(ps, k))
    {
      FileOkSameLead(segmentSize, files[k], pieces[k], Next(pieces, k), Next(ps, k));
    }
    AppendFlat(segmentSize, size, pieces, r);
  }

  lemma {:induction false} LeadOfNew(r: Raw)
    requires IsFrame(r)
    ensures PieceOk(Piece(true, [r])) && Lead(Piece(true, [r])) == r[..HEADER_SIZE]
  {
  }

  lemma {:induction false} AppendFlat(segmentSize: nat, size: nat, pieces: seq<Piece>, r: Raw)
    requires pieces != []
    ensures Flat(AppendPieces(segmentSize, size, pieces, r)) == Flat(pieces) + [r]
  {
    hide PlacementOf, Flat;
    var ps := AppendPieces(segmentSize, size, pieces, r);
    FlatSnoc(ps, |ps|);
    FlatSnoc(pieces, |pieces|);
    assert ps[..|ps|] == ps && pieces[..|pieces|] == pieces;
    if |ps| == |pieces| {
      assert ps[..|ps| - 1] == pieces[..|ps| - 1];
    } else {
      assert ps[..|ps| - 1] == pieces;
    }
  }
}
