/** Truncating the log at the start of a record leaves a log that satisfies the invariant again. */
module WalTruncate {
  import opened Bytes
  import opened WalRecord
  import opened WalLayout
  import opened WalNames
  import opened WalLog
  import opened WalReplay

  /** The log cut at the start of record `j` of file `i`. */
  function TruncatedLog(l: Log, i: nat, j: nat): Log
    requires |l.files| == |l.pieces| == |l.numbers| && i < |l.pieces| && j <= |l.pieces[i].recs|
    requires forall k :: 0 <= k < |l.pieces| ==> PieceOk(l.pieces[k])
    requires l.pieces[i].split && j == 0 ==> i > 0
    requires |Before(l.pieces, i, j)| <= |l.entries|
  {
    var pieces := TruncatedPieces(l.pieces, i, j);
    Log(l.segmentSize, l.numbers[..if l.pieces[i].split && j == 0 then i else i + 1], TruncatedFiles(l.files, l.pieces, i, j), pieces,
        l.entries[..|Before(l.pieces, i, j)|])
  }

  lemma {:induction false} CanTruncate(crc: Checksum, l: Log, i: nat, j: nat)
    requires l.Shape(crc) && i < |l.pieces| && j < |l.pieces[i].recs|
    ensures |l.files| == |l.pieces| == |l.numbers| && forall k :: 0 <= k < |l.pieces| ==> PieceOk(l.pieces[k])
    ensures l.pieces[i].split && j == 0 ==> i > 0
    ensures |Before(l.pieces, i, j)| < |l.entries|
    ensures AllGood(crc, Before(l.pieces, i, j))
    ensures l.entries[..|Before(l.pieces, i, j)|] == GoodPrefix(crc, Before(l.pieces, i, j))
  {
    hide FileOk, AllGood, Flat, Stream, Lead, GoodPrefix;
    FlatFrom(l.pieces, i, j);
    var rest := l.pieces[i].recs[j..] + Flat(l.pieces[i + 1..]);
    GoodPrefixWhole(crc, Flat(l.pieces));
    AllGoodParts(crc, Before(l.pieces, i, j), rest);
    GoodPrefixConcat(crc, Before(l.pieces, i, j), rest);
    GoodPrefixWhole(crc, Before(l.pieces, i, j));
  }

  lemma {:induction false} TruncatedShape(crc: Checksum, l: Log, i: nat, j: nat)
    requires l.Shape(crc) && i < |l.pieces| && j < |l.pieces[i].recs|
    ensures |l.files| == |l.pieces| == |l.numbers| && forall k :: 0 <= k < |l.pieces| ==> PieceOk(l.pieces[k])
    ensures (l.pieces[i].split && j == 0 ==> i > 0) && |Before(l.pieces, i, j)| <= |l.entries|
    ensures TruncatedLog(l, i, j).Shape(crc)
  {
    hide FileOk, AllGood, Flat, Stream, Lead, GoodPrefix;
    CanTruncate(crc, l, i, j);
    TruncateLayout(l.segmentSize, l.files, l.pieces, i, j);
  }

  lemma {:induction false} FlatGrows(pieces: seq<Piece>, a: nat, b: nat)
    requires a < b <= |pieces|
    ensures |Flat(pieces[..a])| + |pieces[a].recs| <= |Flat(pieces[..b])|
    decreases b
  {
    hide Flat;
    FlatSnoc(pieces, b);
    if a < b - 1 {
      FlatGrows(pieces, a, b - 1);
    }
  }

  lemma {:induction false} PieceKept(pieces: seq<Piece>, i: nat, j: nat, a: nat, b: nat)
    requires forall k :: 0 <= k < |pieces| ==> PieceOk(pieces[k])
    requires i < |pieces| && j <= |pieces[i].recs|
    requires forall k :: 0 <= k < |TruncatedPieces(pieces, i, j)| ==> PieceOk(TruncatedPieces(pieces, i, j)[k])
    requires a < |pieces| && b <= |pieces[a].recs| && (pieces[a].split ==> b > 0)
    requires |Flat(pieces[..a])| + b < |Flat(pieces[..i])| + j
    ensures
      var ps := TruncatedPieces(pieces, i, j);
      && a < |ps| && b <= |ps[a].recs| && ps[a].split == pieces[a].split
      && PieceOk(ps[a]) && Lead(ps[a]) == Lead(pieces[a])
      && ps[a].recs[..b] == pieces[a].recs[..b]
      && ps[..a] == pieces[..a]
  {
    hide Flat, IsFrame, FromLE;
    var ps := TruncatedPieces(pieces, i, j);
    if a > i {
      FlatGrows(pieces, i, a);
    }
    assert ps[..a] == pieces[..a];
    if a == i {
      assert ps[a].recs == pieces[a].recs[..j];
      assert ps[a].recs[..b] == pieces[a].recs[..b];
    } else {
      assert ps[a] == pieces[a];
    }
  }

  /** The entries before the cut start where they did. */
  lemma {:induction false} KeptStart(crc: Checksum, l: Log, i: nat, j: nat, k: nat)
    requires l.Shape(crc) && i < |l.pieces| && j < |l.pieces[i].recs| && |Before(l.pieces, i, j)| < |l.entries|
    requires (forall k :: 0 <= k < |l.pieces| ==> PieceOk(l.pieces[k])) && (l.pieces[i].split && j == 0 ==> i > 0)
    requires TruncatedLog(l, i, j).Shape(crc) && k < |Before(l.pieces, i, j)| && l.HasStart(k)
    ensures TruncatedLog(l, i, j).HasStart(k)
  {
    hide FileOk, PieceOk, AllGood, Flat, Stream, Lead, GoodPrefix, TruncatedFiles, TruncatedPieces;
    var l' := TruncatedLog(l, i, j);
    var a: nat, b: nat :| l.StartsAt(k, a, b);
    PieceKept(l.pieces, i, j, a, b);
    assert l'.StartsAt(k, a, b);
  }

  /** The first entry behind a place in the log starts no later than that place. */
  lemma {:induction false} StartAtMost(crc: Checksum, l: Log, k: nat, p: nat, q: nat)
    requires l.Inv(crc) && k < |l.entries| && p < |l.pieces| && q <= |l.pieces[p].recs| && (l.pieces[p].split ==> q > 0)
    requires |Flat(l.pieces[..p])| + q == k
    requires q < |l.pieces[p].recs| || (p + 1 < |l.pieces| && l.pieces[p + 1].split)
    ensures PieceOk(l.pieces[p]) && l.entries[k].lsn <= l.numbers[p] * l.segmentSize + InFile(l.pieces[p], |Stream(l.pieces[p].recs[..q])|)
  {
    hide FileOk, PieceOk, AllGood, Flat, Stream, Lead, InFile, GoodPrefix;
    assert l.HasStart(k);
    var i: nat, j: nat :| l.StartsAt(k, i, j);
    StartBefore(l.pieces, i, j, p, q);
    if i < p {
      StartWithin(crc, l, i, j);
      MulPlus(l.numbers[i], 1, l.segmentSize);
      MulAtLeast(l.numbers[p], l.numbers[i] + 1, l.segmentSize);
    }
  }

  /** A start with no more records in front of it lies in no later file. */
  lemma {:induction false} StartBefore(pieces: seq<Piece>, i: nat, j: nat, p: nat, q: nat)
    requires forall k :: 0 <= k < |pieces| ==> PieceOk(pieces[k])
    requires i < |pieces| && j <= |pieces[i].recs| && (pieces[i].split ==> j > 0)
    requires p < |pieces| && q <= |pieces[p].recs| && |Flat(pieces[..i])| + j <= |Flat(pieces[..p])| + q
    requires q < |pieces[p].recs| || (p + 1 < |pieces| && pieces[p + 1].split)
    ensures i < p || (i == p && j <= q)
  {
    hide Flat, IsFrame, FromLE;
    FlatSnoc(pieces, p + 1);
    if i > p + 1 {
      FlatGrows(pieces, p + 1, i);
    }
  }

  /** The file a cut leaves as the last one, and how many of its records. */
  function CutPlace(pieces: seq<Piece>, i: nat, j: nat): (nat, nat)
    requires i < |pieces| && j <= |pieces[i].recs| && (pieces[i].split && j == 0 ==> i > 0)
  {
    if pieces[i].split && j == 0 then (i - 1, |pieces[i - 1].recs|) else (i, j)
  }

  lemma {:induction false} CutPlaceMeans(pieces: seq<Piece>, i: nat, j: nat)
    requires forall k :: 0 <= k < |pieces| ==> PieceOk(pieces[k])
    requires i < |pieces| && j < |pieces[i].recs| && (pieces[i].split && j == 0 ==> i > 0)
    ensures
      var (p, q) := CutPlace(pieces, i, j);
      && p < |pieces| && q <= |pieces[p].recs| && (pieces[p].split ==> q > 0)
      && |Flat(pieces[..p])| + q == |Before(pieces, i, j)|
      && (q < |pieces[p].recs| || (p + 1 < |pieces| && pieces[p + 1].split))
  {
    hide Flat, IsFrame, FromLE;
    if pieces[i].split && j == 0 {
      FlatSnoc(pieces, i);
      assert PieceOk(pieces[i - 1]);
    }
  }

  lemma {:induction false} TruncatedNext(l: Log, i: nat, j: nat)
    requires |l.files| == |l.pieces| == |l.numbers| && i < |l.pieces| && j < |l.pieces[i].recs|
    requires forall k :: 0 <= k < |l.pieces| ==> PieceOk(l.pieces[k])
    requires (l.pieces[i].split && j == 0 ==> i > 0) && |Before(l.pieces, i, j)| <= |l.entries|
    ensures
      var (p, q) := CutPlace(l.pieces, i, j);
      && p < |l.pieces| && q <= |l.pieces[p].recs|
      && (InFile(l.pieces[p], |Stream(l.pieces[p].recs[..q])|) <= |l.files[p]| ==>
            TruncatedLog(l, i, j).NextLsn() == l.numbers[p] * l.segmentSize + InFile(l.pieces[p], |Stream(l.pieces[p].recs[..q])|))
  {
    hide Flat, PieceOk, Stream, InFile;
    var (p, q) := CutPlace(l.pieces, i, j);
    assert l.pieces[p].recs[..|l.pieces[p].recs|] == l.pieces[p].recs;
  }

  /** The sequence numbers before the cut lie below the new end of the log. */
  lemma {:induction false} TruncatedIncreasing(crc: Checksum, l: Log, i: nat, j: nat)
    requires l.Inv(crc) && i < |l.pieces| && j < |l.pieces[i].recs| && |Before(l.pieces, i, j)| < |l.entries|
    requires (forall k :: 0 <= k < |l.pieces| ==> PieceOk(l.pieces[k])) && (l.pieces[i].split && j == 0 ==> i > 0)
    ensures TruncatedLog(l, i, j).Increasing()
  {
    hide PieceOk, AllGood, Flat, Stream, Lead, InFile, GoodPrefix, Log.Placed, FileOk, CutTo, CutPlace, Before,
         Log.NextLsn,
         TruncatedFiles, TruncatedPieces;
    var l' := TruncatedLog(l, i, j);
    var k := |Before(l.pieces, i, j)|;
    var (p, q) := CutPlace(l.pieces, i, j);
    CutPlaceMeans(l.pieces, i, j);
    StartAtMost(crc, l, k, p, q);
    StartWithin(crc, l, p, q);
    TruncatedNext(l, i, j);
    forall m | 0 <= m < |l'.entries| ensures l'.entries[m].lsn < l'.NextLsn() {
      assert l.entries[m].lsn < l.entries[k].lsn;
    }
  }

  /** Cutting the log where a record starts gives a log of exactly the records before it, invariant included. */
  lemma {:induction false} TruncateInv(crc: Checksum, l: Log, i: nat, j: nat)
    requires l.Inv(crc) && i < |l.pieces| && j < |l.pieces[i].recs|
    ensures |l.files| == |l.pieces| == |l.numbers| && forall k :: 0 <= k < |l.pieces| ==> PieceOk(l.pieces[k])
    ensures (l.pieces[i].split && j == 0 ==> i > 0) && |Before(l.pieces, i, j)| <= |l.entries|
    ensures TruncatedLog(l, i, j).Inv(crc)
  {
    hide FileOk, PieceOk, AllGood, Flat, Stream, Lead, GoodPrefix, TruncatedFiles, TruncatedPieces, TruncatedLog,
         Before, Log.HasStart;
    CanTruncate(crc, l, i, j);
    TruncatedShape(crc, l, i, j);
    TruncatedIncreasing(crc, l, i, j);
    var l' := TruncatedLog(l, i, j);
    TruncatedEntries(l, i, j);
    forall k | 0 <= k < |l'.entries| ensures l'.HasStart(k) {
      KeptStart(crc, l, i, j, k);
    }
  }

  lemma {:induction false} TruncatedEntries(l: Log, i: nat, j: nat)
    requires |l.files| == |l.pieces| == |l.numbers| && i < |l.pieces| && j <= |l.pieces[i].recs|
    requires forall k :: 0 <= k < |l.pieces| ==> PieceOk(l.pieces[k])
    requires l.pieces[i].split && j == 0 ==> i > 0
    requires |Before(l.pieces, i, j)| <= |l.entries|
    ensures |TruncatedLog(l, i, j).entries| == |Before(l.pieces, i, j)|
  {
  }
}
