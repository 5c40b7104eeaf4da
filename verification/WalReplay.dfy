/** Replay of a suffix of the log: recovery from the sequence number of any logged entry. */
module WalReplay {
  import opened Bytes
  import opened Options
  import opened WalRecord
  import opened WalScan
  import opened WalLayout
  import opened WalAppend
  import opened WalNames
  import opened WalLog

  lemma {:induction false} LayoutSuffix(segmentSize: nat, files: seq<seq<byte>>, pieces: seq<Piece>, i: nat)
    requires Layout(segmentSize, files, pieces) && i < |files|
    ensures Layout(segmentSize, files[i..], pieces[i..])
  {
    hide FileOk, PieceOk;
    forall m | 0 <= m < |files| - i
      ensures PieceOk(pieces[i..][m]) && FileOk(segmentSize, files[i..][m], pieces[i..][m], Next(pieces[i..], m))
    {
      assert FileOk(segmentSize, files[i + m], pieces[i + m], Next(pieces, i + m));
      assert Next(pieces[i..], m) == Next(pieces, i + m);
    }
  }

  /** Reading one file from behind its first `j` records. */
  lemma {:induction false} ScanFileBehind(crc: Checksum, segmentSize: nat, file: LogFile, p: Piece, next: Option<Piece>,
                                          j: nat)
    requires PieceOk(p) && (next.Some? ==> PieceOk(next.value)) && FileOk(segmentSize, file.bytes, p, next)
    requires j <= |p.recs| && (p.split ==> j > 0) && AllGood(crc, p.recs[j..])
    ensures ScanFile(crc, file, InFile(p, |Stream(p.recs[..j])|), None) ==
            ScanResult(GoodPrefix(crc, p.recs[j..]),
                       if next.Some? && next.value.split
                       then Partial(PartialEntry(file.path, InFile(p, |Stream(p.recs)|), Lead(next.value)))
                       else Complete)
  {
    hide Check, FromLE, Parse, GoodPrefix, Stream;
    var all := Lead(p) + file.bytes;
    var tail := all[|Stream(p.recs)|..];
    var at := InFile(p, |Stream(p.recs[..j])|);
    StreamTake(p.recs, j);
    if p.split {
      StreamAtLeast(p.recs, j);
    }
    assert all == Stream(p.recs) + tail;
    assert file.bytes[at..] == all[|Lead(p)| + at..] == Stream(p.recs[j..]) + tail;
    ParseStream(crc, file.path, p.recs[j..], tail);
    if next.Some? && next.value.split {
      ParseTorn(crc, file.path, next.value.recs[0], tail);
    } else {
      ParseShort(crc, file.path, tail);
    }
  }

  lemma {:induction false} ScanHead(crc: Checksum, file: LogFile, rest: seq<LogFile>, offset: nat)
    ensures
      var r := ScanFile(crc, file, offset, None);
      && (r.outcome.Complete? ==> Scan(crc, [file] + rest, offset, None) == Prepend(r.entries, Scan(crc, rest, 0, None)))
      && (r.outcome.Partial? ==> Scan(crc, [file] + rest, offset, None) ==
                                 Prepend(r.entries, Scan(crc, rest, 0, Some(r.outcome.entry))))
  {
    hide ScanFile;
    assert ([file] + rest)[1..] == rest;
  }

  /** Recovery started behind the first `j` records of file `i` yields all records from there on. */
  lemma {:induction false} RecoverFrom(crc: Checksum, segmentSize: nat, files: seq<LogFile>, pieces: seq<Piece>, i: nat,
                                       j: nat)
    requires Layout(segmentSize, Contents(files), pieces) && i < |files| && j <= |pieces[i].recs|
    requires pieces[i].split ==> j > 0
    requires AllGood(crc, pieces[i].recs[j..] + Flat(pieces[i + 1..]))
    ensures Scan(crc, files[i..], InFile(pieces[i], |Stream(pieces[i].recs[..j])|), None) ==
            ScanResult(GoodPrefix(crc, pieces[i].recs[j..] + Flat(pieces[i + 1..])), Complete)
  {
    hide Check, IsFrame, GoodPrefix, Scan, ScanFile, FileOk, Stream, Lead, Contents;
    var p := pieces[i];
    var rest := files[i + 1..];
    AllGoodParts(crc, p.recs[j..], Flat(pieces[i + 1..]));
    ScanFileBehind(crc, segmentSize, files[i], p, Next(pieces, i), j);
    assert files[i..] == [files[i]] + rest;
    ScanHead(crc, files[i], rest, InFile(p, |Stream(p.recs[..j])|));
    GoodPrefixConcat(crc, p.recs[j..], Flat(pieces[i + 1..]));
    RecoverRest(crc, segmentSize, files, pieces, i + 1, Handed(files[i], p, Next(pieces, i)));
  }

  lemma {:induction false} RecoverRest(crc: Checksum, segmentSize: nat, files: seq<LogFile>, pieces: seq<Piece>, i: nat,
                                       carry: Option<PartialEntry>)
    requires Layout(segmentSize, Contents(files), pieces) && i <= |files| && AllGood(crc, Flat(pieces[i..]))
    requires if i < |files| then Carries(carry, pieces[i]) else carry == None
    ensures Scan(crc, files[i..], 0, carry) == ScanResult(GoodPrefix(crc, Flat(pieces[i..])), Complete)
  {
    hide Check, IsFrame, GoodPrefix, FileOk, Flat;
    if i < |files| {
      LayoutSuffix(segmentSize, Contents(files), pieces, i);
      assert Contents(files[i..]) == Contents(files)[i..];
      var fs, ps := files[i..], pieces[i..];
      assert fs[..|fs|] + [] == fs && ps[..|fs|] == ps;
      ScanPrefix(crc, segmentSize, fs, ps, carry, |fs|, []);
      assert Next(ps, |fs| - 1) == None;
    } else {
      FlatEmpty();
      GoodPrefixEmpty(crc);
    }
  }

  lemma {:induction false} GoodPrefixDrop(crc: Checksum, a: seq<Raw>, b: seq<Raw>)
    requires AllGood(crc, a + b)
    ensures |GoodPrefix(crc, a + b)| >= |a| && GoodPrefix(crc, a + b)[|a|..] == GoodPrefix(crc, b)
  {
    hide Check, GoodPrefix;
    AllGoodParts(crc, a, b);
    GoodPrefixConcat(crc, a, b);
    GoodPrefixWhole(crc, a);
  }

  /** The files hold what the log's segments hold, under whatever names. */
  ghost predicate ContentsAre(l: Log, files: seq<LogFile>) {
    Contents(files) == l.files
  }

  /** `a` is the first segment that covers a sequence number not below `lsn`. */
  ghost predicate FirstCovering(l: Log, lsn: nat, a: nat) {
    && a <= |l.numbers|
    && (forall b :: 0 <= b < a ==> (l.numbers[b] + 1) * l.segmentSize <= lsn)
    && (a < |l.numbers| ==> lsn < (l.numbers[a] + 1) * l.segmentSize)
  }

  /** Where entry `k` starts, as the segment covering its sequence number and the offset recovery starts at. */
  lemma {:induction false} StartOfEntry(crc: Checksum, l: Log, k: nat, a: nat) returns (i: nat, j: nat)
    requires l.Inv(crc) && k < |l.entries| && FirstCovering(l, l.entries[k].lsn, a)
    ensures i < |l.pieces| && j <= |l.pieces[i].recs| && (l.pieces[i].split ==> j > 0)
    ensures PieceOk(l.pieces[i])
    ensures |Flat(l.pieces[..i])| + j == k && i == a
    ensures InFile(l.pieces[i], |Stream(l.pieces[i].recs[..j])|) == l.entries[k].lsn % l.segmentSize
  {
    hide FileOk, PieceOk, AllGood, Flat, Stream, Lead, GoodPrefix;
    assert l.HasStart(k);
    i, j :| l.StartsAt(k, i, j);
    var at := InFile(l.pieces[i], |Stream(l.pieces[i].recs[..j])|);
    StartWithin(crc, l, i, j);
    if at < l.segmentSize {
      DivUnique(l.entries[k].lsn, l.segmentSize, l.numbers[i], at);
      FirstCoveringIs(l, i, at, a);
    } else {
      StartBehindFullFile(crc, l, k, i, j);
      FlatSnoc(l.pieces, i + 1);
      FirstCoveringNext(l, i, a);
      i, j := i + 1, 0;
      StreamEmpty(l.pieces[i].recs[..0]);
    }
  }

  lemma {:induction false} FirstCoveringIs(l: Log, i: nat, at: nat, a: nat)
    requires forall m, n :: 0 <= m < n < |l.numbers| ==> l.numbers[m] < l.numbers[n]
    requires i < |l.numbers| && at < l.segmentSize
    requires FirstCovering(l, l.numbers[i] * l.segmentSize + at, a)
    ensures a == i
  {
    MulPlus(l.numbers[i], 1, l.segmentSize);
    if a < i {
      MulAtLeast(l.numbers[i], l.numbers[a] + 1, l.segmentSize);
    }
  }

  lemma {:induction false} FirstCoveringNext(l: Log, i: nat, a: nat)
    requires forall m, n :: 0 <= m < n < |l.numbers| ==> l.numbers[m] < l.numbers[n]
    requires i + 1 < |l.numbers| && l.segmentSize > 0
    requires FirstCovering(l, l.numbers[i] * l.segmentSize + l.segmentSize, a)
    ensures a == i + 1
    ensures (l.numbers[i] * l.segmentSize + l.segmentSize) % l.segmentSize == 0
  {
    var n, size := l.numbers[i], l.segmentSize;
    MulPlus(n, 1, size);
    MulPlus(n + 1, 1, size);
    DivUnique((n + 1) * size, size, n + 1, 0);
    assert (n + 1) * size == n * size + size;
    if a <= i {
      assert n >= l.numbers[a];
      MulAtLeast(n + 1, l.numbers[a] + 1, size);
    } else if a > i + 1 {
      assert (l.numbers[i + 1] + 1) * size <= n * size + size;
      MulAtLeast(l.numbers[i + 1] + 1, n + 2, size);
    }
  }

  lemma {:induction false} StartWithin(crc: Checksum, l: Log, i: nat, j: nat)
    requires l.Shape(crc) && i < |l.pieces| && j <= |l.pieces[i].recs| && (l.pieces[i].split ==> j > 0)
    ensures PieceOk(l.pieces[i])
    ensures InFile(l.pieces[i], |Stream(l.pieces[i].recs[..j])|) <= |l.files[i]| <= l.segmentSize
    ensures InFile(l.pieces[i], |Stream(l.pieces[i].recs[..j])|) == l.segmentSize && j == |l.pieces[i].recs| && i + 1 < |l.pieces|
            ==> !l.pieces[i + 1].split
    ensures InFile(l.pieces[i], |Stream(l.pieces[i].recs[..j])|) == l.segmentSize ==> j == |l.pieces[i].recs|
  {
    hide FromLE, Stream, AllGood, GoodPrefix, Flat;
    var p := l.pieces[i];
    assert FileOk(l.segmentSize, l.files[i], p, Next(l.pieces, i));
    StreamTake(p.recs, j);
    if p.split {
      StreamAtLeast(p.recs, j);
    }
    if j < |p.recs| {
      StreamNext(p.recs, j);
    } else {
      assert p.recs[..j] == p.recs;
    }
  }

  /** A start at the very end of a full file: the entry is the first of the next file. */
  lemma {:induction false} StartBehindFullFile(crc: Checksum, l: Log, k: nat, i: nat, j: nat)
    requires l.Shape(crc) && k < |l.entries| && l.StartsAt(k, i, j)
    requires InFile(l.pieces[i], |Stream(l.pieces[i].recs[..j])|) == l.segmentSize
    ensures i + 1 < |l.pieces| && !l.pieces[i + 1].split && j == |l.pieces[i].recs|
  {
    hide FileOk, PieceOk, AllGood, Flat, Stream, Lead, GoodPrefix;
    StartWithin(crc, l, i, j);
    GoodPrefixWhole(crc, Flat(l.pieces));
    FlatFrom(l.pieces, i, j);
    FlatBehind(l.pieces, i);
  }

  lemma {:induction false} FlatBehind(pieces: seq<Piece>, i: nat)
    requires i < |pieces|
    ensures i + 1 == |pieces| ==> Flat(pieces[i + 1..]) == []
  {
  }

  /** Sequence numbers a restart may ask for: that of any entry, or the beginning of the log. */
  ghost predicate RestartsFrom(l: Log, lsn: nat, k: nat) {
    || (k < |l.entries| && lsn == l.entries[k].lsn)
    || (k == 0 && l.numbers != [] && lsn == l.numbers[0] * l.segmentSize)
  }

  lemma {:induction false} StartOfRestart(crc: Checksum, l: Log, lsn: nat, k: nat, a: nat) returns (j: nat)
    requires l.Inv(crc) && RestartsFrom(l, lsn, k) && FirstCovering(l, lsn, a)
    ensures a < |l.pieces| == |l.files| && j <= |l.pieces[a].recs| && (l.pieces[a].split ==> j > 0)
    ensures PieceOk(l.pieces[a])
    ensures |Flat(l.pieces[..a])| + j == k && l.segmentSize > 0
    ensures InFile(l.pieces[a], |Stream(l.pieces[a].recs[..j])|) == lsn % l.segmentSize
  {
    hide FileOk, IsFrame, AllGood, Flat, Stream, GoodPrefix;
    if k < |l.entries| && lsn == l.entries[k].lsn {
      var i;
      i, j := StartOfEntry(crc, l, k, a);
    } else {
      j := 0;
      FirstCoveringIs(l, 0, 0, a);
      DivUnique(lsn, l.segmentSize, l.numbers[0], 0);
      FlatEmpty();
      StreamEmpty(l.pieces[0].recs[..0]);
    }
  }

  /**
   * Recovery from the sequence number of entry `k`, over the segments from the one that covers it on, replays
   * exactly the entries from `k` on: also when the record is split, or its number lies in a padded tail.
   */
  lemma {:induction false} ReplayFromEntry(crc: Checksum, l: Log, files: seq<LogFile>, lsn: nat, k: nat, a: nat)
    requires l.Inv(crc) && ContentsAre(l, files) && RestartsFrom(l, lsn, k) && FirstCovering(l, lsn, a)
    ensures a < |files| && k <= |l.entries|
    ensures Scan(crc, files[a..], lsn % l.segmentSize, None) == ScanResult(l.entries[k..], Complete)
  {
    hide FileOk, PieceOk, AllGood, Flat, Stream, Lead, GoodPrefix, Scan, Contents;
    var j := StartOfRestart(crc, l, lsn, k, a);
    var recs := l.pieces[a].recs[j..] + Flat(l.pieces[a + 1..]);
    FlatFrom(l.pieces, a, j);
    AllGoodParts(crc, Before(l.pieces, a, j), recs);
    GoodPrefixDrop(crc, Before(l.pieces, a, j), recs);
    assert |Before(l.pieces, a, j)| == k;
    RecoverFrom(crc, l.segmentSize, files, l.pieces, a, j);
  }

  /** Recovery of the whole log from its beginning. */
  lemma {:induction false} ReplayAll(crc: Checksum, l: Log, files: seq<LogFile>)
    requires l.Inv(crc) && ContentsAre(l, files)
    ensures Scan(crc, files, 0, None) == ScanResult(l.entries, Complete)
  {
    RecoverIntact(crc, l.segmentSize, files, l.pieces);
  }

  // ---------- whole runs ----------

  /** The entries can be appended one after another. */
  ghost predicate CanAppendAll(crc: Checksum, l: Log, es: seq<WalEntry>)
    decreases |es|
  {
    es != [] ==>
      && |l.numbers| == |l.files| == |l.pieces| > 0 && l.segmentSize > 0 && CanAppend(l, es[0])
      && CanAppendAll(crc, AppendLog(crc, l, es[0]), es[1..])
  }

  ghost function AppendAll(crc: Checksum, l: Log, es: seq<WalEntry>): Log
    requires CanAppendAll(crc, l, es)
    decreases |es|
  {
    if es == [] then l else AppendAll(crc, AppendLog(crc, l, es[0]), es[1..])
  }

  lemma {:induction false} AppendAllInv(crc: Checksum, l: Log, es: seq<WalEntry>)
    requires l.Inv(crc) && CanAppendAll(crc, l, es)
    ensures AppendAll(crc, l, es).Inv(crc) && AppendAll(crc, l, es).entries == l.entries + es
    decreases |es|
  {
    hide Log.Inv, CanAppend, AppendLog;
    if es != [] {
      AppendInv(crc, l, es[0]);
      AppendedEntries(crc, l, es[0]);
      AppendAllInv(crc, AppendLog(crc, l, es[0]), es[1..]);
      FirstAndRest(l.entries, es);
    } else {
      assert l.entries + es == l.entries;
    }
  }

  lemma {:induction false} AppendedEntries(crc: Checksum, l: Log, e: WalEntry)
    requires |l.numbers| == |l.files| == |l.pieces| > 0 && l.segmentSize > 0 && CanAppend(l, e)
    ensures AppendLog(crc, l, e).entries == l.entries + [e]
  {
    hide AppendFiles, AppendPieces, SegmentOf, Encode;
  }

  lemma {:induction false} FirstAndRest(a: seq<WalEntry>, es: seq<WalEntry>)
    requires es != []
    ensures (a + [es[0]]) + es[1..] == a + es
  {
  }

  /**
   * Clean-log recovery: whatever entries are appended to an empty log, with any mix of fitting, split and moved records
   * over any number of segments, recovery returns exactly them, in order.
   */
  lemma {:induction false} CleanRecovery(crc: Checksum, segmentSize: nat, es: seq<WalEntry>, files: seq<LogFile>)
    requires segmentSize > 0 && CanAppendAll(crc, EmptyLog(segmentSize), es)
    requires ContentsAre(AppendAll(crc, EmptyLog(segmentSize), es), files)
    ensures Scan(crc, files, 0, None) == ScanResult(es, Complete)
  {
    hide Log.Inv, CanAppend, Scan, CanAppendAll, AppendAll;
    EmptyLogInv(crc, segmentSize);
    AppendAllInv(crc, EmptyLog(segmentSize), es);
    assert [] + es == es;
    ReplayAll(crc, AppendAll(crc, EmptyLog(segmentSize), es), files);
  }
}
