/**
 * Restart on a damaged or torn log, from any entry before the damage: what is read and what is reported. The first
 * file is read from an offset behind some of its records, all later ones from their beginning.
 */
module WalDamage {
  import opened Bytes
  import opened Options
  import opened WalRecord
  import opened WalScan
  import opened WalLayout
  import opened WalReplay

  // ---------- one file, from behind its first records ----------

  /** Offsets count from the beginning of the file again. */
  lemma {:induction false} ReadBehind(crc: Checksum, file: LogFile, p: Piece, j: nat, rest: seq<byte>)
    requires PieceOk(p) && j <= |p.recs| && (p.split ==> j > 0)
    requires Lead(p) + file.bytes == Stream(p.recs[..j]) + rest
    ensures
      var at := InFile(p, |Stream(p.recs[..j])|);
      var r := Parse(crc, file.path, rest);
      ScanFile(crc, file, at, None) == ScanResult(r.entries, Shift(r.outcome, at))
  {
    hide FromLE, Parse, Stream, IsFrame;
    if p.split {
      StreamAtLeast(p.recs, j);
    }
    var at := InFile(p, |Stream(p.recs[..j])|);
    assert at + |Lead(p)| == |Stream(p.recs[..j])|;
    DropBoth(Lead(p), file.bytes, Stream(p.recs[..j]), rest);
    assert file.bytes[at..] == rest;
  }

  lemma {:induction false} DropBoth<T>(a: seq<T>, b: seq<T>, c: seq<T>, d: seq<T>)
    requires a + b == c + d && |a| <= |c|
    ensures |c| - |a| <= |b| && b[|c| - |a|..] == d
  {
    assert (a + b)[|c|..] == b[|c| - |a|..];
    assert (c + d)[|c|..] == d;
  }

  lemma {:induction false} StreamBetween(recs: seq<Raw>, a: nat, b: nat)
    requires a <= b <= |recs|
    ensures Stream(recs[..b]) == Stream(recs[..a]) + Stream(recs[a..b])
  {
    assert recs[..b][..a] == recs[..a] && recs[..b][a..] == recs[a..b];
    StreamTake(recs[..b], a);
  }

  /** Where record `b` starts, seen from record `a`. */
  lemma {:induction false} InFileFrom(p: Piece, a: nat, b: nat)
    requires PieceOk(p) && a <= b <= |p.recs| && (p.split ==> a > 0)
    ensures InFile(p, |Stream(p.recs[..a])|) + |Stream(p.recs[a..b])| == InFile(p, |Stream(p.recs[..b])|)
  {
    hide Stream, IsFrame;
    StreamBetween(p.recs, a, b);
    if p.split {
      StreamAtLeast(p.recs, a);
    }
  }

  lemma {:induction false} ScanBadBehind(crc: Checksum, file: LogFile, p: Piece, a: nat, j: nat, rest: seq<LogFile>)
    requires PieceOk(p) && Stream(p.recs) <= Lead(p) + file.bytes && a <= j < |p.recs| && (p.split ==> a > 0)
    requires AllGood(crc, p.recs[a..j]) && Check(crc, p.recs[j]).Bad?
    ensures Scan(crc, [file] + rest, InFile(p, |Stream(p.recs[..a])|), None) ==
            ScanResult(GoodPrefix(crc, p.recs[a..j]), Corrupted(file.path, InFile(p, |Stream(p.recs[..j])|)))
  {
    hide Check, IsFrame, Parse, GoodPrefix, Stream, AllGood, Lead, ScanFile, InFile;
    var tail := Stream(p.recs[j + 1..]) + (Lead(p) + file.bytes)[|Stream(p.recs)|..];
    BadBytes(file.bytes, p, a, j);
    assert PieceOk(p) && AllFrames(p.recs[a..j]) && IsFrame(p.recs[j]);
    ReadBehind(crc, file, p, a, Stream(p.recs[a..j]) + (p.recs[j] + tail));
    ParseStream(crc, file.path, p.recs[a..j], p.recs[j] + tail);
    ParseBad(crc, file.path, p.recs[j], tail);
    InFileFrom(p, a, j);
  }

  lemma {:induction false} BadBytes(file: seq<byte>, p: Piece, a: nat, j: nat)
    requires PieceOk(p) && Stream(p.recs) <= Lead(p) + file && a <= j < |p.recs|
    ensures
      var tail := Stream(p.recs[j + 1..]) + (Lead(p) + file)[|Stream(p.recs)|..];
      Lead(p) + file == Stream(p.recs[..a]) + (Stream(p.recs[a..j]) + (p.recs[j] + tail))
  {
    hide IsFrame, Stream, Lead;
    StreamBetween(p.recs, a, j);
    StreamTake(p.recs, j);
    StreamNext(p.recs, j);
    var all, rest := Lead(p) + file, (Lead(p) + file)[|Stream(p.recs)|..];
    assert all == Stream(p.recs) + rest;
  }

  lemma {:induction false} ScanTornBehind(crc: Checksum, segmentSize: nat, file: LogFile, p: Piece, next: Option<Piece>,
                                          a: nat, n: nat)
    requires PieceOk(p) && (next.Some? ==> PieceOk(next.value)) && FileOk(segmentSize, file.bytes, p, next)
    requires n <= |file.bytes| && a <= Whole(p.recs, |Lead(p)| + n) && (p.split ==> a > 0)
    requires AllGood(crc, p.recs[a..Whole(p.recs, |Lead(p)| + n)])
    ensures Scan(crc, [LogFile(file.path, file.bytes[..n])], InFile(p, |Stream(p.recs[..a])|), None) ==
            ScanResult(GoodPrefix(crc, p.recs[a..Whole(p.recs, |Lead(p)| + n)]), TornOutcome(file, p, n))
  {
    hide Check, IsFrame, Parse, GoodPrefix, Stream, AllGood, Lead, ScanFile, InFile, Whole, FileOk;
    var m := Whole(p.recs, |Lead(p)| + n);
    var start := |Stream(p.recs[..m])|;
    WholeFits(p.recs, |Lead(p)| + n);
    var torn := (Lead(p) + file.bytes)[start..|Lead(p)| + n];
    TornBehindBytes(segmentSize, file.bytes, p, next, a, n);
    ReadBehind(crc, LogFile(file.path, file.bytes[..n]), p, a, Stream(p.recs[a..m]) + torn);
    assert AllFrames(p.recs[a..m]);
    ParseStream(crc, file.path, p.recs[a..m], torn);
    ParseTornTail(crc, segmentSize, file, p, next, n);
    InFileFrom(p, a, m);
    ScanOnly(crc, LogFile(file.path, file.bytes[..n]), InFile(p, |Stream(p.recs[..a])|));
  }

  lemma {:induction false} TornBehindBytes(segmentSize: nat, file: seq<byte>, p: Piece, next: Option<Piece>, a: nat,
                                           n: nat)
    requires PieceOk(p) && (next.Some? ==> PieceOk(next.value)) && FileOk(segmentSize, file, p, next)
    requires n <= |file| && a <= Whole(p.recs, |Lead(p)| + n)
    ensures
      var m := Whole(p.recs, |Lead(p)| + n);
      && |Stream(p.recs[..m])| <= |Lead(p)| + n
      && Lead(p) + file[..n] ==
         Stream(p.recs[..a]) + (Stream(p.recs[a..m]) + (Lead(p) + file)[|Stream(p.recs[..m])|..|Lead(p)| + n])
  {
    hide IsFrame, Stream, Lead, Whole, FileOk;
    CutSplit(segmentSize, file, p, next, n);
    StreamBetween(p.recs, a, Whole(p.recs, |Lead(p)| + n));
  }

  /** The torn bytes themselves: too few to be noticed, or the beginning of a record. */
  lemma {:induction false} ParseTornTail(crc: Checksum, segmentSize: nat, file: LogFile, p: Piece, next: Option<Piece>,
                                         n: nat)
    requires PieceOk(p) && (next.Some? ==> PieceOk(next.value)) && FileOk(segmentSize, file.bytes, p, next)
    requires n <= |file.bytes|
    ensures
      var start := |Stream(p.recs[..Whole(p.recs, |Lead(p)| + n)])|;
      && start <= |Lead(p)| + n
      && var torn := (Lead(p) + file.bytes)[start..|Lead(p)| + n];
         && |torn| == TornBytes(p, file.bytes, n)
         && Parse(crc, file.path, torn) ==
            ScanResult([], if |torn| < HEADER_SIZE then Complete else Partial(PartialEntry(file.path, 0, torn[..HEADER_SIZE])))
  {
    hide FromLE, Parse, Whole, Stream, IsFrame, FileOk, Lead;
    WholeFits(p.recs, |Lead(p)| + n);
    var all := Lead(p) + file.bytes;
    var start := |Stream(p.recs[..Whole(p.recs, |Lead(p)| + n)])|;
    var torn := all[start..|Lead(p)| + n];
    if |torn| < HEADER_SIZE {
      ParseShort(crc, file.path, torn);
    } else {
      var r := TornRecord(segmentSize, file.bytes, p, next, n);
      SubSlice(all, start, |Lead(p)| + n, HEADER_SIZE);
      ParseTorn(crc, file.path, r, torn);
    }
  }

  /** A log of one file, read from an offset. */
  lemma {:induction false} ScanOnly(crc: Checksum, file: LogFile, offset: nat)
    ensures var r := ScanFile(crc, file, offset, None);
            Scan(crc, [file], offset, None) ==
            if r.outcome.Partial? then ScanResult(r.entries, Corrupted(r.outcome.entry.path, r.outcome.entry.offset)) else r
  {
    hide ScanFile;
    assert [file][1..] == [];
  }

  // ---------- the files behind the first ----------

  /** The first file is whole: its records from `a` on, then whatever follows. */
  lemma {:induction false} ScanBehindHead(crc: Checksum, segmentSize: nat, files: seq<LogFile>, pieces: seq<Piece>,
                                          a: nat,
                                          j: nat, rest: seq<LogFile>)
    requires Layout(segmentSize, Contents(files), pieces) && a < |files| && j <= |pieces[a].recs|
    requires (pieces[a].split ==> j > 0) && AllGood(crc, pieces[a].recs[j..])
    ensures Scan(crc, [files[a]] + rest, InFile(pieces[a], |Stream(pieces[a].recs[..j])|), None) ==
            Prepend(GoodPrefix(crc, pieces[a].recs[j..]), Scan(crc, rest, 0, Handed(files[a], pieces[a], Next(pieces, a))))
  {
    hide Check, IsFrame, GoodPrefix, Scan, ScanFile, FileOk, Stream, Lead, AllGood, InFile;
    assert Contents(files)[a] == files[a].bytes;
    ScanFileBehind(crc, segmentSize, files[a], pieces[a], Next(pieces, a), j);
    ScanHead(crc, files[a], rest, InFile(pieces[a], |Stream(pieces[a].recs[..j])|));
  }

  /** The records between two places in the log, the first in an earlier file. */
  lemma {:induction false} BetweenParts(pieces: seq<Piece>, a: nat, b: nat, i: nat, j: nat)
    requires a < i < |pieces| && b <= |pieces[a].recs| && j <= |pieces[i].recs|
    ensures Before(pieces, i, j) == Before(pieces, a, b) + (pieces[a].recs[b..] + Before(pieces[a + 1..], i - a - 1, j))
  {
    hide Flat;
    var front := pieces[..i];
    FlatFrom(front, a, b);
    assert front[..a] == pieces[..a] && front[a + 1..] == pieces[a + 1..][..i - a - 1];
  }

  lemma {:induction false} CarryIntoSuffix(files: seq<LogFile>, pieces: seq<Piece>, a: nat, i: nat)
    requires |files| == |pieces| && a < i < |pieces| && (forall k :: 0 <= k < |pieces| ==> PieceOk(pieces[k]))
    ensures CarryInto(files[a + 1..], pieces[a + 1..], i - a - 1, Handed(files[a], pieces[a], Next(pieces, a))) ==
            CarryInto(files, pieces, i, None)
  {
    hide PieceOk, Handed;
    assert Next(pieces[a + 1..], i - a - 1) == Next(pieces, i);
    if i > a + 1 {
      assert Next(pieces[a + 1..], i - a - 2) == Next(pieces, i - 1);
    }
  }

  /** What the first file hands on fits the files behind it. */
  lemma {:induction false} RestIsLayout(segmentSize: nat, files: seq<LogFile>, pieces: seq<Piece>, a: nat)
    requires Layout(segmentSize, Contents(files), pieces) && a + 1 < |pieces|
    ensures Layout(segmentSize, Contents(files[a + 1..]), pieces[a + 1..])
    ensures Carries(Handed(files[a], pieces[a], Next(pieces, a)), pieces[a + 1])
  {
    hide FileOk, PieceOk, Lead;
    LayoutSuffix(segmentSize, Contents(files), pieces, a + 1);
    assert Contents(files[a + 1..]) == Contents(files)[a + 1..];
    assert Next(pieces, a) == Some(pieces[a + 1]);
  }

  lemma {:induction false} LayoutSizes(segmentSize: nat, files: seq<LogFile>, pieces: seq<Piece>)
    requires Layout(segmentSize, Contents(files), pieces)
    ensures |files| == |pieces| > 0 && forall k :: 0 <= k < |pieces| ==> PieceOk(pieces[k])
  {
    hide FileOk, PieceOk;
  }

  /** Two readings put together. */
  lemma {:induction false} GoodBetween(crc: Checksum, front: seq<Raw>, a: seq<Raw>, b: seq<Raw>, o: Outcome)
    requires AllGood(crc, front + (a + b))
    ensures AllGood(crc, a) && AllGood(crc, b)
    ensures |front| <= |GoodPrefix(crc, front + (a + b))|
    ensures Prepend(GoodPrefix(crc, a), ScanResult(GoodPrefix(crc, b), o)) ==
            ScanResult(GoodPrefix(crc, front + (a + b))[|front|..], o)
  {
    hide AllGood, GoodPrefix;
    AllGoodParts(crc, front, a + b);
    AllGoodParts(crc, a, b);
    GoodPrefixDrop(crc, front, a + b);
    GoodPrefixConcat(crc, a, b);
  }

  /** Both places in the same file. */
  lemma {:induction false} GoodWithin(crc: Checksum, pieces: seq<Piece>, i: nat, a: nat, j: nat)
    requires i < |pieces| && a <= j <= |pieces[i].recs| && AllGood(crc, Before(pieces, i, j))
    ensures AllGood(crc, pieces[i].recs[a..j])
    ensures |Before(pieces, i, a)| <= |GoodPrefix(crc, Before(pieces, i, j))|
    ensures GoodPrefix(crc, Before(pieces, i, j))[|Before(pieces, i, a)|..] == GoodPrefix(crc, pieces[i].recs[a..j])
  {
    hide AllGood, GoodPrefix, Flat;
    var front, between := Before(pieces, i, a), pieces[i].recs[a..j];
    assert Before(pieces, i, j) == front + between;
    AllGoodParts(crc, front, between);
    GoodPrefixDrop(crc, front, between);
  }

  // ---------- the whole log ----------

  /** A place in the log a restart can begin at: behind `b` records of file `a`, not behind record `j` of file `i`. */
  predicate Starts(pieces: seq<Piece>, a: nat, b: nat, i: nat, j: nat)
    requires i < |pieces|
  {
    && a < |pieces| && b <= |pieces[a].recs| && (pieces[a].split ==> b > 0)
    && (a < i || (a == i && b <= j))
  }

  /** Recovery of a damaged log from anywhere before the damage, whatever follows the bad record. */
  lemma {:induction false} RecoverDamagedFrom(crc: Checksum, segmentSize: nat, files: seq<LogFile>, pieces: seq<Piece>,
                                              a: nat, b: nat, i: nat, j: nat, to: nat)
    requires Layout(segmentSize, Contents(files), pieces) && !pieces[0].split
    requires i < |pieces| && j < |pieces[i].recs| && Starts(pieces, a, b, i, j) && i < to <= |files|
    requires AllGood(crc, Before(pieces, i, j)) && Check(crc, pieces[i].recs[j]).Bad?
    ensures |Before(pieces, a, b)| <= |GoodPrefix(crc, Before(pieces, i, j))|
    ensures
      var at := Position(files, pieces, i, j);
      Scan(crc, files[a..to], InFile(pieces[a], |Stream(pieces[a].recs[..b])|), None) ==
      ScanResult(GoodPrefix(crc, Before(pieces, i, j))[|Before(pieces, a, b)|..], Corrupted(at.0, at.1))
  {
    hide Check, IsFrame, GoodPrefix, Scan, FileOk, Stream, Lead, AllGood, Before, Position, InFile, PieceOk, Contents;
    if a == i {
      DamagedWithin(crc, segmentSize, files, pieces, b, i, j, files[i + 1..to]);
      SliceHead(files, i, to);
    } else {
      DamagedBehind(crc, segmentSize, files, pieces, a, b, i, j, files[i + 1..to]);
      SliceHead(files, a, to);
      SliceMiddle(files, a + 1, i, to);
    }
  }

  lemma {:induction false} SliceHead<T>(s: seq<T>, a: nat, b: nat)
    requires a < b <= |s|
    ensures s[a..b] == [s[a]] + s[a + 1..b]
  {
  }

  lemma {:induction false} SliceMiddle<T>(s: seq<T>, a: nat, i: nat, b: nat)
    requires a <= i < b <= |s|
    ensures s[a..b] == s[a..i] + ([s[i]] + s[i + 1..b])
  {
  }

  lemma {:induction false} DamagedWithin(crc: Checksum, segmentSize: nat, files: seq<LogFile>, pieces: seq<Piece>,
                                         b: nat, i: nat, j: nat, rest: seq<LogFile>)
    requires Layout(segmentSize, Contents(files), pieces)
    requires i < |pieces| && b <= j < |pieces[i].recs| && (pieces[i].split ==> b > 0)
    requires AllGood(crc, Before(pieces, i, j)) && Check(crc, pieces[i].recs[j]).Bad?
    ensures |Before(pieces, i, b)| <= |GoodPrefix(crc, Before(pieces, i, j))|
    ensures
      var at := Position(files, pieces, i, j);
      Scan(crc, [files[i]] + rest, InFile(pieces[i], |Stream(pieces[i].recs[..b])|), None) ==
      ScanResult(GoodPrefix(crc, Before(pieces, i, j))[|Before(pieces, i, b)|..], Corrupted(at.0, at.1))
  {
    hide Check, IsFrame, GoodPrefix, Scan, FileOk, Stream, Lead, AllGood, Before, InFile;
    FileIsStream(segmentSize, Contents(files)[i], pieces[i], Next(pieces, i));
    GoodWithin(crc, pieces, i, b, j);
    ScanBadBehind(crc, files[i], pieces[i], b, j, rest);
  }

  lemma {:induction false} DamagedBehind(crc: Checksum, segmentSize: nat, files: seq<LogFile>, pieces: seq<Piece>,
                                         a: nat, b: nat, i: nat, j: nat, rest: seq<LogFile>)
    requires Layout(segmentSize, Contents(files), pieces) && !pieces[0].split
    requires a < i < |pieces| && j < |pieces[i].recs| && b <= |pieces[a].recs| && (pieces[a].split ==> b > 0)
    requires AllGood(crc, Before(pieces, i, j)) && Check(crc, pieces[i].recs[j]).Bad?
    ensures |Before(pieces, a, b)| <= |GoodPrefix(crc, Before(pieces, i, j))|
    ensures
      var at := Position(files, pieces, i, j);
      Scan(crc, [files[a]] + (files[a + 1..i] + ([files[i]] + rest)), InFile(pieces[a], |Stream(pieces[a].recs[..b])|), None) ==
      ScanResult(GoodPrefix(crc, Before(pieces, i, j))[|Before(pieces, a, b)|..], Corrupted(at.0, at.1))
  {
    hide Check, IsFrame, GoodPrefix, Scan, FileOk, Stream, Lead, AllGood, Before, Position, InFile, PieceOk, Contents,
         Carries,
         CarryInto, BadAt, Handed, Prepend, Layout;
    LayoutSizes(segmentSize, files, pieces);
    var fs, ps := files[a + 1..], pieces[a + 1..];
    var carry := Handed(files[a], pieces[a], Next(pieces, a));
    var k := i - a - 1;
    var o := BadAt(files[i], pieces[i], j, CarryInto(files, pieces, i, None));
    BetweenParts(pieces, a, b, i, j);
    GoodBetween(crc, Before(pieces, a, b), pieces[a].recs[b..], Before(ps, k, j), o);
    RestIsLayout(segmentSize, files, pieces, a);
    assert fs[..k] == files[a + 1..i];
    DropIndex(files, a + 1, k);
    DropIndex(pieces, a + 1, k);
    DropIndex(pieces, a + 1, 0);
    ScanDamaged(crc, segmentSize, fs, ps, carry, k, j, rest);
    CarryIntoSuffix(files, pieces, a, i);
    BadAtPosition(files, pieces, i, j);
    ScanBehindHead(crc, segmentSize, files, pieces, a, b, files[a + 1..i] + ([files[i]] + rest));
  }

  /** Recovery of a log cut at any byte of any file, from anywhere before the cut. */
  lemma {:induction false} RecoverTornFrom(crc: Checksum, segmentSize: nat, files: seq<LogFile>, pieces: seq<Piece>,
                                           a: nat, b: nat, k: nat, n: nat)
    requires Layout(segmentSize, Contents(files), pieces) && k < |files| && n <= |files[k].bytes|
    requires Starts(pieces, a, b, k, Whole(pieces[k].recs, |Lead(pieces[k])| + n))
    requires AllGood(crc, Before(pieces, k, Whole(pieces[k].recs, |Lead(pieces[k])| + n)))
    ensures
      var before := Before(pieces, k, Whole(pieces[k].recs, |Lead(pieces[k])| + n));
      && |Before(pieces, a, b)| <= |GoodPrefix(crc, before)|
      && Scan(crc, TornLog(files, k, n)[a..], InFile(pieces[a], |Stream(pieces[a].recs[..b])|), None) ==
         ScanResult(GoodPrefix(crc, before)[|Before(pieces, a, b)|..], TornOutcome(files[k], pieces[k], n))
  {
    hide Check, IsFrame, GoodPrefix, Scan, FileOk, Stream, Lead, AllGood, Before, InFile, PieceOk, Whole, TornOutcome,
         Contents;
    if a == k {
      TornWithin(crc, segmentSize, files, pieces, b, k, n);
    } else {
      TornBehind(crc, segmentSize, files, pieces, a, b, k, n);
    }
  }

  lemma {:induction false} TornWithin(crc: Checksum, segmentSize: nat, files: seq<LogFile>, pieces: seq<Piece>,
                                      b: nat, k: nat, n: nat)
    requires Layout(segmentSize, Contents(files), pieces) && k < |files| && n <= |files[k].bytes|
    requires b <= Whole(pieces[k].recs, |Lead(pieces[k])| + n) && (pieces[k].split ==> b > 0)
    requires AllGood(crc, Before(pieces, k, Whole(pieces[k].recs, |Lead(pieces[k])| + n)))
    ensures
      var before := Before(pieces, k, Whole(pieces[k].recs, |Lead(pieces[k])| + n));
      && |Before(pieces, k, b)| <= |GoodPrefix(crc, before)|
      && Scan(crc, TornLog(files, k, n)[k..], InFile(pieces[k], |Stream(pieces[k].recs[..b])|), None) ==
         ScanResult(GoodPrefix(crc, before)[|Before(pieces, k, b)|..], TornOutcome(files[k], pieces[k], n))
  {
    hide Check, IsFrame, GoodPrefix, Scan, FileOk, Stream, Lead, AllGood, Before, InFile, PieceOk, Whole, TornOutcome;
    assert Contents(files)[k] == files[k].bytes;
    GoodWithin(crc, pieces, k, b, Whole(pieces[k].recs, |Lead(pieces[k])| + n));
    ScanTornBehind(crc, segmentSize, files[k], pieces[k], Next(pieces, k), b, n);
    assert TornLog(files, k, n)[k..] == [LogFile(files[k].path, files[k].bytes[..n])];
  }

  lemma {:induction false} TornBehind(crc: Checksum, segmentSize: nat, files: seq<LogFile>, pieces: seq<Piece>,
                                      a: nat, b: nat, k: nat, n: nat)
    requires Layout(segmentSize, Contents(files), pieces) && a < k < |files| && n <= |files[k].bytes|
    requires b <= |pieces[a].recs| && (pieces[a].split ==> b > 0)
    requires AllGood(crc, Before(pieces, k, Whole(pieces[k].recs, |Lead(pieces[k])| + n)))
    ensures
      var before := Before(pieces, k, Whole(pieces[k].recs, |Lead(pieces[k])| + n));
      && |Before(pieces, a, b)| <= |GoodPrefix(crc, before)|
      && Scan(crc, TornLog(files, k, n)[a..], InFile(pieces[a], |Stream(pieces[a].recs[..b])|), None) ==
         ScanResult(GoodPrefix(crc, before)[|Before(pieces, a, b)|..], TornOutcome(files[k], pieces[k], n))
  {
    hide Check, IsFrame, GoodPrefix, Scan, FileOk, Stream, Lead, AllGood, Before, InFile, PieceOk, Whole, TornOutcome,
         Contents,
         Carries, Handed, Prepend, TornLog, Layout;
    LayoutSizes(segmentSize, files, pieces);
    var fs, ps := files[a + 1..], pieces[a + 1..];
    var carry := Handed(files[a], pieces[a], Next(pieces, a));
    var i := k - a - 1;
    var m := Whole(pieces[k].recs, |Lead(pieces[k])| + n);
    BetweenParts(pieces, a, b, k, m);
    GoodBetween(crc, Before(pieces, a, b), pieces[a].recs[b..], Before(ps, i, m), TornOutcome(files[k], pieces[k], n));
    RestIsLayout(segmentSize, files, pieces, a);
    DropIndex(files, a + 1, i);
    DropIndex(pieces, a + 1, i);
    DropIndex(pieces, a + 1, 0);
    ScanTorn(crc, segmentSize, fs, ps, carry, i, n);
    TornLogFrom(files, a, k, n);
    ScanBehindHead(crc, segmentSize, files, pieces, a, b, TornLog(fs, i, n));
  }

  lemma {:induction false} DropIndex<T>(s: seq<T>, a: nat, i: nat)
    requires a + i < |s|
    ensures s[a..][i] == s[a + i]
  {
  }

  lemma {:induction false} TornLogFrom(files: seq<LogFile>, a: nat, k: nat, n: nat)
    requires a < k < |files| && n <= |files[k].bytes|
    ensures files[a + 1..][k - a - 1] == files[k]
    ensures TornLog(files, k, n)[a..] == [files[a]] + TornLog(files[a + 1..], k - a - 1, n)
  {
    var cut := [LogFile(files[k].path, files[k].bytes[..n])];
    assert files[..k] == files[..a] + ([files[a]] + files[a + 1..k]);
    assert files[a + 1..][..k - a - 1] == files[a + 1..k];
  }
}
