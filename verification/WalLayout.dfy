/**
 * What a log looks like on disk, and what reading it back yields.
 *
 * A log is described by pieces, one for each file: the records that end in the file, in order, and whether the
 * header of the first of them is at the end of the previous file. The description speaks of raw records with
 * an intact length field, so the theorems cover undamaged, damaged and torn logs alike.
 */
module WalLayout {
  import opened Bytes
  import opened Options
  import opened WalRecord
  import opened WalScan

  type Raw = seq<byte>

  datatype Piece = Piece(split: bool, recs: seq<Raw>)

  function Stream(recs: seq<Raw>): seq<byte> {
    if recs == [] then [] else recs[0] + Stream(recs[1..])
  }

  /** The bytes of the piece's first record that lie in the previous file. */
  function Lead(p: Piece): seq<byte>
    requires PieceOk(p)
  {
    if p.split then p.recs[0][..HEADER_SIZE] else []
  }

  predicate AllFrames(recs: seq<Raw>) {
    forall j :: 0 <= j < |recs| ==> IsFrame(recs[j])
  }

  predicate PieceOk(p: Piece) {
    AllFrames(p.recs) && (p.split ==> p.recs != [])
  }

  function Next(pieces: seq<Piece>, i: nat): Option<Piece> {
    if i + 1 < |pieces| then Some(pieces[i + 1]) else None
  }

  /** After the last file's records comes nothing; after another's, either a header and padding, or padding. */
  predicate TailOk(segmentSize: nat, size: nat, tail: seq<byte>, next: Option<Piece>)
    requires next.Some? ==> PieceOk(next.value)
  {
    match next
    case None => tail == [] && size <= segmentSize
    case Some(q) =>
      && size == segmentSize
      && if q.split
         then HEADER_SIZE <= |tail| < |q.recs[0]| && tail[..HEADER_SIZE] == Lead(q)
         else |tail| < HEADER_SIZE
  }

  predicate FileOk(segmentSize: nat, file: seq<byte>, p: Piece, next: Option<Piece>)
    requires PieceOk(p) && (next.Some? ==> PieceOk(next.value))
  {
    var all := Lead(p) + file;
    Stream(p.recs) <= all && TailOk(segmentSize, |file|, all[|Stream(p.recs)|..], next)
  }

  predicate Layout(segmentSize: nat, files: seq<seq<byte>>, pieces: seq<Piece>) {
    && |files| == |pieces| > 0
    && (forall i :: 0 <= i < |pieces| ==> PieceOk(pieces[i]))
    && (forall i :: 0 <= i < |files| ==> FileOk(segmentSize, files[i], pieces[i], Next(pieces, i)))
  }

  /** All records of the log in order. */
  function Flat(pieces: seq<Piece>): seq<Raw> {
    if pieces == [] then [] else pieces[0].recs + Flat(pieces[1..])
  }

  /** The entries of the longest prefix of records that pass the integrity check. */
  function GoodPrefix(crc: Checksum, recs: seq<Raw>): (es: seq<WalEntry>)
    ensures |es| <= |recs|
  {
    if recs == [] || !Check(crc, recs[0]).Good? then []
    else [Check(crc, recs[0]).entry] + GoodPrefix(crc, recs[1..])
  }

  predicate AllGood(crc: Checksum, recs: seq<Raw>) {
    forall j :: 0 <= j < |recs| ==> Check(crc, recs[j]).Good?
  }

  lemma {:induction false} GoodPrefixWhole(crc: Checksum, recs: seq<Raw>)
    requires AllGood(crc, recs)
    ensures |GoodPrefix(crc, recs)| == |recs|
    ensures forall j :: 0 <= j < |recs| ==> GoodPrefix(crc, recs)[j] == Check(crc, recs[j]).entry
  {
    hide Check;
    if recs != [] {
      GoodPrefixWhole(crc, recs[1..]);
    }
  }

  lemma {:induction false} GoodPrefixConcat(crc: Checksum, a: seq<Raw>, b: seq<Raw>)
    requires AllGood(crc, a)
    ensures GoodPrefix(crc, a + b) == GoodPrefix(crc, a) + GoodPrefix(crc, b)
  {
    hide Check;
    if a == [] {
      assert a + b == b;
    } else {
      GoodPrefixConcat(crc, a[1..], b);
      assert (a + b)[1..] == a[1..] + b;
    }
  }

  // ---------- streams ----------

  lemma {:induction false} StreamConcat(a: seq<Raw>, b: seq<Raw>)
    ensures Stream(a + b) == Stream(a) + Stream(b)
  {
    if a == [] {
      assert a + b == b;
    } else {
      StreamConcat(a[1..], b);
      assert (a + b)[1..] == a[1..] + b && (a + b)[0] == a[0];
      assert a[0] + (Stream(a[1..]) + Stream(b)) == (a[0] + Stream(a[1..])) + Stream(b);
    }
  }

  lemma {:induction false} StreamTake(recs: seq<Raw>, j: nat)
    requires j <= |recs|
    ensures Stream(recs) == Stream(recs[..j]) + Stream(recs[j..])
  {
    assert recs == recs[..j] + recs[j..];
    StreamConcat(recs[..j], recs[j..]);
  }

  lemma {:induction false} StreamNext(recs: seq<Raw>, j: nat)
    requires j < |recs|
    ensures Stream(recs[j..]) == recs[j] + Stream(recs[j + 1..])
    ensures Stream(recs[..j + 1]) == Stream(recs[..j]) + recs[j]
  {
    assert recs[j..][1..] == recs[j + 1..];
    assert recs[..j + 1] == recs[..j] + [recs[j]];
    StreamConcat(recs[..j], [recs[j]]);
    assert Stream([recs[j]]) == recs[j] + Stream([]) == recs[j];
  }

  lemma {:induction false} ParseGood(crc: Checksum, path: FileName, r: Raw, tail: seq<byte>)
    requires IsFrame(r) && Check(crc, r).Good?
    ensures Parse(crc, path, r + tail) ==
            var rest := Parse(crc, path, tail);
            ScanResult([Check(crc, r).entry] + rest.entries, Shift(rest.outcome, |r|))
  {
    hide Check, FromLE;
    var bytes := r + tail;
    assert bytes[..4] == r[..4] && bytes[..|r|] == r && bytes[|r|..] == tail;
  }

  /** Good records in front of anything are read, and then that anything. */
  lemma {:induction false} ParseStream(crc: Checksum, path: FileName, recs: seq<Raw>, tail: seq<byte>)
    requires AllFrames(recs) && AllGood(crc, recs)
    ensures Parse(crc, path, Stream(recs) + tail) ==
            var rest := Parse(crc, path, tail);
            ScanResult(GoodPrefix(crc, recs) + rest.entries, Shift(rest.outcome, |Stream(recs)|))
  {
    hide Check, FromLE, Parse, IsFrame;
    if recs == [] {
      assert Stream(recs) + tail == tail;
    } else {
      ParseStream(crc, path, recs[1..], tail);
      ParseGood(crc, path, recs[0], Stream(recs[1..]) + tail);
      assert Stream(recs) + tail == recs[0] + (Stream(recs[1..]) + tail);
      ShiftTwice(Parse(crc, path, tail).outcome, |Stream(recs[1..])|, |recs[0]|);
    }
  }

  /** A complete record that fails the check ends the parse at its own first byte. */
  lemma {:induction false} ParseBad(crc: Checksum, path: FileName, r: Raw, tail: seq<byte>)
    requires IsFrame(r) && !Check(crc, r).Good?
    ensures Parse(crc, path, r + tail) ==
            ScanResult([], if Check(crc, r).Bad? then Corrupted(path, 0) else Panics)
  {
    var bytes := r + tail;
    assert bytes[..4] == r[..4] && bytes[..|r|] == r;
  }

  lemma {:induction false} ParseShort(crc: Checksum, path: FileName, bytes: seq<byte>)
    requires |bytes| < HEADER_SIZE
    ensures Parse(crc, path, bytes) == ScanResult([], Complete)
  {
  }

  /** A proper prefix of a record that still holds the header is handed on; a shorter one is taken for padding. */
  lemma {:induction false} ParseTorn(crc: Checksum, path: FileName, r: Raw, torn: seq<byte>)
    requires IsFrame(r) && |torn| < |r|
    requires |torn| >= HEADER_SIZE ==> torn[..HEADER_SIZE] == r[..HEADER_SIZE]
    ensures Parse(crc, path, torn) ==
            ScanResult([], if |torn| < HEADER_SIZE then Complete else Partial(PartialEntry(path, 0, torn[..HEADER_SIZE])))
  {
    if |torn| >= HEADER_SIZE {
      assert torn[..4] == torn[..HEADER_SIZE][..4] == r[..4];
    }
  }

  // ---------- one file ----------

  /** A carried header describes the lead of the file it is carried into. */
  predicate Carries(carry: Option<PartialEntry>, p: Piece)
    requires PieceOk(p)
  {
    (carry.Some? <==> p.split) && (p.split ==> carry.value.bytes == Lead(p))
  }

  /** Position of the byte at `n` in `Lead(p) + file`, in the file. */
  function InFile(p: Piece, n: nat): nat
    requires PieceOk(p)
  {
    if n < |Lead(p)| then 0 else n - |Lead(p)|
  }

  /** Both entry points parse `Lead(p) + file`; what differs is how offsets are turned back. */
  lemma {:induction false} ScanFileParses(crc: Checksum, file: LogFile, p: Piece, carry: Option<PartialEntry>)
    requires PieceOk(p) && Carries(carry, p)
    ensures
      var r := Parse(crc, file.path, Lead(p) + file.bytes);
      var s := ScanFile(crc, file, 0, carry);
      && s.entries == r.entries
      && (r.outcome.Complete? ==> s.outcome == Complete)
      && (r.outcome.Panics? ==> s.outcome == Panics)
      && (r.outcome.Partial? ==>
            s.outcome ==
              if r.outcome.entry.offset < |Lead(p)| then Panics
              else Partial(r.outcome.entry.(offset := r.outcome.entry.offset - |Lead(p)|)))
      && (r.outcome.Corrupted? ==>
            s.outcome ==
              if p.split && r.entries == [] then Corrupted(carry.value.path, carry.value.offset)
              else if p.split && r.outcome.offset <= HEADER_SIZE then r.outcome
              else Corrupted(r.outcome.path, r.outcome.offset - |Lead(p)|))
  {
    if carry.None? {
      assert file.bytes[0..] == file.bytes == Lead(p) + file.bytes;
    }
  }

  lemma {:induction false} StreamAtLeast(recs: seq<Raw>, j: nat)
    requires AllFrames(recs) && 0 < j <= |recs|
    ensures |Stream(recs[..j])| >= |recs[0]| >= HEADER_SIZE
  {
    assert recs[..j][0] == recs[0];
  }

  /** A file whose records are all good yields them, and its last bytes decide what is handed on. */
  lemma {:induction false} ScanGoodFile(crc: Checksum, segmentSize: nat, file: LogFile, p: Piece, next: Option<Piece>,
                                        carry: Option<PartialEntry>)
    requires PieceOk(p) && (next.Some? ==> PieceOk(next.value)) && FileOk(segmentSize, file.bytes, p, next)
    requires Carries(carry, p) && AllGood(crc, p.recs)
    ensures ScanFile(crc, file, 0, carry) ==
            ScanResult(GoodPrefix(crc, p.recs),
                       if next.Some? && next.value.split
                       then Partial(PartialEntry(file.path, InFile(p, |Stream(p.recs)|), Lead(next.value)))
                       else Complete)
  {
    hide Check, FromLE, Parse, GoodPrefix, Stream, ScanFile;
    var all := Lead(p) + file.bytes;
    var tail := all[|Stream(p.recs)|..];
    assert all == Stream(p.recs) + tail;
    ParseStream(crc, file.path, p.recs, tail);
    if next.Some? && next.value.split {
      ParseTorn(crc, file.path, next.value.recs[0], tail);
    } else {
      ParseShort(crc, file.path, tail);
    }
    if p.split {
      StreamAtLeast(p.recs, |p.recs|);
      assert p.recs[..|p.recs|] == p.recs;
    }
    ScanFileParses(crc, file, p, carry);
  }

  /** Reading stops at the first record of a file that fails the check. */
  lemma {:induction false} ScanBadFile(crc: Checksum, file: LogFile, p: Piece, j: nat, carry: Option<PartialEntry>)
    requires PieceOk(p) && Stream(p.recs) <= Lead(p) + file.bytes && Carries(carry, p)
    requires j < |p.recs| && AllGood(crc, p.recs[..j]) && !Check(crc, p.recs[j]).Good?
    ensures ScanFile(crc, file, 0, carry) ==
            ScanResult(GoodPrefix(crc, p.recs[..j]),
                       if Check(crc, p.recs[j]).Crash? then Panics
                       else if p.split && j == 0 then Corrupted(carry.value.path, carry.value.offset)
                       else Corrupted(file.path, InFile(p, |Stream(p.recs[..j])|)))
  {
    hide Check, FromLE, Parse, Stream, GoodPrefix, ScanFile;
    var all := Lead(p) + file.bytes;
    var rest := all[|Stream(p.recs)|..];
    StreamTake(p.recs, j);
    StreamNext(p.recs, j);
    var tail := p.recs[j] + (Stream(p.recs[j + 1..]) + rest);
    assert all == Stream(p.recs[..j]) + tail;
    ParseStream(crc, file.path, p.recs[..j], tail);
    ParseBad(crc, file.path, p.recs[j], Stream(p.recs[j + 1..]) + rest);
    GoodPrefixWhole(crc, p.recs[..j]);
    ScanFileParses(crc, file, p, carry);
    if j > 0 && p.split {
      FirstGoodIsLong(crc, p.recs[0]);
      StreamAtLeast(p.recs, j);
      assert p.recs[..j][0] == p.recs[0];
    }
  }

  /** A record that decodes is longer than a bare header. */
  lemma {:induction false} FirstGoodIsLong(crc: Checksum, r: Raw)
    requires IsFrame(r) && Check(crc, r).Good?
    ensures |r| > HEADER_SIZE
  {
  }

  // ---------- the whole log ----------

  function Contents(files: seq<LogFile>): (cs: seq<seq<byte>>)
    ensures |cs| == |files| && forall i :: 0 <= i < |cs| ==> cs[i] == files[i].bytes
  {
    seq(|files|, i requires 0 <= i < |files| => files[i].bytes)
  }

  lemma {:induction false} FlatSplit(pieces: seq<Piece>, i: nat)
    requires i <= |pieces|
    ensures Flat(pieces) == Flat(pieces[..i]) + Flat(pieces[i..])
  {
    if i > 0 {
      FlatSplit(pieces[1..], i - 1);
      assert pieces[..i][1..] == pieces[1..][..i - 1] && pieces[1..][i - 1..] == pieces[i..];
    } else {
      assert pieces[..0] == [] && pieces[0..] == pieces;
    }
  }

  /** What the scan of one good file hands to the next. */
  function Handed(file: LogFile, p: Piece, next: Option<Piece>): Option<PartialEntry>
    requires PieceOk(p) && (next.Some? ==> PieceOk(next.value))
  {
    if next.Some? && next.value.split
    then Some(PartialEntry(file.path, InFile(p, |Stream(p.recs)|), Lead(next.value)))
    else None
  }

  /** A good file in front of any other files. */
  lemma {:induction false} ScanCons(crc: Checksum, segmentSize: nat, file: LogFile, p: Piece, next: Option<Piece>,
                                    carry: Option<PartialEntry>, rest: seq<LogFile>)
    requires PieceOk(p) && (next.Some? ==> PieceOk(next.value)) && FileOk(segmentSize, file.bytes, p, next)
    requires Carries(carry, p) && AllGood(crc, p.recs)
    ensures Scan(crc, [file] + rest, 0, carry) ==
            Prepend(GoodPrefix(crc, p.recs), Scan(crc, rest, 0, Handed(file, p, next)))
  {
    hide ScanFile, GoodPrefix, Check, IsFrame, FromLE, Stream, FileOk;
    ScanGoodFile(crc, segmentSize, file, p, next, carry);
    assert ([file] + rest)[1..] == rest;
  }

  lemma {:induction false} AllGoodParts(crc: Checksum, a: seq<Raw>, b: seq<Raw>)
    requires AllGood(crc, a + b)
    ensures AllGood(crc, a) && AllGood(crc, b)
  {
    hide Check;
    assert forall j :: 0 <= j < |a| ==> a[j] == (a + b)[j];
    assert forall j :: 0 <= j < |b| ==> b[j] == (a + b)[|a| + j];
  }

  /** What is carried into file `k`. */
  function CarryInto(files: seq<LogFile>, pieces: seq<Piece>, k: nat, carry: Option<PartialEntry>): Option<PartialEntry>
    requires k <= |files| == |pieces| && forall i :: 0 <= i < |pieces| ==> PieceOk(pieces[i])
  {
    if k == 0 then carry else Handed(files[k - 1], pieces[k - 1], Next(pieces, k - 1))
  }

  lemma {:induction false} CarriesInto(files: seq<LogFile>, pieces: seq<Piece>, k: nat, carry: Option<PartialEntry>)
    requires k < |files| == |pieces| && (forall i :: 0 <= i < |pieces| ==> PieceOk(pieces[i]))
    requires Carries(carry, pieces[0])
    ensures Carries(CarryInto(files, pieces, k, carry), pieces[k])
  {
    hide PieceOk, Lead;
    if k > 0 {
      assert Next(pieces, k - 1) == Some(pieces[k]);
    }
  }

  lemma {:induction false} TakeShift<T>(s: seq<T>, k: nat, rest: seq<T>)
    requires 0 < k <= |s|
    ensures s[..k] + rest == s[..k - 1] + ([s[k - 1]] + rest)
  {
  }

  lemma {:induction false} PrependNothing(r: ScanResult)
    ensures Prepend([], r) == r
  {
  }

  lemma {:induction false} PrependTwice(a: seq<WalEntry>, b: seq<WalEntry>, r: ScanResult)
    ensures Prepend(a, Prepend(b, r)) == Prepend(a + b, r)
  {
    assert a + (b + r.entries) == (a + b) + r.entries;
  }

  /** Good files yield their records, whatever files follow. */
  lemma {:induction false} ScanPrefix(crc: Checksum, segmentSize: nat, files: seq<LogFile>, pieces: seq<Piece>,
                                      carry: Option<PartialEntry>, k: nat, rest: seq<LogFile>)
    requires Layout(segmentSize, Contents(files), pieces) && Carries(carry, pieces[0])
    requires k <= |files| && AllGood(crc, Flat(pieces[..k]))
    ensures Scan(crc, files[..k] + rest, 0, carry) ==
            Prepend(GoodPrefix(crc, Flat(pieces[..k])), Scan(crc, rest, 0, CarryInto(files, pieces, k, carry)))
    decreases k
  {
    hide Check, IsFrame, GoodPrefix, Scan, FileOk, Flat, Handed, Contents, Lead, PieceOk, Prepend;
    if k == 0 {
      FlatEmpty();
      PrependNothing(Scan(crc, rest, 0, carry));
      assert files[..0] + rest == rest && pieces[..0] == [];
      GoodPrefixEmpty(crc);
    } else {
      var f := files[k - 1];
      FlatSnoc(pieces, k);
      AllGoodParts(crc, Flat(pieces[..k - 1]), pieces[k - 1].recs);
      ScanPrefix(crc, segmentSize, files, pieces, carry, k - 1, [f] + rest);
      TakeShift(files, k, rest);
      assert Contents(files)[k - 1] == f.bytes;
      CarriesInto(files, pieces, k - 1, carry);
      ScanCons(crc, segmentSize, f, pieces[k - 1], Next(pieces, k - 1), CarryInto(files, pieces, k - 1, carry), rest);
      GoodPrefixConcat(crc, Flat(pieces[..k - 1]), pieces[k - 1].recs);
      PrependTwice(GoodPrefix(crc, Flat(pieces[..k - 1])), GoodPrefix(crc, pieces[k - 1].recs),
                   Scan(crc, rest, 0, CarryInto(files, pieces, k, carry)));
    }
  }

  lemma {:induction false} FlatEmpty()
    ensures Flat([]) == []
  {
  }

  lemma {:induction false} FlatSnoc(pieces: seq<Piece>, k: nat)
    requires 0 < k <= |pieces|
    ensures Flat(pieces[..k]) == Flat(pieces[..k - 1]) + pieces[k - 1].recs
  {
    FlatSplit(pieces[..k], k - 1);
    assert pieces[..k][..k - 1] == pieces[..k - 1] && pieces[..k][k - 1..] == [pieces[k - 1]];
    assert Flat([pieces[k - 1]]) == pieces[k - 1].recs + Flat([]);
  }

  lemma {:induction false} GoodPrefixEmpty(crc: Checksum)
    ensures GoodPrefix(crc, []) == []
  {
  }

  /** Recovering an undamaged log from its beginning yields every record, and reports no corruption. */
  lemma {:induction false} RecoverIntact(crc: Checksum, segmentSize: nat, files: seq<LogFile>, pieces: seq<Piece>)
    requires Layout(segmentSize, Contents(files), pieces) && !pieces[0].split
    requires AllGood(crc, Flat(pieces))
    ensures Scan(crc, files, 0, None) == ScanResult(GoodPrefix(crc, Flat(pieces)), Complete)
  {
    hide Check, GoodPrefix, FileOk;
    var n := |files|;
    assert pieces[..n] == pieces && files[..n] + [] == files;
    ScanPrefix(crc, segmentSize, files, pieces, None, n, []);
    assert Next(pieces, n - 1) == None;
  }

  // ---------- damaged records ----------

  /** The records before record `j` of piece `i`. */
  function Before(pieces: seq<Piece>, i: nat, j: nat): seq<Raw>
    requires i < |pieces| && j <= |pieces[i].recs|
  {
    Flat(pieces[..i]) + pieces[i].recs[..j]
  }

  /** File and offset at which record `j` of piece `i` starts, which for a split record is in the previous file. */
  function Position(files: seq<LogFile>, pieces: seq<Piece>, i: nat, j: nat): (FileName, nat)
    requires |files| == |pieces| && i < |pieces| && j <= |pieces[i].recs|
    requires forall k :: 0 <= k < |pieces| ==> PieceOk(pieces[k])
  {
    if pieces[i].split && j == 0 && i > 0
    then (files[i - 1].path, InFile(pieces[i - 1], |Stream(pieces[i - 1].recs)|))
    else (files[i].path, InFile(pieces[i], |Stream(pieces[i].recs[..j])|))
  }

  lemma {:induction false} FileIsStream(segmentSize: nat, file: seq<byte>, p: Piece, next: Option<Piece>)
    requires PieceOk(p) && (next.Some? ==> PieceOk(next.value)) && FileOk(segmentSize, file, p, next)
    ensures Stream(p.recs) <= Lead(p) + file
  {
  }

  /** What is read of the files in front and of the last one, put together. */
  lemma {:induction false} GoodBefore(crc: Checksum, pieces: seq<Piece>, i: nat, j: nat, o: Outcome)
    requires i < |pieces| && j <= |pieces[i].recs| && AllGood(crc, Before(pieces, i, j))
    ensures AllGood(crc, Flat(pieces[..i])) && AllGood(crc, pieces[i].recs[..j])
    ensures Prepend(GoodPrefix(crc, Flat(pieces[..i])), ScanResult(GoodPrefix(crc, pieces[i].recs[..j]), o)) ==
            ScanResult(GoodPrefix(crc, Before(pieces, i, j)), o)
  {
    hide AllGood, GoodPrefix, Flat;
    AllGoodParts(crc, Flat(pieces[..i]), pieces[i].recs[..j]);
    GoodPrefixConcat(crc, Flat(pieces[..i]), pieces[i].recs[..j]);
  }

  /** What is reported for the bad record `j` of a file: the place of its header. */
  function BadAt(file: LogFile, p: Piece, j: nat, carry: Option<PartialEntry>): Outcome
    requires PieceOk(p) && j <= |p.recs|
  {
    if p.split && j == 0 && carry.Some? then Corrupted(carry.value.path, carry.value.offset)
    else Corrupted(file.path, InFile(p, |Stream(p.recs[..j])|))
  }

  /** Reading up to a bad record, whatever the first file continues and whatever files follow. */
  lemma {:induction false} ScanDamaged(crc: Checksum, segmentSize: nat, files: seq<LogFile>, pieces: seq<Piece>,
                                       carry: Option<PartialEntry>, i: nat, j: nat, rest: seq<LogFile>)
    requires Layout(segmentSize, Contents(files), pieces) && Carries(carry, pieces[0])
    requires i < |pieces| && j < |pieces[i].recs|
    requires AllGood(crc, Before(pieces, i, j)) && Check(crc, pieces[i].recs[j]).Bad?
    ensures Scan(crc, files[..i] + ([files[i]] + rest), 0, carry) ==
            ScanResult(GoodPrefix(crc, Before(pieces, i, j)), BadAt(files[i], pieces[i], j, CarryInto(files, pieces, i, carry)))
  {
    hide Check, IsFrame, GoodPrefix, Scan, ScanFile, FileOk, Stream, Flat, Before, AllGood, CarryInto, Contents, Lead,
         PieceOk,
         Carries, BadAt, Prepend;
    var p := pieces[i];
    var carry' := CarryInto(files, pieces, i, carry);
    GoodBefore(crc, pieces, i, j, BadAt(files[i], p, j, carry'));
    ScanPrefix(crc, segmentSize, files, pieces, carry, i, [files[i]] + rest);
    FileIsStream(segmentSize, Contents(files)[i], p, Next(pieces, i));
    CarriesInto(files, pieces, i, carry);
    ScanBadHead(crc, files[i], p, j, carry', rest);
  }

  lemma {:induction false} ScanBadHead(crc: Checksum, file: LogFile, p: Piece, j: nat, carry: Option<PartialEntry>,
                                       rest: seq<LogFile>)
    requires PieceOk(p) && Stream(p.recs) <= Lead(p) + file.bytes && Carries(carry, p)
    requires j < |p.recs| && AllGood(crc, p.recs[..j]) && Check(crc, p.recs[j]).Bad?
    ensures Scan(crc, [file] + rest, 0, carry) == ScanResult(GoodPrefix(crc, p.recs[..j]), BadAt(file, p, j, carry))
  {
    hide Check, IsFrame, GoodPrefix, ScanFile, Stream, AllGood, Lead;
    ScanBadFile(crc, file, p, j, carry);
  }

  lemma {:induction false} BadAtPosition(files: seq<LogFile>, pieces: seq<Piece>, i: nat, j: nat)
    requires |files| == |pieces| && i < |pieces| && j <= |pieces[i].recs|
    requires (forall k :: 0 <= k < |pieces| ==> PieceOk(pieces[k])) && !pieces[0].split
    ensures
      var at := Position(files, pieces, i, j);
      BadAt(files[i], pieces[i], j, CarryInto(files, pieces, i, None)) == Corrupted(at.0, at.1)
  {
    hide PieceOk, Stream;
    if i > 0 {
      assert Next(pieces, i - 1) == Some(pieces[i]);
    }
  }

  /**
   * A log whose length fields are intact: recovery yields exactly the entries before the first bad record, and
   * names the file and the offset at which that record's header starts, also when its body is in the next file.
   */
  lemma {:induction false} RecoverDamaged(crc: Checksum, segmentSize: nat, files: seq<LogFile>, pieces: seq<Piece>,
                                          i: nat, j: nat)
    requires Layout(segmentSize, Contents(files), pieces) && !pieces[0].split
    requires i < |pieces| && j < |pieces[i].recs|
    requires AllGood(crc, Before(pieces, i, j)) && Check(crc, pieces[i].recs[j]).Bad?
    ensures
      var at := Position(files, pieces, i, j);
      Scan(crc, files, 0, None) == ScanResult(GoodPrefix(crc, Before(pieces, i, j)), Corrupted(at.0, at.1))
  {
    hide Check, IsFrame, GoodPrefix, Scan, FileOk, Stream, Before, BadAt, CarryInto, AllGood, PieceOk, Lead, Contents,
         Position,
         InFile;
    ScanDamaged(crc, segmentSize, files, pieces, None, i, j, files[i + 1..]);
    SplitAtOne(files, i);
    BadAtPosition(files, pieces, i, j);
  }

  lemma {:induction false} SplitAtOne<T>(s: seq<T>, i: nat)
    requires i < |s|
    ensures s == s[..i] + ([s[i]] + s[i + 1..])
  {
  }

  // ---------- torn tails ----------

  /** How many whole records the first `n` bytes of a stream hold. */
  function Whole(recs: seq<Raw>, n: nat): (m: nat)
    ensures m <= |recs|
  {
    if recs == [] || n < |recs[0]| then 0 else 1 + Whole(recs[1..], n - |recs[0]|)
  }

  lemma {:induction false} WholeFits(recs: seq<Raw>, n: nat)
    ensures |Stream(recs[..Whole(recs, n)])| <= n
    ensures Whole(recs, n) < |recs| ==> n < |Stream(recs[..Whole(recs, n)])| + |recs[Whole(recs, n)]|
  {
    if recs != [] && |recs[0]| <= n {
      var m := Whole(recs[1..], n - |recs[0]|);
      WholeFits(recs[1..], n - |recs[0]|);
      assert recs[..m + 1][1..] == recs[1..][..m];
    }
  }

  /** The bytes after the whole records, in a file cut at `n`. */
  function TornBytes(p: Piece, file: seq<byte>, n: nat): (t: nat)
    requires PieceOk(p) && n <= |file|
  {
    WholeFits(p.recs, |Lead(p)| + n);
    |Lead(p)| + n - |Stream(p.recs[..Whole(p.recs, |Lead(p)| + n)])|
  }

  /** What recovery reports when the log ends with this file, cut at `n`. */
  function TornOutcome(file: LogFile, p: Piece, n: nat): Outcome
    requires PieceOk(p) && n <= |file.bytes|
  {
    var m := Whole(p.recs, |Lead(p)| + n);
    if TornBytes(p, file.bytes, n) < HEADER_SIZE then Complete
    else if p.split && m == 0 then Panics
    else Corrupted(file.path, InFile(p, |Stream(p.recs[..m])|))
  }

  /** Reading a file that was cut at `n` and is now the last one of the log. */
  lemma {:induction false} ScanTornFile(crc: Checksum, segmentSize: nat, file: LogFile, p: Piece, next: Option<Piece>,
                                        carry: Option<PartialEntry>, n: nat)
    requires PieceOk(p) && (next.Some? ==> PieceOk(next.value)) && FileOk(segmentSize, file.bytes, p, next)
    requires Carries(carry, p) && n <= |file.bytes|
    requires AllGood(crc, p.recs[..Whole(p.recs, |Lead(p)| + n)])
    ensures
      var whole := p.recs[..Whole(p.recs, |Lead(p)| + n)];
      var torn := TornBytes(p, file.bytes, n);
      var at := InFile(p, |Stream(whole)|);
      ScanFile(crc, LogFile(file.path, file.bytes[..n]), 0, carry) ==
      ScanResult(GoodPrefix(crc, whole),
                 if torn < HEADER_SIZE then Complete
                 else if p.split && whole == [] then Panics
                 else Partial(PartialEntry(file.path, at, (Lead(p) + file.bytes)[|Stream(whole)|..|Stream(whole)| + HEADER_SIZE])))
  {
    hide Check, FromLE, Parse, GoodPrefix, ScanFile, Whole, Stream, IsFrame;
    var m := Whole(p.recs, |Lead(p)| + n);
    var whole := p.recs[..m];
    WholeFits(p.recs, |Lead(p)| + n);
    var all := Lead(p) + file.bytes;
    var start := |Stream(whole)|;
    var torn := all[start..|Lead(p)| + n];
    CutSplit(segmentSize, file.bytes, p, next, n);
    ParseStream(crc, file.path, whole, torn);
    if |torn| < HEADER_SIZE {
      ParseShort(crc, file.path, torn);
    } else {
      var r := TornRecord(segmentSize, file.bytes, p, next, n);
      assert |torn| == TornBytes(p, file.bytes, n);
      SubSlice(all, start, |Lead(p)| + n, HEADER_SIZE);
      ParseTorn(crc, file.path, r, torn);
    }
    if m > 0 {
      StreamAtLeast(p.recs, m);
    } else {
      StreamEmpty(whole);
    }
    ScanFileParses(crc, LogFile(file.path, file.bytes[..n]), p, carry);
  }

  lemma {:induction false} SubSlice<T>(s: seq<T>, a: nat, b: nat, k: nat)
    requires a + k <= b <= |s|
    ensures s[a..b][..k] == s[a..a + k]
  {
  }

  lemma {:induction false} StreamEmpty(recs: seq<Raw>)
    requires recs == []
    ensures Stream(recs) == []
  {
  }

  lemma {:induction false} CutSplit(segmentSize: nat, file: seq<byte>, p: Piece, next: Option<Piece>, n: nat)
    requires PieceOk(p) && (next.Some? ==> PieceOk(next.value)) && FileOk(segmentSize, file, p, next)
    requires n <= |file|
    ensures
      var whole := p.recs[..Whole(p.recs, |Lead(p)| + n)];
      && |Stream(whole)| <= |Lead(p)| + n
      && Lead(p) + file[..n] == Stream(whole) + (Lead(p) + file)[|Stream(whole)|..|Lead(p)| + n]
  {
    hide FromLE, Whole, Stream, IsFrame;
    var all := Lead(p) + file;
    var m := Whole(p.recs, |Lead(p)| + n);
    WholeFits(p.recs, |Lead(p)| + n);
    StreamTake(p.recs, m);
    assert Stream(p.recs[..m]) == all[..|Stream(p.recs[..m])|];
  }

  /** The record of which the torn bytes are a proper prefix, at least as far as its header goes. */
  lemma {:induction false} TornRecord(segmentSize: nat, file: seq<byte>, p: Piece, next: Option<Piece>,
                                      n: nat) returns (r: Raw)
    requires PieceOk(p) && (next.Some? ==> PieceOk(next.value)) && FileOk(segmentSize, file, p, next)
    requires n <= |file| && TornBytes(p, file, n) >= HEADER_SIZE
    ensures IsFrame(r) && TornBytes(p, file, n) < |r|
    ensures
      var start := |Stream(p.recs[..Whole(p.recs, |Lead(p)| + n)])|;
      start + HEADER_SIZE <= |Lead(p) + file| && (Lead(p) + file)[start..start + HEADER_SIZE] == r[..HEADER_SIZE]
  {
    hide FromLE, Whole, Stream;
    var all := Lead(p) + file;
    var m := Whole(p.recs, |Lead(p)| + n);
    var start := |Stream(p.recs[..m])|;
    WholeFits(p.recs, |Lead(p)| + n);
    if m < |p.recs| {
      r := p.recs[m];
      StreamTake(p.recs, m);
      StreamNext(p.recs, m);
      assert all[start..start + HEADER_SIZE] == Stream(p.recs)[start..start + HEADER_SIZE];
    } else {
      assert p.recs[..m] == p.recs;
      assert all[start..][..HEADER_SIZE] == all[start..start + HEADER_SIZE];
      r := next.value.recs[0];
    }
  }

  /** The log as a crash leaves it: file `k` holds its first `n` bytes, and later files do not exist. */
  function TornLog(files: seq<LogFile>, k: nat, n: nat): seq<LogFile>
    requires k < |files| && n <= |files[k].bytes|
  {
    files[..k] + [LogFile(files[k].path, files[k].bytes[..n])]
  }

  lemma {:induction false} ScanTornOnly(crc: Checksum, segmentSize: nat, file: LogFile, p: Piece, next: Option<Piece>,
                                        carry: Option<PartialEntry>, n: nat)
    requires PieceOk(p) && (next.Some? ==> PieceOk(next.value)) && FileOk(segmentSize, file.bytes, p, next)
    requires Carries(carry, p) && n <= |file.bytes|
    requires AllGood(crc, p.recs[..Whole(p.recs, |Lead(p)| + n)])
    ensures Scan(crc, [LogFile(file.path, file.bytes[..n])], 0, carry) ==
            ScanResult(GoodPrefix(crc, p.recs[..Whole(p.recs, |Lead(p)| + n)]), TornOutcome(file, p, n))
  {
    hide Check, IsFrame, GoodPrefix, Scan, ScanFile, FileOk, Whole, TornBytes, Stream;
    ScanTornFile(crc, segmentSize, file, p, next, carry, n);
    ScanLast(crc, LogFile(file.path, file.bytes[..n]), carry);
  }

  /** The last file: what it hands on has no file to go to. */
  lemma {:induction false} ScanLast(crc: Checksum, file: LogFile, carry: Option<PartialEntry>)
    ensures var r := ScanFile(crc, file, 0, carry);
            Scan(crc, [file], 0, carry) ==
            if r.outcome.Partial? then ScanResult(r.entries, Corrupted(r.outcome.entry.path, r.outcome.entry.offset)) else r
  {
    hide ScanFile;
    assert [file][1..] == [];
  }

  /**
   * Cutting the log at any byte. Recovery yields the maximal prefix of whole records. Fewer than thirteen torn
   * bytes go unnoticed; a cut inside the continuation of a split record makes the original panic; every other
   * cut is reported at the start of the torn record.
   */
  lemma {:induction false} RecoverTorn(crc: Checksum, segmentSize: nat, files: seq<LogFile>, pieces: seq<Piece>,
                                       k: nat, n: nat)
    requires Layout(segmentSize, Contents(files), pieces) && !pieces[0].split
    requires k < |files| && n <= |files[k].bytes| && AllGood(crc, Flat(pieces))
    ensures
      var p := pieces[k];
      var m := Whole(p.recs, |Lead(p)| + n);
      var r := Scan(crc, TornLog(files, k, n), 0, None);
      && r.entries == GoodPrefix(crc, Before(pieces, k, m))
      && (r.outcome.Panics? <==> p.split && |Lead(p)| + n < |p.recs[0]|)
      && (r.outcome.Complete? <==> TornBytes(p, files[k].bytes, n) < HEADER_SIZE)
      && (r.outcome.Corrupted? ==> TornBytes(p, files[k].bytes, n) <= n)
      && (r.outcome.Corrupted? ==> r.outcome == Corrupted(files[k].path, n - TornBytes(p, files[k].bytes, n)))
  {
    hide IsFrame, GoodPrefix, Scan, FileOk, Stream, Whole, Flat, TornOutcome, Lead, TornBytes;
    TornOutcomeMeans(files[k], pieces[k], n);
    TornRecordsGood(crc, pieces, k, Whole(pieces[k].recs, |Lead(pieces[k])| + n));
    ScanTorn(crc, segmentSize, files, pieces, None, k, n);
  }

  /** The same, whatever the first file continues. */
  lemma {:induction false} ScanTorn(crc: Checksum, segmentSize: nat, files: seq<LogFile>, pieces: seq<Piece>,
                                    carry: Option<PartialEntry>, k: nat, n: nat)
    requires Layout(segmentSize, Contents(files), pieces) && Carries(carry, pieces[0])
    requires k < |files| && n <= |files[k].bytes|
    requires AllGood(crc, Before(pieces, k, Whole(pieces[k].recs, |Lead(pieces[k])| + n)))
    ensures Scan(crc, TornLog(files, k, n), 0, carry) ==
            ScanResult(GoodPrefix(crc, Before(pieces, k, Whole(pieces[k].recs, |Lead(pieces[k])| + n))),
                       TornOutcome(files[k], pieces[k], n))
  {
    hide Check, IsFrame, GoodPrefix, Scan, FileOk, Stream, Whole, Flat, TornOutcome, Lead, Contents, CarryInto,
         AllGood, PieceOk,
         Carries, Before, Prepend;
    var p := pieces[k];
    GoodBefore(crc, pieces, k, Whole(p.recs, |Lead(p)| + n), TornOutcome(files[k], p, n));
    ScanPrefix(crc, segmentSize, files, pieces, carry, k, [LogFile(files[k].path, files[k].bytes[..n])]);
    CarriesInto(files, pieces, k, carry);
    ScanTornOnly(crc, segmentSize, files[k], p, Next(pieces, k), CarryInto(files, pieces, k, carry), n);
  }

  lemma {:induction false} TornOutcomeMeans(file: LogFile, p: Piece, n: nat)
    requires PieceOk(p) && n <= |file.bytes|
    ensures
      var o := TornOutcome(file, p, n);
      && (o.Panics? <==> p.split && |Lead(p)| + n < |p.recs[0]|)
      && (o.Complete? <==> TornBytes(p, file.bytes, n) < HEADER_SIZE)
      && (o.Corrupted? ==> TornBytes(p, file.bytes, n) <= n)
      && (o.Corrupted? ==> o == Corrupted(file.path, n - TornBytes(p, file.bytes, n)))
      && !o.Partial?
  {
    hide FromLE, Stream, Whole;
    var m := Whole(p.recs, |Lead(p)| + n);
    WholeFits(p.recs, |Lead(p)| + n);
    if m > 0 {
      StreamAtLeast(p.recs, m);
    } else {
      StreamEmpty(p.recs[..0]);
    }
  }

  lemma {:induction false} TornRecordsGood(crc: Checksum, pieces: seq<Piece>, k: nat, m: nat)
    requires k < |pieces| && m <= |pieces[k].recs| && AllGood(crc, Flat(pieces))
    ensures AllGood(crc, Before(pieces, k, m))
  {
    hide Check, AllGood, Flat, Before;
    FlatFrom(pieces, k, m);
    AllGoodParts(crc, Before(pieces, k, m), pieces[k].recs[m..] + Flat(pieces[k + 1..]));
  }

  /** The log's records, split at record `j` of piece `i`. */
  lemma {:induction false} FlatFrom(pieces: seq<Piece>, i: nat, j: nat)
    requires i < |pieces| && j <= |pieces[i].recs|
    ensures Flat(pieces) == Before(pieces, i, j) + (pieces[i].recs[j..] + Flat(pieces[i + 1..]))
  {
    FlatSplit(pieces, i);
    assert pieces[i..][0] == pieces[i] && pieces[i..][1..] == pieces[i + 1..];
    FourParts(Flat(pieces[..i]), pieces[i].recs, j, Flat(pieces[i + 1..]));
  }

  lemma {:induction false} FourParts(a: seq<Raw>, recs: seq<Raw>, j: nat, b: seq<Raw>)
    requires j <= |recs|
    ensures a + (recs + b) == (a + recs[..j]) + (recs[j..] + b)
  {
    assert recs == recs[..j] + recs[j..];
  }

  // ---------- truncation ----------

  function TruncatedFiles(files: seq<seq<byte>>, pieces: seq<Piece>, i: nat, j: nat): seq<seq<byte>>
    requires |files| == |pieces| && i < |pieces| && j <= |pieces[i].recs|
    requires forall k :: 0 <= k < |pieces| ==> PieceOk(pieces[k])
    requires pieces[i].split && j == 0 ==> i > 0
  {
    if pieces[i].split && j == 0
    then files[..i - 1] + [CutTo(files[i - 1], InFile(pieces[i - 1], |Stream(pieces[i - 1].recs)|))]
    else files[..i] + [CutTo(files[i], InFile(pieces[i], |Stream(pieces[i].recs[..j])|))]
  }

  function CutTo(file: seq<byte>, n: nat): seq<byte> {
    if n <= |file| then file[..n] else file
  }

  function TruncatedPieces(pieces: seq<Piece>, i: nat, j: nat): seq<Piece>
    requires i < |pieces| && j <= |pieces[i].recs|
  {
    if pieces[i].split && j == 0 then pieces[..i]
    else pieces[..i] + [Piece(pieces[i].split, pieces[i].recs[..j])]
  }

  /** A file cut at the end of its first `j` records is a proper last file. */
  lemma {:induction false} CutFileOk(segmentSize: nat, file: seq<byte>, p: Piece, next: Option<Piece>, j: nat)
    requires PieceOk(p) && (next.Some? ==> PieceOk(next.value)) && FileOk(segmentSize, file, p, next)
    requires j <= |p.recs| && (p.split ==> j > 0)
    ensures
      var q := Piece(p.split, p.recs[..j]);
      PieceOk(q) && FileOk(segmentSize, CutTo(file, InFile(p, |Stream(p.recs[..j])|)), q, None)
  {
    hide IsFrame, FromLE, Stream;
    var q := Piece(p.split, p.recs[..j]);
    StreamTake(p.recs, j);
    if p.split {
      StreamAtLeast(p.recs, j);
    }
    var at := InFile(p, |Stream(p.recs[..j])|);
    assert at == |Stream(p.recs[..j])| - |Lead(p)|;
    assert Lead(q) == Lead(p);
    assert Lead(q) + file[..at] == Stream(q.recs) by {
      assert Stream(q.recs) <= Stream(p.recs) <= Lead(p) + file;
      assert Lead(q) + file[..at] == (Lead(p) + file)[..|Stream(q.recs)|];
    }
  }

  /** Truncating the log where a record starts leaves a proper log of exactly the records before it. */
  lemma {:induction false} TruncateLayout(segmentSize: nat, files: seq<seq<byte>>, pieces: seq<Piece>, i: nat, j: nat)
    requires Layout(segmentSize, files, pieces) && !pieces[0].split
    requires i < |pieces| && j <= |pieces[i].recs|
    ensures Layout(segmentSize, TruncatedFiles(files, pieces, i, j), TruncatedPieces(pieces, i, j))
    ensures Flat(TruncatedPieces(pieces, i, j)) == Before(pieces, i, j)
  {
    hide IsFrame, Stream, FileOk, Lead, InFile, CutTo, Flat, TruncatedFiles, TruncatedPieces;
    TruncateFlat(pieces, i, j);
    TruncateLast(segmentSize, files, pieces, i, j);
    var ps := TruncatedPieces(pieces, i, j);
    TruncateFront(segmentSize, files, pieces, i, j, |ps| - 1);
    assert Next(ps, |ps| - 1) == None;
  }

  lemma {:induction false} TruncateFlat(pieces: seq<Piece>, i: nat, j: nat)
    requires i < |pieces| && j <= |pieces[i].recs|
    ensures Flat(TruncatedPieces(pieces, i, j)) == Before(pieces, i, j)
  {
    hide Flat;
    var ps := TruncatedPieces(pieces, i, j);
    if pieces[i].split && j == 0 {
      assert Before(pieces, i, j) == Flat(ps) + [];
    } else {
      FlatSnoc(ps, i + 1);
      assert ps[..i] == pieces[..i] && ps[..i + 1] == ps;
    }
  }

  lemma {:induction false} TruncateLast(segmentSize: nat, files: seq<seq<byte>>, pieces: seq<Piece>, i: nat, j: nat)
    requires Layout(segmentSize, files, pieces) && !pieces[0].split
    requires i < |pieces| && j <= |pieces[i].recs|
    ensures
      var fs := TruncatedFiles(files, pieces, i, j);
      var ps := TruncatedPieces(pieces, i, j);
      var last := |ps| - 1;
      |fs| == |ps| > 0 && PieceOk(ps[last]) && FileOk(segmentSize, fs[last], ps[last], None)
  {
    hide IsFrame, Stream, FileOk, Lead, InFile, CutTo;
    if pieces[i].split && j == 0 {
      var p := pieces[i - 1];
      assert p.recs[..|p.recs|] == p.recs && Piece(p.split, p.recs) == p;
      CutFileOk(segmentSize, files[i - 1], p, Next(pieces, i - 1), |p.recs|);
    } else {
      CutFileOk(segmentSize, files[i], pieces[i], Next(pieces, i), j);
    }
  }

  lemma {:induction false} TruncateFront(segmentSize: nat, files: seq<seq<byte>>, pieces: seq<Piece>, i: nat, j: nat,
                                         last: nat)
    requires Layout(segmentSize, files, pieces) && !pieces[0].split
    requires i < |pieces| && j <= |pieces[i].recs| && last + 1 == |TruncatedPieces(pieces, i, j)|
    requires PieceOk(TruncatedPieces(pieces, i, j)[last])
    ensures forall k :: 0 <= k < last ==>
              var ps := TruncatedPieces(pieces, i, j);
              PieceOk(ps[k]) && FileOk(segmentSize, TruncatedFiles(files, pieces, i, j)[k], ps[k], Next(ps, k))
  {
    hide IsFrame, Stream, FileOk, Lead, InFile, CutTo;
    var fs := TruncatedFiles(files, pieces, i, j);
    var ps := TruncatedPieces(pieces, i, j);
    forall k | 0 <= k < last
      ensures PieceOk(ps[k]) && FileOk(segmentSize, fs[k], ps[k], Next(ps, k))
    {
      assert ps[k] == pieces[k] && fs[k] == files[k];
      FileOkSameLead(segmentSize, files[k], pieces[k], Next(pieces, k), Next(ps, k));
    }
  }

  /** Only the first record of the following piece matters to a file. */
  lemma {:induction false} FileOkSameLead(segmentSize: nat, file: seq<byte>, p: Piece, next: Option<Piece>,
                                          next': Option<Piece>)
    requires PieceOk(p) && next.Some? && PieceOk(next.value) && FileOk(segmentSize, file, p, next)
    requires next'.Some? && PieceOk(next'.value) && next'.value.split == next.value.split
    requires next.value.split ==> next'.value.recs[0] == next.value.recs[0]
    ensures FileOk(segmentSize, file, p, next')
  {
  }
}
