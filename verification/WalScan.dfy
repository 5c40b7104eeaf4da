/**
 How the log is read back: the parse loop over the bytes of one segment file, its two entry points
 (from an offset, or continuing a record whose header ended the previous file), and the walk over all files.
 The functions say what is read; the methods are the loops of the original, proved to compute them.
 */
module WalScan {
  import opened Bytes
  import opened Options
  import opened WalRecord

  type FileName = seq<byte>

  datatype LogFile = LogFile(path: FileName, bytes: seq<byte>)

  /** A header at the end of a file whose record does not fit into that file. */
  datatype PartialEntry = PartialEntry(path: FileName, offset: nat, bytes: seq<byte>)

  // Panics: the original aborts (an offset below zero, or a copy of the wrong length).
  datatype Outcome = Complete | Partial(entry: PartialEntry) | Corrupted(path: FileName, offset: nat) | Panics

  datatype ScanResult = ScanResult(entries: seq<WalEntry>, outcome: Outcome)

  function Shift(o: Outcome, n: nat): Outcome {
    match o
    case Partial(p) => Partial(p.(offset := p.offset + n))
    case Corrupted(path, offset) => Corrupted(path, offset + n)
    case _ => o
  }

  /** Reading records off the front of `bytes`, until the rest is too short or a record is bad. */
  function Parse(crc: Checksum, path: FileName, bytes: seq<byte>): ScanResult
    decreases |bytes|
  {
    if |bytes| < HEADER_SIZE then ScanResult([], Complete)
    else
      var recordLen := FromLE(bytes[..4]);
      if recordLen < HEADER_SIZE - 4 then ScanResult([], Corrupted(path, 0))
      else if 4 + recordLen > |bytes| then ScanResult([], Partial(PartialEntry(path, 0, bytes[..HEADER_SIZE])))
      else match Check(crc, bytes[..4 + recordLen])
        case Bad => ScanResult([], Corrupted(path, 0))
        case Crash => ScanResult([], Panics)
        case Good(e) =>
          var rest := Parse(crc, path, bytes[4 + recordLen..]);
          ScanResult([e] + rest.entries, Shift(rest.outcome, 4 + recordLen))
  }

  function FromOffset(crc: Checksum, file: LogFile, offset: nat): ScanResult {
    var r := Parse(crc, file.path, if offset <= |file.bytes| then file.bytes[offset..] else []);
    r.(outcome := Shift(r.outcome, offset))
  }

  /** Offsets are positions in `header + file`; they are turned back into positions in the file. */
  function FromPartial(crc: Checksum, file: LogFile, header: seq<byte>): ScanResult {
    var r := Parse(crc, file.path, header + file.bytes);
    r.(outcome := match r.outcome
      case Partial(p) => if p.offset < |header| then Panics else Partial(p.(offset := p.offset - |header|))
      case Corrupted(path, offset) => Corrupted(path, if offset > |header| then offset - |header| else offset)
      case o => o)
  }

  /** All files in turn, handing an unfinished header on to the next file. */
  function Scan(crc: Checksum, files: seq<LogFile>, offset: nat, carry: Option<PartialEntry>): ScanResult
    decreases |files|
  {
    if files == [] then
      ScanResult([], if carry.Some? then Corrupted(carry.value.path, carry.value.offset) else Complete)
    else
      var r := ScanFile(crc, files[0], offset, carry);
      match r.outcome
      case Complete => Prepend(r.entries, Scan(crc, files[1..], if carry.None? then 0 else offset, None))
      case Partial(p) => Prepend(r.entries, Scan(crc, files[1..], if carry.None? then 0 else offset, Some(p)))
      case _ => r
  }

  /** One file; a corruption in the very first, continued record is reported where its header lies. */
  function ScanFile(crc: Checksum, file: LogFile, offset: nat, carry: Option<PartialEntry>): ScanResult {
    match carry
    case None => FromOffset(crc, file, offset)
    case Some(p) =>
      var r := FromPartial(crc, file, p.bytes);
      if r.outcome.Corrupted? && r.entries == [] then r.(outcome := Corrupted(p.path, p.offset)) else r
  }

  function Prepend(entries: seq<WalEntry>, r: ScanResult): ScanResult {
    r.(entries := entries + r.entries)
  }

  // ---------- the loops ----------

  lemma {:induction false} ShiftTwice(o: Outcome, a: nat, b: nat)
    ensures Shift(Shift(o, a), b) == Shift(o, a + b)
  {
  }

  /** What the specification says of the bytes from `offset` on, in the terms of the loop below. */
  lemma {:induction false} ParseStop(crc: Checksum, path: FileName, bytes: seq<byte>, offset: nat)
    requires offset <= |bytes|
    ensures |bytes| < offset + HEADER_SIZE ==> Parse(crc, path, bytes[offset..]) == ScanResult([], Complete)
    ensures offset + HEADER_SIZE <= |bytes| ==>
              var recordLen := FromLE(bytes[offset..offset + 4]);
              var r := Parse(crc, path, bytes[offset..]);
              && (recordLen < HEADER_SIZE - 4 ==> r == ScanResult([], Corrupted(path, 0)))
              && (recordLen >= HEADER_SIZE - 4 && offset + 4 + recordLen > |bytes| ==>
                    r == ScanResult([], Partial(PartialEntry(path, 0, bytes[offset..offset + HEADER_SIZE]))))
  {
    hide FromLE, Check;
    if offset + HEADER_SIZE <= |bytes| {
      assert bytes[offset..][..4] == bytes[offset..offset + 4];
      assert bytes[offset..][..HEADER_SIZE] == bytes[offset..offset + HEADER_SIZE];
    }
  }

  lemma {:induction false} ParseStep(crc: Checksum, path: FileName, bytes: seq<byte>, offset: nat, recordLen: nat)
    requires offset + HEADER_SIZE <= offset + 4 + recordLen <= |bytes|
    requires recordLen == FromLE(bytes[offset..offset + 4])
    ensures
      var r := Parse(crc, path, bytes[offset..]);
      var body := bytes[offset + 8..offset + 4 + recordLen];
      if FromLE(bytes[offset + 4..offset + 8]) != crc(body) || Decode(body).Malformed?
      then r == ScanResult([], Corrupted(path, 0))
      else if Decode(body).Overrun? then r == ScanResult([], Panics)
      else
        var rest := Parse(crc, path, bytes[offset + 4 + recordLen..]);
        r == ScanResult([Decode(body).entry] + rest.entries, Shift(rest.outcome, 4 + recordLen))
  {
    hide FromLE, Decode;
    var s := bytes[offset..];
    assert s[..4] == bytes[offset..offset + 4];
    assert s[..4 + recordLen][4..8] == bytes[offset + 4..offset + 8];
    assert s[..4 + recordLen][8..] == bytes[offset + 8..offset + 4 + recordLen];
    assert s[4 + recordLen..] == bytes[offset + 4 + recordLen..];
  }

  method ParseValidateWalEntries(crc: Checksum, path: FileName, bytes: seq<byte>)
    returns (entries: seq<WalEntry>, outcome: Outcome)
    ensures ScanResult(entries, outcome) == Parse(crc, path, bytes)
  {
    hide Parse, FromLE, Decode;
    var offset := 0;
    var recordOffset := 0;
    entries := [];
    ghost var whole := Parse(crc, path, bytes);
    assert bytes[0..] == bytes;
    while true
      invariant 0 <= offset <= |bytes|
      invariant var rest := Parse(crc, path, bytes[offset..]);
                whole == ScanResult(entries + rest.entries, Shift(rest.outcome, offset))
      decreases |bytes| - offset
    {
      ParseStop(crc, path, bytes, offset);
      if HEADER_SIZE + offset > |bytes| {
        break;
      }
      recordOffset := offset;
      var recordLen := FromLE(bytes[offset..offset + 4]);
      if recordLen < HEADER_SIZE - 4 {
        return entries, Corrupted(path, recordOffset);
      }
      if offset + 4 + recordLen > |bytes| {
        break;
      }
      ParseStep(crc, path, bytes, offset, recordLen);
      offset := offset + 4;
      var readChecksum := FromLE(bytes[offset..offset + 4]);
      offset := offset + 4;
      var calculatedChecksum := crc(bytes[offset..offset + recordLen - 4]);
      if readChecksum != calculatedChecksum {
        return entries, Corrupted(path, recordOffset);
      }
      match Decode(bytes[offset..offset + recordLen - 4]) {
        case Malformed => return entries, Corrupted(path, recordOffset);
        case Overrun => return entries, Panics;
        case Entry(e) =>
          ShiftTwice(Parse(crc, path, bytes[offset + recordLen - 4..]).outcome, 4 + recordLen, recordOffset);
          entries := entries + [e];
          offset := offset + recordLen - 4;
      }
    }
    if offset == |bytes| || offset + HEADER_SIZE > |bytes| {
      outcome := Complete;
    } else {
      outcome := Partial(PartialEntry(path, recordOffset, bytes[offset..offset + HEADER_SIZE]));
    }
  }
}
