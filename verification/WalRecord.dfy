/** One record of the write-ahead log: its in-memory entry, its byte form and the integrity check on reading. */
module WalRecord {
  import opened Bytes
  import opened Options
  import opened Buffers

  // length, checksum and key length (four bytes each) and the operation byte
  const HEADER_SIZE: nat := 13

  datatype OpType = Put | Delete

  datatype WalEntry = WalEntry(op: OpType, key: Key, value: Option<seq<byte>>, lsn: nat) {

    /** The assertions of the encoder, and lengths and sequence number fitting their fields. */
    predicate Valid() {
      && key != []
      && (op.Put? <==> value.Some?)
      && |key| < U32_LIMIT
      && (value.Some? ==> |value.value| < U32_LIMIT)
      && lsn < U64_LIMIT
      && EncodedLen() - 4 < U32_LIMIT
    }

    function EncodedLen(): nat {
      HEADER_SIZE + 8 + |key| + if value.Some? then 4 + |value.value| else 0
    }
  }

  /** The checksummed part of a record. */
  function Body(e: WalEntry): (b: seq<byte>)
    ensures |b| == e.EncodedLen() - 8
  {
    [if e.op.Put? then 1 else 2] + ToLE(|e.key|, 4) + e.key
    + (if e.value.Some? then ToLE(|e.value.value|, 4) + e.value.value else [])
    + ToLE(e.lsn, 8)
  }

  function Encode(crc: Checksum, e: WalEntry): (b: seq<byte>)
    ensures |b| == e.EncodedLen()
  {
    ToLE(e.EncodedLen() - 4, 4) + ToLE(crc(Body(e)), 4) + Body(e)
  }

  // ---------- decoding ----------

  // Overrun: a slice of the wrong length is copied into a fixed buffer, which panics.
  datatype Decoded = Entry(entry: WalEntry) | Malformed | Overrun

  /** The optional value and what follows it; reached once the key has been cut off. */
  function DecodeTail(op: OpType, key: Key, rest: seq<byte>): Decoded {
    if 8 < |rest| then
      var valueLen := FromLE(rest[..4]);
      if |rest| < 4 + valueLen then Malformed
      else DecodeLsn(op, key, Some(rest[4..4 + valueLen]), rest[4 + valueLen..])
    else DecodeLsn(op, key, None, rest)
  }

  function DecodeLsn(op: OpType, key: Key, value: Option<seq<byte>>, rest: seq<byte>): Decoded {
    if |rest| < 8 then Malformed
    else if |rest| > 8 then Overrun
    else Entry(WalEntry(op, key, value, FromLE(rest)))
  }

  function Decode(body: seq<byte>): Decoded {
    if |body| < 5 then Malformed
    else
      var keyLen := FromLE(body[1..5]);
      if |body| < 5 + keyLen then Malformed
      else DecodeTail(if body[0] == 1 then Put else Delete, body[5..5 + keyLen], body[5 + keyLen..])
  }

  lemma {:induction false} DecodeBody(e: WalEntry)
    requires e.Valid()
    ensures Decode(Body(e)) == Entry(e)
  {
    hide FromLE, ToLE;
    var b := Body(e);
    var tail := (if e.value.Some? then ToLE(|e.value.value|, 4) + e.value.value else []) + ToLE(e.lsn, 8);
    U32RoundTrip(|e.key|);
    U64RoundTrip(e.lsn);
    assert b == [b[0]] + ToLE(|e.key|, 4) + e.key + tail;
    assert b[1..5] == ToLE(|e.key|, 4);
    assert b[5..5 + |e.key|] == e.key;
    assert b[5 + |e.key|..] == tail;
    if e.value.Some? {
      U32RoundTrip(|e.value.value|);
      assert tail[..4] == ToLE(|e.value.value|, 4);
      assert tail[4..4 + |e.value.value|] == e.value.value;
      assert tail[4 + |e.value.value|..] == ToLE(e.lsn, 8);
    }
  }

  /** Every body that decodes is the one the encoder writes for its entry, provided its operation byte is one of the two. */
  lemma {:induction false} BodyOfDecoded(body: seq<byte>)
    requires Decode(body).Entry? && body[0] in {1, 2}
    ensures Body(Decode(body).entry) == body
  {
    hide FromLE, ToLE;
    var e := Decode(body).entry;
    var keyLen := FromLE(body[1..5]);
    var rest := body[5 + keyLen..];
    ToFromLE(body[1..5]);
    assert body == [body[0]] + body[1..5] + body[5..5 + keyLen] + rest;
    if 8 < |rest| {
      var valueLen := FromLE(rest[..4]);
      ToFromLE(rest[..4]);
      ToFromLE(rest[4 + valueLen..]);
      assert rest == rest[..4] + rest[4..4 + valueLen] + rest[4 + valueLen..];
    } else {
      ToFromLE(rest);
    }
  }

  // ---------- framing and integrity ----------

  /** A record on disk whose length field is intact, whatever the rest of it holds. */
  predicate IsFrame(r: seq<byte>) {
    |r| >= HEADER_SIZE && FromLE(r[..4]) == |r| - 4
  }

  // Crash: the checksum matches, but decoding panics.
  datatype Verdict = Good(entry: WalEntry) | Bad | Crash

  function Check(crc: Checksum, r: seq<byte>): Verdict {
    if |r| < HEADER_SIZE || FromLE(r[4..8]) != crc(r[8..]) then Bad
    else match Decode(r[8..])
      case Entry(e) => Good(e)
      case Malformed => Bad
      case Overrun => Crash
  }

  /** What the encoder writes, the reader accepts and decodes to the same entry. */
  lemma {:induction false} CheckEncode(crc: Checksum, e: WalEntry)
    requires e.Valid()
    ensures IsFrame(Encode(crc, e)) && Check(crc, Encode(crc, e)) == Good(e)
  {
    var r := Encode(crc, e);
    U32RoundTrip(e.EncodedLen() - 4);
    U32RoundTrip(crc(Body(e)));
    assert r[..4] == ToLE(e.EncodedLen() - 4, 4);
    assert r[4..8] == ToLE(crc(Body(e)), 4);
    assert r[8..] == Body(e);
    DecodeBody(e);
  }

  // ---------- the encoder, filling a buffer in place ----------

  lemma {:induction false} BodyParts(e: WalEntry)
    ensures Body(e) == [if e.op.Put? then 1 else 2] + ToLE(|e.key|, 4) + e.key
                       + ValuePart(e.value) + ToLE(e.lsn, 8)
  {
  }

  function ValuePart(value: Option<seq<byte>>): (b: seq<byte>)
    ensures |b| == if value.Some? then 4 + |value.value| else 0
  {
    if value.Some? then ToLE(|value.value|, 4) + value.value else []
  }

  /** The value of a put, with its length in front. */
  method AppendValue(buf: array<byte>, offset: nat, value: Option<seq<byte>>) returns (next: nat)
    requires 8 <= offset && offset + |ValuePart(value)| <= buf.Length
    modifies buf
    ensures next == offset + |ValuePart(value)| && buf[8..next] == old(buf[8..offset]) + ValuePart(value)
  {
    hide ToLE;
    next := offset;
    ghost var written := buf[8..offset];
    if value.Some? {
      next := AppendSlice(buf, 8, next, ToLE(|value.value|, 4));
      next := AppendSlice(buf, 8, next, value.value);
      assert buf[8..next] == written + (ToLE(|value.value|, 4) + value.value);
    } else {
      assert buf[8..next] == written + [];
    }
  }

  method ToBytes(crc: Checksum, e: WalEntry) returns (bytes: seq<byte>)
    requires e.Valid()
    ensures bytes == Encode(crc, e)
  {
    hide ToLE, Body, ValuePart;
    var bufSize := match e.value
      case None => HEADER_SIZE + 8 + |e.key|
      case Some(value) => HEADER_SIZE + 4 + 8 + |e.key| + |value|;
    var buf := new byte[bufSize](_ => 0);
    var offset := 8;
    buf[offset] := match e.op case Put => 1 case Delete => 2;
    offset := offset + 1;
    assert buf[8..offset] == [if e.op.Put? then 1 else 2];
    offset := AppendSlice(buf, 8, offset, ToLE(|e.key|, 4));
    offset := AppendSlice(buf, 8, offset, e.key);
    ghost var written := [if e.op.Put? then 1 else 2] + ToLE(|e.key|, 4) + e.key;
    assert buf[8..offset] == written;
    offset := AppendValue(buf, offset, e.value);
    assert offset == bufSize - 8;
    offset := AppendSlice(buf, 8, offset, ToLE(e.lsn, 8));
    BodyParts(e);
    assert buf[8..bufSize] == Body(e);
    var checksum := crc(buf[8..bufSize]);
    WriteLengthAndChecksum(buf, bufSize - 4, checksum);
    bytes := buf[..];
  }

  /** The two fields written last, in front of the body. */
  method WriteLengthAndChecksum(buf: array<byte>, entryLen: nat, checksum: u32)
    requires buf.Length >= 8
    modifies buf
    ensures buf[..] == ToLE(entryLen, 4) + ToLE(checksum, 4) + old(buf[8..buf.Length])
  {
    var offset := CopyFromSlice(buf, 0, ToLE(entryLen, 4));
    offset := CopyFromSlice(buf, offset, ToLE(checksum, 4));
    assert buf[0..4] == buf[..4];
    assert buf[8..] == old(buf[4..])[4..];
    assert old(buf[4..])[4..] == old(buf[8..buf.Length]);
    assert buf[..] == buf[..4] + buf[4..8] + buf[8..];
  }
}
