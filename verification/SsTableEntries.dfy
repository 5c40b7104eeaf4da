/** Entries of the sorted table: their byte form, their framing in a segment, and the two decoders of framed bytes. */
module SsTableEntries {
  import opened Bytes
  import opened Options
  import opened Buffers
  import opened Sequences

  datatype SsTableEntry = SsTableEntry(key: Key, value: Option<seq<byte>>, lsn: nat) {

    function Len(): nat {
      2 * 4 + 8 + |key| + (if value.Some? then |value.value| + 1 else 1)
    }

    predicate Valid() {
      && |key| < U32_LIMIT
      && (value.Some? ==> |value.value| < U32_LIMIT)
      && lsn < U64_LIMIT
      && Len() < U32_LIMIT
    }
  }

  predicate AllValid(es: seq<SsTableEntry>) {
    forall i :: 0 <= i < |es| ==> es[i].Valid()
  }

  function Encode(e: SsTableEntry): (b: seq<byte>)
    ensures |b| == e.Len()
  {
    ToLE(|e.key|, 4) + e.key
    + (if e.value.Some? then ToLE(|e.value.value|, 4) + [0] + e.value.value else ToLE(0, 4) + [1])
    + ToLE(e.lsn, 8)
  }

  /** Decoding; None stands for the panic of a slice out of range. */
  function Decode(b: seq<byte>): Option<SsTableEntry> {
    if |b| < 4 || |b| < 4 + FromLE(b[..4]) then None
    else
      var keyLen := FromLE(b[..4]);
      var rest := b[4 + keyLen..];
      if |rest| < 5 || |rest| < 5 + FromLE(rest[..4]) + 8 then None
      else
        var valueLen := FromLE(rest[..4]);
        Some(SsTableEntry(b[4..4 + keyLen],
                          if rest[4] == 1 then None else Some(rest[5..5 + valueLen]),
                          FromLE(rest[5 + valueLen..5 + valueLen + 8])))
  }

  lemma {:induction false} ThreeParts(a: seq<byte>, b: seq<byte>, c: seq<byte>)
    ensures var s := a + b + c;
            s[..|a|] == a && s[|a|..|a| + |b|] == b && s[|a| + |b|..] == c
  {
  }

  /** Tombstones, empty values and empty keys included. */
  lemma {:induction false} DecodeEncode(e: SsTableEntry)
    requires e.Valid()
    ensures Decode(Encode(e)) == Some(e)
  {
    hide FromLE, ToLE, Encode;
    var b := Encode(e);
    var value := if e.value.Some? then e.value.value else [];
    U32RoundTrip(|e.key|);
    U32RoundTrip(|value|);
    U64RoundTrip(e.lsn);
    assert b == ToLE(|e.key|, 4) + e.key + BehindKey(e) by {
      EncodeIs(e);
    }
    ThreeParts(ToLE(|e.key|, 4), e.key, BehindKey(e));
    BehindKeyParts(e);
  }

  /** What follows the key. */
  function BehindKey(e: SsTableEntry): (b: seq<byte>) {
    var value := if e.value.Some? then e.value.value else [];
    ToLE(|value|, 4) + [if e.value.Some? then 0 else 1] + value + ToLE(e.lsn, 8)
  }

  lemma {:induction false} EncodeIs(e: SsTableEntry)
    ensures Encode(e) == ToLE(|e.key|, 4) + e.key + BehindKey(e)
  {
    hide ToLE;
  }

  lemma {:induction false} BehindKeyParts(e: SsTableEntry)
    ensures
      var value := if e.value.Some? then e.value.value else [];
      var rest := BehindKey(e);
      && |rest| == 5 + |value| + 8 && rest[..4] == ToLE(|value|, 4) && rest[4] == (if e.value.Some? then 0 else 1)
      && rest[5..5 + |value|] == value && rest[5 + |value|..5 + |value| + 8] == ToLE(e.lsn, 8)
  {
    hide ToLE;
    var value := if e.value.Some? then e.value.value else [];
    var flag: byte := if e.value.Some? then 0 else 1;
    ThreeParts(ToLE(|value|, 4) + [flag], value, ToLE(e.lsn, 8));
    assert BehindKey(e)[..4] == (ToLE(|value|, 4) + [flag])[..4] == ToLE(|value|, 4);
    assert BehindKey(e)[4] == (ToLE(|value|, 4) + [flag])[4];
    assert BehindKey(e)[5 + |value|..5 + |value| + 8] == BehindKey(e)[5 + |value|..];
  }

  lemma {:induction false} EncodeParts(e: SsTableEntry)
    ensures Encode(e) == ToLE(|e.key|, 4) + e.key
                         + (if e.value.Some? then ToLE(|e.value.value|, 4) + [0] + e.value.value else ToLE(0, 4) + [1])
                         + ToLE(e.lsn, 8)
  {
  }

  method ToBytes(e: SsTableEntry) returns (bytes: seq<byte>)
    ensures bytes == Encode(e)
  {
    hide ToLE, Encode;
    EncodeParts(e);
    var buf := new byte[e.Len()](_ => 0);
    var offset := 0;
    offset := AppendSlice(buf, 0, offset, ToLE(|e.key|, 4));
    offset := AppendSlice(buf, 0, offset, e.key);
    ghost var front := ToLE(|e.key|, 4) + e.key;
    assert buf[0..offset] == front;
    if e.value.Some? {
      offset := AppendSlice(buf, 0, offset, ToLE(|e.value.value|, 4));
      offset := AppendSlice(buf, 0, offset, [0]);
      offset := AppendSlice(buf, 0, offset, e.value.value);
      assert buf[0..offset] == front + (ToLE(|e.value.value|, 4) + [0] + e.value.value);
    } else {
      offset := AppendSlice(buf, 0, offset, ToLE(0, 4));
      offset := AppendSlice(buf, 0, offset, [1]);
      assert buf[0..offset] == front + (ToLE(0, 4) + [1]);
    }
    offset := AppendSlice(buf, 0, offset, ToLE(e.lsn, 8));
    bytes := buf[..];
    assert bytes == buf[0..offset];
  }

  // ---------- framing ----------

  function Frame(e: SsTableEntry): (b: seq<byte>)
    ensures |b| == FrameLen(e)
  {
    ToLE(e.Len(), 4) + Encode(e)
  }

  function FrameLen(e: SsTableEntry): nat {
    4 + e.Len()
  }

  function Frames(es: seq<SsTableEntry>): seq<byte> {
    if es == [] then [] else Frame(es[0]) + Frames(es[1..])
  }

  /** How many whole frames the first `n` bytes hold. */
  function Count(es: seq<SsTableEntry>, n: nat): (c: nat)
    ensures c <= |es|
  {
    if es == [] || n < FrameLen(es[0]) then 0 else 1 + Count(es[1..], n - FrameLen(es[0]))
  }

  lemma {:induction false} FramesConcat(a: seq<SsTableEntry>, b: seq<SsTableEntry>)
    ensures Frames(a + b) == Frames(a) + Frames(b)
  {
    hide Frame;
    if a == [] {
      assert a + b == b;
    } else {
      FramesConcat(a[1..], b);
      assert (a + b)[1..] == a[1..] + b && (a + b)[0] == a[0];
      ConcatAssoc(Frame(a[0]), Frames(a[1..]), Frames(b));
    }
  }

  lemma {:induction false} FramesTake(es: seq<SsTableEntry>, i: nat)
    requires i <= |es|
    ensures Frames(es) == Frames(es[..i]) + Frames(es[i..])
  {
    assert es == es[..i] + es[i..];
    FramesConcat(es[..i], es[i..]);
  }

  lemma {:induction false} FramesOne(e: SsTableEntry)
    ensures Frames([e]) == Frame(e)
  {
    hide Frame;
    var none: seq<SsTableEntry> := [e][1..];
    assert none == [];
  }

  lemma {:induction false} FramesNext(es: seq<SsTableEntry>, i: nat)
    requires i < |es|
    ensures Frames(es[..i + 1]) == Frames(es[..i]) + Frame(es[i])
    ensures Frames(es[i..]) == Frame(es[i]) + Frames(es[i + 1..])
  {
    hide Frame, Frames;
    assert es[..i + 1] == es[..i] + [es[i]];
    FramesConcat(es[..i], [es[i]]);
    FramesOne(es[i]);
    assert es[i..] == [es[i]] + es[i + 1..];
    FramesConcat([es[i]], es[i + 1..]);
  }

  /** `Count` is the largest number of frames that fit. */
  lemma {:induction false} CountFits(es: seq<SsTableEntry>, n: nat)
    ensures |Frames(es[..Count(es, n)])| <= n
    ensures Count(es, n) < |es| ==> n < |Frames(es[..Count(es, n)])| + FrameLen(es[Count(es, n)])
  {
    hide Frame;
    if es != [] && FrameLen(es[0]) <= n {
      var c := Count(es[1..], n - FrameLen(es[0]));
      CountFits(es[1..], n - FrameLen(es[0]));
      assert es[..c + 1][1..] == es[1..][..c];
    } else {
      assert Frames(es[..0]) == [];
    }
  }

  // ---------- decoding framed bytes ----------

  /** The decoder of the buffered reader: a frame that is cut off ends it. None stands for a panic. */
  function DequeFromBytes(bytes: seq<byte>): Option<seq<SsTableEntry>>
    decreases |bytes|
  {
    if |bytes| <= 4 then Some([])
    else
      var size := FromLE(bytes[..4]);
      if 4 + size > |bytes| then Some([])
      else
        var first := Decode(bytes[4..4 + size]);
        var rest := DequeFromBytes(bytes[4 + size..]);
        if first.None? || rest.None? then None else Some([first.value] + rest.value)
  }

  /** The decoder of point lookups: all bytes must be whole frames. */
  function VecFromBytes(bytes: seq<byte>): Option<seq<SsTableEntry>>
    decreases |bytes|
  {
    if bytes == [] then Some([])
    else if |bytes| < 4 || |bytes| < 4 + FromLE(bytes[..4]) then None
    else
      var size := FromLE(bytes[..4]);
      var first := Decode(bytes[4..4 + size]);
      var rest := VecFromBytes(bytes[4 + size..]);
      if first.None? || rest.None? then None else Some([first.value] + rest.value)
  }

  lemma {:induction false} FrontFrame(e: SsTableEntry, tail: seq<byte>)
    requires e.Valid()
    ensures
      var bytes := Frame(e) + tail;
      FromLE(bytes[..4]) == e.Len() && Decode(bytes[4..4 + e.Len()]) == Some(e) && bytes[4 + e.Len()..] == tail
  {
    hide FromLE, ToLE, Encode, Decode;
    var bytes := Frame(e) + tail;
    U32RoundTrip(e.Len());
    DecodeEncode(e);
    assert bytes[..4] == ToLE(e.Len(), 4) && bytes[4..4 + e.Len()] == Encode(e);
  }

  lemma {:induction false} VecStep(e: SsTableEntry, tail: seq<byte>)
    requires e.Valid()
    ensures VecFromBytes(Frame(e) + tail) ==
            var rest := VecFromBytes(tail);
            if rest.None? then None else Some([e] + rest.value)
  {
    hide FromLE, Decode, Frame;
    FrontFrame(e, tail);
  }

  /** The uncut stream is decoded completely by the strict decoder. */
  lemma {:induction false} VecOfFrames(es: seq<SsTableEntry>)
    requires AllValid(es)
    ensures VecFromBytes(Frames(es)) == Some(es)
  {
    hide FromLE, Frame, Decode;
    if es != [] {
      FrontFrame(es[0], Frames(es[1..]));
      VecOfFrames(es[1..]);
      VecStep(es[0], Frames(es[1..]));
      assert es == [es[0]] + es[1..];
    }
  }

  /**
   * For every framed stream, every cut point and up to four bytes read past its end, the lenient decoder returns
   * exactly the entries whose frames lie within the cut.
   */
  lemma {:induction false} DequeOfCut(es: seq<SsTableEntry>, beyond: seq<byte>, n: nat)
    requires AllValid(es) && |beyond| <= 4 && n <= |Frames(es) + beyond|
    ensures DequeFromBytes((Frames(es) + beyond)[..n]) == Some(es[..Count(es, n)])
  {
    hide FromLE, Frame, Decode, DequeFromBytes;
    var bytes := (Frames(es) + beyond)[..n];
    if es == [] {
      DequeShort(bytes);
      assert es[..0] == [];
    } else {
      var tail := Frames(es[1..]) + beyond;
      ConcatAssoc(Frame(es[0]), Frames(es[1..]), beyond);
      if n < FrameLen(es[0]) {
        DequeOfPart(es[0], tail, n);
        assert es[..0] == [];
      } else {
        var m := n - FrameLen(es[0]);
        DequeOfCut(es[1..], beyond, m);
        assert bytes == Frame(es[0]) + tail[..m];
        DequeOfFrame(es[0], tail[..m]);
        assert es[..Count(es, n)] == [es[0]] + es[1..][..Count(es[1..], m)];
      }
    }
  }

  lemma {:induction false} DequeShort(bytes: seq<byte>)
    requires |bytes| <= 4
    ensures DequeFromBytes(bytes) == Some([])
  {
  }

  lemma {:induction false} DequeOfPart(e: SsTableEntry, tail: seq<byte>, n: nat)
    requires e.Valid() && n < FrameLen(e)
    ensures DequeFromBytes((Frame(e) + tail)[..n]) == Some([])
  {
    hide FromLE, Decode, Frame;
    FrontFrame(e, tail);
    if n > 4 {
      assert (Frame(e) + tail)[..n][..4] == (Frame(e) + tail)[..4];
    }
  }

  lemma {:induction false} DequeOfFrame(e: SsTableEntry, tail: seq<byte>)
    requires e.Valid()
    ensures DequeFromBytes(Frame(e) + tail) ==
            var rest := DequeFromBytes(tail);
            if rest.None? then None else Some([e] + rest.value)
  {
    hide FromLE, Decode, Frame;
    FrontFrame(e, tail);
  }

  // ---------- the decoding loops ----------

  lemma {:induction false} DequeStep(bytes: seq<byte>, offset: nat)
    requires offset <= |bytes|
    ensures
      var r := DequeFromBytes(bytes[offset..]);
      if offset + 4 >= |bytes| then r == Some([])
      else
        var size := FromLE(bytes[offset..offset + 4]);
        if offset + 4 + size > |bytes| then r == Some([])
        else
          var first := Decode(bytes[offset + 4..offset + 4 + size]);
          var rest := DequeFromBytes(bytes[offset + 4 + size..]);
          r == if first.None? || rest.None? then None else Some([first.value] + rest.value)
  {
    hide FromLE, Decode;
    var s := bytes[offset..];
    if offset + 4 < |bytes| {
      assert s[..4] == bytes[offset..offset + 4];
      var size := FromLE(s[..4]);
      if offset + 4 + size <= |bytes| {
        assert s[4..4 + size] == bytes[offset + 4..offset + 4 + size];
        assert s[4 + size..] == bytes[offset + 4 + size..];
      }
    }
  }

  /** The loop of the lenient decoder; it stops with a panic where decoding an entry panics. */
  method DecodeDeque(bytes: seq<byte>) returns (res: seq<SsTableEntry>, panics: bool)
    ensures panics <==> DequeFromBytes(bytes).None?
    ensures !panics ==> DequeFromBytes(bytes) == Some(res)
  {
    hide FromLE, Decode, DequeFromBytes;
    res := [];
    panics := false;
    var offset := 0;
    assert bytes[0..] == bytes;
    ghost var whole := DequeFromBytes(bytes);
    assert whole.Some? ==> [] + whole.value == whole.value;
    while offset + 4 < |bytes|
      invariant 0 <= offset <= |bytes|
      invariant var rest := DequeFromBytes(bytes[offset..]);
                DequeFromBytes(bytes) == if rest.None? then None else Some(res + rest.value)
    {
      DequeStep(bytes, offset);
      var entrySize := FromLE(bytes[offset..offset + 4]);
      if offset + 4 + entrySize <= |bytes| {
        var e := Decode(bytes[offset + 4..offset + 4 + entrySize]);
        if e.None? {
          panics := true;
          return;
        }
        offset := offset + 4 + entrySize;
        Rejoin(res, e.value, DequeFromBytes(bytes[offset..]));
        res := res + [e.value];
      } else {
        break;
      }
    }
    DequeStep(bytes, offset);
    assert res + [] == res;
  }

  lemma {:induction false} Rejoin(a: seq<SsTableEntry>, e: SsTableEntry, rest: Option<seq<SsTableEntry>>)
    ensures rest.Some? ==> a + ([e] + rest.value) == (a + [e]) + rest.value
  {
  }
}
