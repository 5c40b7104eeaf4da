/** The buffered reader of a segment: exactly a queue over the segment's entries. */
module SsTableReadBuf {
  import opened Bytes
  import opened Options
  import opened SsTableEntries
  import opened SsTableIndex
  import opened SsTableSegment

  /** One read call: any non-empty part of what was asked for, nothing only at the end of the file. */
  method ReadAt(file: seq<byte>, offset: nat, n: nat) returns (bytes: seq<byte>)
    ensures |bytes| <= n && offset + |bytes| <= if offset <= |file| then |file| else offset
    ensures bytes == [] <==> n == 0 || offset >= |file|
    ensures offset <= |file| ==> bytes == file[offset..offset + |bytes|]
  {
    if n == 0 || offset >= |file| {
      return [];
    }
    var available := if offset + n <= |file| then n else |file| - offset;
    var k: nat :| 1 <= k <= available;
    bytes := file[offset..offset + k];
  }

  function Min(a: nat, b: nat): nat {
    if a <= b then a else b
  }

  /** At most `maxBytes`, and at most one byte past the data block, however the reads are split. */
  method ReadAtMost(s: Segment, offset: nat, maxBytes: nat) returns (entries: seq<SsTableEntry>, panics: bool)
    requires offset <= s.dataBlockEnd < |s.file|
    ensures
      var bytes := s.file[offset..offset + Min(s.dataBlockEnd - offset + 1, maxBytes)];
      panics == DequeFromBytes(bytes).None? && (!panics ==> DequeFromBytes(bytes) == Some(entries))
  {
    hide DequeFromBytes;
    var bytesToRead := Min(s.dataBlockEnd - offset + 1, maxBytes);
    var buf: seq<byte> := [];
    while |buf| < bytesToRead
      invariant |buf| <= bytesToRead
      invariant buf == s.file[offset..offset + |buf|]
      decreases bytesToRead - |buf|
    {
      var more := ReadAt(s.file, offset + |buf|, bytesToRead - |buf|);
      if more == [] {
        break;
      }
      assert s.file[offset..offset + |buf| + |more|] == buf + more;
      buf := buf + more;
    }
    entries, panics := DecodeDeque(buf);
  }

  lemma {:induction false} CountAll(es: seq<SsTableEntry>, n: nat)
    requires |Frames(es)| <= n
    ensures Count(es, n) == |es|
  {
    hide Frame;
    if es != [] {
      CountAll(es[1..], n - FrameLen(es[0]));
    }
  }

  lemma {:induction false} OneByteMore(file: seq<byte>, o: nat, end: nat, n: nat)
    requires o <= end < |file| && n <= end - o + 1
    ensures (file[o..end] + [file[end]])[..n] == file[o..o + n]
  {
  }

  /** What one fill decodes: all the frames that fit, the extra byte notwithstanding. */
  lemma {:induction false} ReadDecodes(s: Segment, es: seq<SsTableEntry>, d: nat, maxBytes: nat)
    requires Holds(s, es) && d <= |es|
    ensures OffsetOf(es, d) <= s.dataBlockEnd
    ensures
      var n := Min(s.dataBlockEnd - OffsetOf(es, d) + 1, maxBytes);
      var end := d + Count(es[d..], maxBytes);
      DequeFromBytes(s.file[OffsetOf(es, d)..OffsetOf(es, d) + n]) == Some(es[d..end])
  {
    hide Frames, Count, DequeFromBytes, Indexes, LastBlockHighest;
    var o := OffsetOf(es, d);
    WholeBlock(es);
    OffsetMono(es, d, |es|);
    assert es[d..|es|] == es[d..];
    var rest := es[d..];
    Block(s.file, es, d, |es|);
    var n := Min(s.dataBlockEnd - o + 1, maxBytes);
    var beyond := [s.file[s.dataBlockEnd]];
    OneByteMore(s.file, o, s.dataBlockEnd, n);
    DequeOfCut(rest, beyond, n);
    if n < maxBytes {
      CountAll(rest, n);
      CountAll(rest, maxBytes);
    }
    assert rest[..Count(rest, n)] == es[d..d + Count(rest, n)];
  }

  class SegmentReadBuf {
    const segment: Segment
    const maxSize: nat
    var buf: seq<SsTableEntry>
    var currOffset: nat
    var size: nat
    ghost const es: seq<SsTableEntry>
    ghost var popped: nat
    ghost var decoded: nat

    ghost predicate IsQueue()
      reads this
    {
      popped <= decoded <= |es| && buf == es[popped..decoded]
    }

    /** Popped, buffered and undecoded entries make up the segment, and the two counters say where the cuts are. */
    ghost predicate Valid()
      reads this
    {
      && Holds(segment, es)
      && IsQueue()
      && currOffset == OffsetOf(es, decoded)
      && size == |Frames(buf)| <= maxSize
    }

    constructor (segment: Segment, readBufLen: nat, ghost es: seq<SsTableEntry>)
      requires Holds(segment, es)
      ensures Valid() && popped == 0 && decoded == 0 && buf == []
      ensures this.segment == segment && maxSize == readBufLen && this.es == es
    {
      hide Holds;
      WholeBlock(es);
      this.segment, maxSize, this.es := segment, readBufLen, es;
      buf, currOffset, size := [], 0, 0;
      popped, decoded := 0, 0;
    }

    method Fill()
      requires Valid()
      modifies this
      ensures Valid() && popped == old(popped)
      ensures decoded == old(decoded) + Count(es[old(decoded)..], maxSize - old(size))
    {
      hide Frames, Count, DequeFromBytes, Holds, OffsetOf;
      var maxBytes := maxSize - size;
      ghost var d := decoded;
      ReadDecodes(segment, es, d, maxBytes);
      HoldsEnd(segment, es);
      var newEntries, panics := ReadAtMost(segment, currOffset, maxBytes);
      ghost var end := d + Count(es[d..], maxBytes);
      FilledSize(es, popped, d, maxBytes);
      for i := 0 to |newEntries|
        invariant popped == old(popped) && decoded == d + i
        invariant buf == es[popped..decoded] && currOffset == OffsetOf(es, decoded) && size == |Frames(buf)|
        invariant newEntries == es[d..end]
      {
        var entry := newEntries[i];
        assert entry == es[decoded];
        StepSize(es, popped, decoded);
        size := size + entry.Len() + 4;
        currOffset := currOffset + entry.Len() + 4;
        assert es[popped..decoded + 1] == buf + [entry];
        buf := buf + [entry];
        decoded := decoded + 1;
      }
    }

    function Back(): (r: Option<SsTableEntry>)
      requires IsQueue()
      reads this
      ensures r == if popped == decoded then None else Some(es[decoded - 1])
    {
      if buf == [] then None else Some(buf[|buf| - 1])
    }

    function Front(): (r: Option<SsTableEntry>)
      requires IsQueue()
      reads this
      ensures r == if popped == decoded then None else Some(es[popped])
    {
      if buf == [] then None else Some(buf[0])
    }

    method PopFront() returns (entry: Option<SsTableEntry>)
      requires Valid()
      modifies this
      ensures Valid() && decoded == old(decoded)
      ensures entry == old(Front())
      ensures popped == old(popped) + if entry.Some? then 1 else 0
    {
      hide Frames, Holds, OffsetOf;
      if buf == [] {
        return None;
      }
      entry := Some(buf[0]);
      FramesHead(buf);
      size := size - (entry.value.Len() + 4);
      buf := buf[1..];
      popped := popped + 1;
    }

    predicate IsEmpty()
      reads this
    {
      buf == []
    }
  }

  lemma {:induction false} HoldsEnd(s: Segment, es: seq<SsTableEntry>)
    requires Holds(s, es)
    ensures s.dataBlockEnd < |s.file|
  {
  }

  lemma {:induction false} FramesHead(es: seq<SsTableEntry>)
    requires es != []
    ensures |Frames(es)| == FrameLen(es[0]) + |Frames(es[1..])|
  {
  }

  lemma {:induction false} StepSize(es: seq<SsTableEntry>, p: nat, d: nat)
    requires p <= d < |es|
    ensures OffsetOf(es, d + 1) == OffsetOf(es, d) + FrameLen(es[d])
    ensures |Frames(es[p..d + 1])| == |Frames(es[p..d])| + FrameLen(es[d])
  {
    hide Frames, Frame;
    FramesNext(es, d);
    var part := es[p..];
    FramesNext(part, d - p);
    assert part[..d - p] == es[p..d] && part[..d - p + 1] == es[p..d + 1];
  }

  /** The buffered bytes stay within the limit. */
  lemma {:induction false} FilledSize(es: seq<SsTableEntry>, p: nat, d: nat, maxBytes: nat)
    requires p <= d <= |es|
    ensures
      var end := d + Count(es[d..], maxBytes);
      |Frames(es[p..end])| <= |Frames(es[p..d])| + maxBytes
  {
    hide Frames, Frame;
    var c := Count(es[d..], maxBytes);
    CountFits(es[d..], maxBytes);
    assert es[d..][..c] == es[d..d + c];
    assert es[p..d + c] == es[p..d] + es[d..d + c];
    FramesConcat(es[p..d], es[d..d + c]);
  }

  /** How far a reader of this size ever gets: to the first entry whose frame does not fit. */
  function Reach(es: seq<SsTableEntry>, maxSize: nat): (r: nat)
    ensures r <= |es|
  {
    if es == [] || FrameLen(es[0]) > maxSize then 0 else 1 + Reach(es[1..], maxSize)
  }

  /** `Reach` is exactly the end of the segment or the first frame that is too long. */
  lemma {:induction false} ReachIsFirstTooLong(es: seq<SsTableEntry>, maxSize: nat, k: nat)
    requires k <= |es|
    ensures Reach(es, maxSize) == k <==>
            (forall i :: 0 <= i < k ==> FrameLen(es[i]) <= maxSize) && (k < |es| ==> FrameLen(es[k]) > maxSize)
  {
    if es != [] && FrameLen(es[0]) <= maxSize {
      if k > 0 {
        ReachIsFirstTooLong(es[1..], maxSize, k - 1);
        assert forall i :: 1 <= i < k ==> es[i] == es[1..][i - 1];
        assert forall i :: 0 <= i < k - 1 ==> es[1..][i] == es[i + 1];
      }
    }
  }

  /** A fill never passes `Reach`, and an empty buffer is still empty after a fill exactly when it has arrived there. */
  lemma {:induction false} FillProgress(es: seq<SsTableEntry>, p: nat, d: nat, maxSize: nat)
    requires p <= d <= Reach(es, maxSize) && |Frames(es[p..d])| <= maxSize
    ensures
      var end := d + Count(es[d..], maxSize - |Frames(es[p..d])|);
      && end <= Reach(es, maxSize)
      && (p == end <==> p == Reach(es, maxSize))
  {
    hide Frames, Frame;
    var rest := es[d..];
    var n := maxSize - |Frames(es[p..d])|;
    ReachFrom(es, d, maxSize);
    CountReach(rest, n, maxSize);
    if p == d {
      var none: seq<SsTableEntry> := es[p..d];
      assert none == [];
      EmptyFrames(none);
      CountZero(rest, n);
      ReachZero(rest, maxSize);
    }
  }

  lemma {:induction false} EmptyFrames(es: seq<SsTableEntry>)
    requires es == []
    ensures |Frames(es)| == 0
  {
  }

  lemma {:induction false} CountZero(es: seq<SsTableEntry>, n: nat)
    ensures Count(es, n) == 0 <==> es == [] || n < FrameLen(es[0])
  {
  }

  lemma {:induction false} ReachZero(es: seq<SsTableEntry>, n: nat)
    ensures Reach(es, n) == 0 <==> es == [] || n < FrameLen(es[0])
  {
  }

  lemma {:induction false} ReachFrom(es: seq<SsTableEntry>, d: nat, maxSize: nat)
    requires d <= Reach(es, maxSize)
    ensures d <= |es| && Reach(es, maxSize) == d + Reach(es[d..], maxSize)
  {
    if d == 0 {
      assert es[0..] == es;
    } else {
      ReachFrom(es[1..], d - 1, maxSize);
      assert es[1..][d - 1..] == es[d..];
    }
  }

  lemma {:induction false} CountReach(es: seq<SsTableEntry>, n: nat, maxSize: nat)
    requires n <= maxSize
    ensures Count(es, n) <= Reach(es, maxSize)
  {
    if es != [] && FrameLen(es[0]) <= n {
      CountReach(es[1..], n - FrameLen(es[0]), maxSize);
    }
  }
}
