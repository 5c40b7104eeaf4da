/** Segments of the sorted table: their file layout, the two writers, opening, and point lookups through the sparse index. */
module SsTableSegment {
  import opened Bytes
  import opened Options
  import opened SsTableEntries
  import opened SsTableIndex

  const MAGIC_BYTES: seq<byte> := [0x72, 0x6B, 0x76, 0x73]
  const SEGMENT_FOOTER_LEN: nat := 12

  function Footer(indexOffset: nat): (b: seq<byte>)
    ensures |b| == SEGMENT_FOOTER_LEN
  {
    ToLE(indexOffset, 8) + MAGIC_BYTES
  }

  ghost predicate StrictlyIncreasing(es: seq<SsTableEntry>) {
    forall i, j :: 0 <= i < j < |es| ==> Less(es[i].key, es[j].key)
  }

  // ---------- layout ----------

  /** The offset of entry `p` in the data block. */
  function OffsetOf(es: seq<SsTableEntry>, p: nat): nat
    requires p <= |es|
  {
    |Frames(es[..p])|
  }

  /** The index entry that names entry `p`. */
  function At(es: seq<SsTableEntry>, p: nat): IndexEntry
    requires p < |es|
  {
    IndexEntry(es[p].key, OffsetOf(es, p))
  }

  ghost predicate Names(es: seq<SsTableEntry>, p: nat, i: IndexEntry) {
    p < |es| && i == At(es, p)
  }

  ghost predicate Named(es: seq<SsTableEntry>, i: IndexEntry) {
    exists p: nat :: Names(es, p, i)
  }

  /** Any choice of entries, in order, makes an index; the first record need not be in it. */
  ghost predicate Indexes(es: seq<SsTableEntry>, ixs: seq<IndexEntry>) {
    && (forall j :: 0 <= j < |ixs| ==> Named(es, ixs[j]))
    && (forall i, j :: 0 <= i < j < |ixs| ==> ixs[i].offset < ixs[j].offset)
  }

  /** A complete segment file over `es` with index `ixs`. */
  ghost predicate IsSegmentFile(file: seq<byte>, es: seq<SsTableEntry>, ixs: seq<IndexEntry>) {
    && es != [] && AllValid(es) && Indexes(es, ixs) && |Frames(es)| < U64_LIMIT
    && file == Frames(es) + EncodeAll(ixs) + Footer(|Frames(es)|)
  }

  lemma {:induction false} OffsetMono(es: seq<SsTableEntry>, p: nat, q: nat)
    requires p <= q <= |es|
    ensures OffsetOf(es, q) == OffsetOf(es, p) + |Frames(es[p..q])|
    ensures p < q ==> OffsetOf(es, p) + 4 <= OffsetOf(es, q)
    ensures OffsetOf(es, q) <= |Frames(es)|
  {
    hide Frames, Frame;
    assert es[..q] == es[..p] + es[p..q];
    FramesConcat(es[..p], es[p..q]);
    FramesTake(es, q);
    if p < q {
      FramesNext(es[p..q], 0);
      assert es[p..q][0..] == es[p..q];
    }
  }

  /** The bytes of a run of entries. */
  lemma {:induction false} Block(file: seq<byte>, es: seq<SsTableEntry>, p: nat, q: nat)
    requires p <= q <= |es| && |Frames(es)| <= |file| && file[..|Frames(es)|] == Frames(es)
    ensures OffsetOf(es, p) <= OffsetOf(es, q) <= |file|
    ensures file[OffsetOf(es, p)..OffsetOf(es, q)] == Frames(es[p..q])
  {
    hide Frames, Frame;
    OffsetMono(es, p, q);
    assert es[..q] == es[..p] + es[p..q];
    FramesConcat(es[..p], es[p..q]);
    FramesTake(es, q);
    var a, b := OffsetOf(es, p), OffsetOf(es, q);
    assert Frames(es)[..b] == Frames(es[..q]);
    assert file[..|Frames(es)|][..b] == file[..b];
    assert file[a..b] == file[..b][a..];
  }

  lemma {:induction false} WholeBlock(es: seq<SsTableEntry>)
    ensures OffsetOf(es, 0) == 0 && OffsetOf(es, |es|) == |Frames(es)|
  {
    assert es[..0] == [] && es[..|es|] == es;
  }

  lemma {:induction false} IndexAscends(es: seq<SsTableEntry>, ixs: seq<IndexEntry>)
    requires StrictlyIncreasing(es) && Indexes(es, ixs)
    ensures KeysAscend(ixs)
  {
    hide Frames, Less;
    forall i, j | 0 <= i < j < |ixs| ensures Less(ixs[i].key, ixs[j].key) {
      var p: nat :| Names(es, p, ixs[i]);
      var q: nat :| Names(es, q, ixs[j]);
      if q <= p {
        OffsetMono(es, q, p);
      }
    }
  }

  lemma {:induction false} IndexValid(es: seq<SsTableEntry>, ixs: seq<IndexEntry>)
    requires AllValid(es) && Indexes(es, ixs) && |Frames(es)| < U64_LIMIT
    ensures AllValidIndices(ixs)
  {
    hide Frames;
    forall j | 0 <= j < |ixs| ensures ixs[j].Valid() {
      var p: nat :| Names(es, p, ixs[j]);
      OffsetMono(es, p, |es|);
      WholeBlock(es);
    }
  }

  // ---------- the index a writer builds ----------

  /** Every `sparsity`-th entry, counted from `phase`. */
  function SparseIndex(es: seq<SsTableEntry>, sparsity: nat, phase: nat): seq<IndexEntry>
    requires sparsity > 0
  {
    if es == [] then []
    else
      var n := |es| - 1;
      SparseIndex(es[..n], sparsity, phase)
      + if (n + phase) % sparsity == 0 then [IndexEntry(es[n].key, |Frames(es[..n])|)] else []
  }

  lemma {:induction false} StillNamed(es: seq<SsTableEntry>, e: SsTableEntry, ixs: seq<IndexEntry>, j: nat)
    requires Indexes(es, ixs) && j < |ixs|
    ensures Named(es + [e], ixs[j])
    ensures ixs[j].offset < |Frames(es)|
  {
    hide Frames;
    var p: nat :| Names(es, p, ixs[j]);
    assert (es + [e])[..p] == es[..p];
    assert Names(es + [e], p, ixs[j]);
    OffsetMono(es, p, |es|);
    WholeBlock(es);
  }

  lemma {:induction false} IndexesSnoc(es: seq<SsTableEntry>, ixs: seq<IndexEntry>, e: SsTableEntry)
    requires Indexes(es, ixs)
    ensures Indexes(es + [e], ixs)
    ensures Indexes(es + [e], ixs + [IndexEntry(e.key, |Frames(es)|)])
  {
    hide Frames, Named;
    NewNamed(es, e);
    forall j | 0 <= j < |ixs| ensures Named(es + [e], ixs[j]) && ixs[j].offset < |Frames(es)| {
      StillNamed(es, e, ixs, j);
    }
  }

  lemma {:induction false} NewNamed(es: seq<SsTableEntry>, e: SsTableEntry)
    ensures Named(es + [e], IndexEntry(e.key, |Frames(es)|))
  {
    hide Frames;
    assert (es + [e])[..|es|] == es;
    assert Names(es + [e], |es|, IndexEntry(e.key, |Frames(es)|));
  }

  /** For every sparsity and phase, the writers' index is a proper one. */
  lemma {:induction false} SparseIndexIndexes(es: seq<SsTableEntry>, sparsity: nat, phase: nat)
    requires sparsity > 0
    ensures Indexes(es, SparseIndex(es, sparsity, phase))
    decreases |es|
  {
    hide Frames, Indexes;
    if es == [] {
      EmptyIndex(es);
    } else {
      var n := |es| - 1;
      var front := es[..n];
      SparseIndexIndexes(front, sparsity, phase);
      var ixs := SparseIndex(front, sparsity, phase);
      IndexesSnoc(front, ixs, es[n]);
      assert es == front + [es[n]];
      var none: seq<IndexEntry> := [];
      assert ixs + none == ixs;
    }
  }

  lemma {:induction false} EmptyIndex(es: seq<SsTableEntry>)
    ensures Indexes(es, [])
  {
  }

  /** Exactly the entries at every `sparsity`-th position are in it. */
  lemma {:induction false} SparseIndexIff(es: seq<SsTableEntry>, sparsity: nat, phase: nat, p: nat)
    requires sparsity > 0 && p < |es|
    ensures At(es, p) in SparseIndex(es, sparsity, phase) <==> (p + phase) % sparsity == 0
    decreases |es|
  {
    hide Frames, Frame;
    var n := |es| - 1;
    var front := es[..n];
    if p < n {
      SparseIndexIff(front, sparsity, phase, p);
      assert front[..p] == es[..p];
      OffsetMono(es, p, n);
    } else {
      SparseIndexBefore(front, sparsity, phase);
    }
  }

  lemma {:induction false} SparseIndexBefore(es: seq<SsTableEntry>, sparsity: nat, phase: nat)
    requires sparsity > 0
    ensures forall i :: i in SparseIndex(es, sparsity, phase) ==> i.offset < |Frames(es)|
    decreases |es|
  {
    hide Frames, Frame;
    if es != [] {
      var n := |es| - 1;
      SparseIndexBefore(es[..n], sparsity, phase);
      OffsetMono(es, n, |es|);
      WholeBlock(es);
    }
  }

  /** The flush starts its index with the first record; the merge writer does so only when every record is indexed. */
  lemma {:induction false} FirstRecordIndexed(e: SsTableEntry, sparsity: nat)
    requires sparsity > 0
    ensures SparseIndex([e], sparsity, 0) == [IndexEntry(e.key, 0)]
    ensures SparseIndex([e], sparsity, 1) == if sparsity == 1 then [IndexEntry(e.key, 0)] else []
  {
    var none: seq<SsTableEntry> := [e][..0];
    assert none == [];
    assert Frames(none) == [];
    assert 0 % sparsity == 0;
    if sparsity > 1 {
      assert 1 % sparsity == 1;
    }
  }

  // ---------- opening ----------

  datatype Segment = Segment(file: seq<byte>, number: nat, index: SegmentIndex, highestSequenceNo: nat, dataBlockEnd: nat,
                             firstKey: Key, lastKey: Key)

  // Corrupted: the magic bytes are missing. Panicked: the original aborts, as it does on a segment without entries.
  datatype OpenResult = Opened(segment: Segment) | Corrupted | IoError | Panicked

  /** The opened segment stands for the entries `es`. */
  ghost predicate Holds(s: Segment, es: seq<SsTableEntry>) {
    && es != [] && AllValid(es)
    && s.dataBlockEnd == |Frames(es)| < |s.file| && s.file[..|Frames(es)|] == Frames(es)
    && Indexes(es, s.index.indices)
    && s.firstKey == es[0].key && s.lastKey == es[|es| - 1].key
    && LastBlockHighest(es, s.index.indices, s.highestSequenceNo)
  }

  /** The number recovery uses: the highest of the last index block only, hence of some entry, not of all. */
  ghost predicate LastBlockHighest(es: seq<SsTableEntry>, ixs: seq<IndexEntry>, n: nat) {
    exists p: nat :: p < |es| && OffsetOf(es,
    p) == (if ixs == [] then 0 else ixs[|ixs| - 1].offset) && IsHighest(es[p..], n)
  }

  ghost predicate IsHighest(es: seq<SsTableEntry>, n: nat) {
    (exists e :: e in es && e.lsn == n) && (forall e :: e in es ==> e.lsn <= n)
  }

  /** A read at `offset` into a zeroed buffer of `n` bytes; past the end of the file the zeros stay. */
  function ReadPadded(file: seq<byte>, offset: nat, n: nat): (b: seq<byte>)
    ensures |b| == n
  {
    if offset >= |file| then Zeros(n)
    else if offset + n <= |file| then file[offset..offset + n]
    else file[offset..] + Zeros(offset + n - |file|)
  }

  /** None stands for a panic while decoding. */
  function ReadTableEntry(file: seq<byte>, offset: nat): Option<SsTableEntry> {
    var entryLen := FromLE(ReadPadded(file, offset, 4));
    Decode(ReadPadded(file, offset + 4, entryLen))
  }

  function ReadTableEntries(file: seq<byte>, start: nat, end: nat): Option<seq<SsTableEntry>> {
    if end < start then None else VecFromBytes(ReadPadded(file, start, end - start))
  }

  lemma {:induction false} ReadEntryAt(file: seq<byte>, es: seq<SsTableEntry>, p: nat)
    requires AllValid(es) && p < |es| && |Frames(es)| <= |file| && file[..|Frames(es)|] == Frames(es)
    ensures ReadTableEntry(file, OffsetOf(es, p)) == Some(es[p])
  {
    hide Frames, Frame, Decode, FromLE, Encode, ToLE;
    var o, e := OffsetOf(es, p), es[p];
    Block(file, es, p, p + 1);
    assert es[p..p + 1] == [e];
    FramesOne(e);
    OffsetMono(es, p, p + 1);
    var none: seq<byte> := [];
    FrontFrame(e, none);
    assert Frame(e) + none == Frame(e);
    var b := file[o..OffsetOf(es, p + 1)];
    assert b == Frame(e);
    assert ReadPadded(file, o, 4) == b[..4];
    assert ReadPadded(file, o + 4, e.Len()) == b[4..4 + e.Len()];
  }

  lemma {:induction false} ReadBlock(file: seq<byte>, es: seq<SsTableEntry>, p: nat, q: nat)
    requires AllValid(es) && p <= q <= |es| && |Frames(es)| < |file| && file[..|Frames(es)|] == Frames(es)
    ensures ReadTableEntries(file, OffsetOf(es, p), OffsetOf(es, q)) == Some(es[p..q])
  {
    hide Frames, Frame, VecFromBytes;
    Block(file, es, p, q);
    OffsetMono(es, p, q);
    VecOfFrames(es[p..q]);
  }

  /** Where the last index block starts. */
  lemma {:induction false} LastBlockStart(es: seq<SsTableEntry>, ixs: seq<IndexEntry>) returns (p: nat)
    requires es != [] && Indexes(es, ixs)
    ensures p < |es| && OffsetOf(es, p) == if ixs == [] then 0 else ixs[|ixs| - 1].offset
  {
    hide Frames;
    if ixs == [] {
      p := 0;
      WholeBlock(es);
    } else {
      p :| Names(es, p, ixs[|ixs| - 1]);
    }
  }

  lemma {:induction false} FileParts(file: seq<byte>, es: seq<SsTableEntry>, ixs: seq<IndexEntry>)
    requires IsSegmentFile(file, es, ixs)
    ensures
      var n := |Frames(es)|;
      && |file| == n + |EncodeAll(ixs)| + 12
      && file[|file| - 4..] == MAGIC_BYTES && FromLE(file[|file| - 12..|file| - 4]) == n
      && file[n..|file| - 12] == EncodeAll(ixs) && file[..n] == Frames(es)
  {
    hide Frames, EncodeAll, FromLE, ToLE;
    U64RoundTrip(|Frames(es)|);
    ThreeParts(Frames(es), EncodeAll(ixs), Footer(|Frames(es)|));
    var m := |Frames(es)| + |EncodeAll(ixs)|;
    assert file[m..] == ToLE(|Frames(es)|, 8) + MAGIC_BYTES;
    assert file[m..][..8] == file[m..m + 8] && file[m..][8..] == file[m + 8..];
  }

  /** Opening a complete file over any entries and index gives a segment that stands for them. */
  method FromFile(file: seq<byte>, number: nat, ghost es: seq<SsTableEntry>, ghost ixs: seq<IndexEntry>)
    returns (res: OpenResult)
    ensures IsSegmentFile(file, es, ixs) ==>
              res.Opened? && Holds(res.segment, es) && res.segment.index.indices == ixs
              && res.segment.file == file && res.segment.number == number
    ensures IsSegmentFile(file, es, ixs) ==>
              exists p: nat ::
                && p < |es| && OffsetOf(es, p) == (if ixs == [] then 0 else ixs[|ixs| - 1].offset)
                && (exists q :: p <= q < |es| && es[q].lsn == res.segment.highestSequenceNo)
                && forall q :: p <= q < |es| ==> es[q].lsn <= res.segment.highestSequenceNo
    ensures |file| >= 12 && file[|file| - 4..] != MAGIC_BYTES ==> res == Corrupted
    ensures |file| >= 12 && file[|file| - 4..] == MAGIC_BYTES && ReadTableEntry(file, 0).None? ==> res == Panicked
    ensures res.Opened? ==> res.segment.file == file && res.segment.number == number
  {
    hide FromLE, DecodeAll, EncodeAll, ReadTableEntry, ReadTableEntries, Frames, Footer, Indexes;
    ghost var proper := IsSegmentFile(file, es, ixs);
    if |file| < 12 {
      return IoError;
    }
    if file[|file| - 4..] != MAGIC_BYTES {
      if proper {
        FileParts(file, es, ixs);
      }
      return Corrupted;
    }
    var indexOffset := FromLE(file[|file| - 12..|file| - 4]);
    if proper {
      FileParts(file, es, ixs);
      IndexValid(es, ixs);
      DecodeEncodeAll(ixs);
      WholeBlock(es);
      ReadEntryAt(file, es, 0);
    }
    if indexOffset + 12 > |file| {
      return Panicked;
    }
    var index, panics := SsTableIndex.FromBytes(file[indexOffset..|file| - 12]);
    if panics {
      return Panicked;
    }
    var first := ReadTableEntry(file, 0);
    if first.None? {
      return Panicked;
    }
    var start := if index.indices == [] then 0 else index.indices[|index.indices| - 1].offset;
    var entries := ReadTableEntries(file, start, indexOffset);
    ghost var p: nat := 0;
    if proper {
      p := LastBlockStart(es, ixs);
      ReadBlock(file, es, p, |es|);
      assert es[p..|es|] == es[p..];
    }
    if entries.None? {
      return Panicked;
    }
    var highest := HighestOf(entries.value);
    var lastKey := if entries.value == [] then first.value.key else entries.value[|entries.value| - 1].key;
    res := Opened(Segment(file, number, index, highest, indexOffset, first.value.key, lastKey));
    if proper {
      assert entries.value == es[p..];
      assert LastBlockHighest(es, ixs, highest);
      HighestBehind(es, p, highest);
    }
  }

  lemma {:induction false} HighestBehind(es: seq<SsTableEntry>, p: nat, n: nat)
    requires p < |es| && IsHighest(es[p..], n)
    ensures (exists q :: p <= q < |es| && es[q].lsn == n) && forall q :: p <= q < |es| ==> es[q].lsn <= n
  {
    var e :| e in es[p..] && e.lsn == n;
    var k :| 0 <= k < |es[p..]| && es[p..][k] == e;
    assert es[p + k].lsn == n;
    forall q | p <= q < |es| ensures es[q].lsn <= n {
      assert es[p..][q - p] == es[q] && es[q] in es[p..];
    }
  }

  method HighestOf(entries: seq<SsTableEntry>) returns (highest: nat)
    ensures entries != [] ==> IsHighest(entries, highest)
  {
    highest := 0;
    for i := 0 to |entries|
      invariant forall j :: 0 <= j < i ==> entries[j].lsn <= highest
      invariant highest == 0 || exists j :: 0 <= j < i && entries[j].lsn == highest
    {
      if entries[i].lsn > highest {
        highest := entries[i].lsn;
      }
    }
    assert entries != [] && highest == 0 ==> entries[0].lsn == highest;
  }

  /** A segment without entries could be written but not opened again: its footer is read as a first entry and aborts. */
  method OpenEmptySegment() returns (res: OpenResult)
    ensures res == Panicked
  {
    hide ReadTableEntry;
    FooterIsNoEntry();
    res := FromFile(Footer(0), 0, [], []);
  }

  /** The footer of a file without entries, read as an entry. */
  lemma {:induction false} FooterIsNoEntry()
    ensures var file := Footer(0); file[|file| - 4..] == MAGIC_BYTES && ReadTableEntry(file, 0).None?
  {
    hide FromLE, ToLE, Zeros, Decode;
    var file := Footer(0);
    ZeroLE(8);
    ZeroLE(4);
    U32RoundTrip(0);
    ZerosTake(8, 4);
    assert ReadPadded(file, 0, 4) == Zeros(8)[..4];
    DecodeNothing(ReadPadded(file, 4, 0));
  }

  lemma {:induction false} ZerosTake(n: nat, k: nat)
    requires k <= n
    ensures Zeros(n)[..k] == Zeros(k)
  {
  }

  lemma {:induction false} DecodeNothing(b: seq<byte>)
    requires b == []
    ensures Decode(b) == None
  {
  }

  // ---------- lookups ----------

  /** What the plain map of the entries answers. */
  ghost predicate Answers(es: seq<SsTableEntry>, key: Key, r: Option<SsTableEntry>) {
    match r
    case None => forall i :: 0 <= i < |es| ==> es[i].key != key
    case Some(e) => e in es && e.key == key
  }

  datatype GetResult = Found(entry: Option<SsTableEntry>) | GetPanicked

  /** The block that `Located` names is a run of entries that contains the key if any does. */
  ghost predicate BlockOf(es: seq<SsTableEntry>, key: Key, start: nat, end: nat, p: nat, q: nat) {
    && p <= q <= |es| && start == OffsetOf(es, p) && end == OffsetOf(es, q)
    && (forall i :: 0 <= i < p ==> Less(es[i].key, key))
    && (forall i :: q <= i < |es| ==> Less(key, es[i].key))
  }

  lemma {:induction false} LocatedMatch(es: seq<SsTableEntry>, ixs: seq<IndexEntry>, key: Key, b: nat)
    requires Indexes(es, ixs) && b <= |ixs| && Located(ixs, key, b).Match?
    ensures exists p: nat :: p < |es| && OffsetOf(es, p) == Located(ixs, key, b).offset && es[p].key == key
  {
    hide Frames;
    var p: nat :| Names(es, p, ixs[b - 1]);
  }

  lemma {:induction false} LocatedRange(es: seq<SsTableEntry>, ixs: seq<IndexEntry>, key: Key, b: nat) returns (p: nat,
                                        q: nat)
    requires StrictlyIncreasing(es) && Indexes(es, ixs) && Floor(ixs, key, b) && Located(ixs, key, b).Range?
    ensures
      var r := Located(ixs, key, b);
      BlockOf(es, key, r.start, if r.end.Some? then r.end.value else |Frames(es)|, p, q)
  {
    hide Frames, Less;
    LessIsStrictTotalOrder();
    WholeBlock(es);
    p, q := 0, |es|;
    if b > 0 {
      p :| Names(es, p, ixs[b - 1]);
      forall i | 0 <= i < p ensures Less(es[i].key, key) {
        assert Less(es[i].key, es[p].key);
      }
    }
    if b < |ixs| {
      q :| Names(es, q, ixs[b]);
      forall i | q <= i < |es| ensures Less(key, es[i].key) {
        assert i > q ==> Less(es[q].key, es[i].key);
      }
      assert b > 0 ==> ixs[b - 1].offset < ixs[b].offset;
      if q < p {
        OffsetMono(es, q, p);
      }
    }
  }

  lemma {:induction false} ScanAnswers(es: seq<SsTableEntry>, key: Key, start: nat, end: nat, p: nat, q: nat,
                                       r: Option<SsTableEntry>)
    requires BlockOf(es, key, start, end, p, q) && Answers(es[p..q], key, r)
    ensures Answers(es, key, r)
  {
    hide Frames, Less;
    LessIsStrictTotalOrder();
    if r.None? {
      forall i | 0 <= i < |es| ensures es[i].key != key {
        if p <= i < q {
          assert es[p..q][i - p] == es[i];
        }
      }
    }
  }

  /** The linear scan of a block, which stops at the first larger key. */
  method ScanBlock(entries: seq<SsTableEntry>, key: Key) returns (r: Option<SsTableEntry>)
    ensures StrictlyIncreasing(entries) ==> Answers(entries, key, r)
  {
    hide Less;
    LessIsStrictTotalOrder();
    for i := 0 to |entries|
      invariant forall j :: 0 <= j < i ==> entries[j].key != key
    {
      if entries[i].key == key {
        return Some(entries[i]);
      } else if Less(key, entries[i].key) {
        assert StrictlyIncreasing(entries) ==> forall j :: i < j < |entries| ==> Less(entries[i].key, entries[j].key);
        return None;
      }
    }
    return None;
  }

  /**
   * A lookup answers as the plain map of the entries does, whatever the sparsity and wherever the index begins.
   * With `es` arbitrary, it also says that no lookup in such a segment panics.
   */
  method Get(s: Segment, key: Key, ghost es: seq<SsTableEntry>) returns (res: GetResult)
    ensures Holds(s, es) && StrictlyIncreasing(es) ==> res.Found? && Answers(es, key, res.entry)
  {
    hide Frames, Less, ReadTableEntry, ReadTableEntries, Indexes, KeysAscend, Floor, Answers, StrictlyIncreasing,
         LastBlockHighest,
         IsHighest;
    ghost var proper := Holds(s, es) && StrictlyIncreasing(es);
    var found := Find(s.index.indices, key);
    ghost var b: nat := 0;
    if proper {
      IndexAscends(es, s.index.indices);
      b :| b <= |s.index.indices| && Floor(s.index.indices, key, b) && found == Located(s.index.indices, key, b);
    }
    match found {
      case Match(offset) =>
        var e := ReadTableEntry(s.file, offset);
        if proper {
          MatchAnswers(s, key, es, b);
        }
        res := if e.None? then GetPanicked else Found(e);
      case Range(start, opt) =>
        var end := if opt.Some? then opt.value else s.dataBlockEnd;
        var entries := ReadTableEntries(s.file, start, end);
        ghost var p: nat, q: nat := 0, 0;
        if proper {
          p, q := LocatedRange(es, s.index.indices, key, b);
          ReadBlock(s.file, es, p, q);
        }
        if entries.None? {
          return GetPanicked;
        }
        var r := ScanBlock(entries.value, key);
        if proper {
          SubIncreasing(es, p, q);
          ScanAnswers(es, key, start, end, p, q, r);
        }
        res := Found(r);
    }
  }

  lemma {:induction false} SubIncreasing(es: seq<SsTableEntry>, p: nat, q: nat)
    requires StrictlyIncreasing(es) && p <= q <= |es|
    ensures StrictlyIncreasing(es[p..q])
  {
  }

  lemma {:induction false} MatchAnswers(s: Segment, key: Key, es: seq<SsTableEntry>, b: nat)
    requires Holds(s, es) && b <= |s.index.indices| && Located(s.index.indices, key, b).Match?
    ensures
      var e := ReadTableEntry(s.file, Located(s.index.indices, key, b).offset);
      e.Some? && Answers(es, key, e)
  {
    hide Frames, ReadTableEntry;
    LocatedMatch(es, s.index.indices, key, b);
    var p: nat :| p < |es| && OffsetOf(es, p) == Located(s.index.indices, key, b).offset && es[p].key == key;
    ReadEntryAt(s.file, es, p);
  }
}
