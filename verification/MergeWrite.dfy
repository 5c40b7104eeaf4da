/** Merging whole segments into new ones: repeated fill, merge and write until every reader is exhausted. */
module MergeWrite {
  import opened Bytes
  import opened Options
  import opened Sequences
  import opened SsTableEntries
  import opened SsTableIndex
  import opened SsTableSegment
  import opened SsTableWriter
  import opened SsTableReadBuf
  import opened MergeSpec
  import opened MergeRounds
  import Merge = MergeSort

  const MERGE_BUF_MAX_TOTAL_SIZE: nat := 1024 * 1024 * 10

  // ---------- what has been taken from the inputs, and what is left ----------

  ghost predicate WithinInputs(ess: seq<seq<SsTableEntry>>, taken: seq<nat>) {
    |taken| == |ess| && forall i :: 0 <= i < |ess| ==> taken[i] <= |ess[i]|
  }

  ghost function Remaining(ess: seq<seq<SsTableEntry>>, taken: seq<nat>): nat
    requires WithinInputs(ess, taken)
  {
    if ess == [] then 0 else |ess[0]| - taken[0] + Remaining(ess[1..], taken[1..])
  }

  lemma {:induction false} RemainingShrinks(ess: seq<seq<SsTableEntry>>, taken: seq<nat>, taken': seq<nat>)
    requires WithinInputs(ess, taken) && WithinInputs(ess, taken')
    requires forall i :: 0 <= i < |ess| ==> taken[i] <= taken'[i]
    ensures Remaining(ess, taken') <= Remaining(ess, taken)
    ensures (exists i :: 0 <= i < |ess| && taken[i] < taken'[i]) ==> Remaining(ess, taken') < Remaining(ess, taken)
  {
    if ess != [] {
      RemainingShrinks(ess[1..], taken[1..], taken'[1..]);
      if i :| 0 <= i < |ess| && taken[i] < taken'[i] {
        assert i > 0 ==> taken[1..][i - 1] < taken'[1..][i - 1];
      }
    }
  }

  /** `e` is one of the first `taken[i]` entries of some input `i`. */
  ghost predicate Taken(ess: seq<seq<SsTableEntry>>, taken: seq<nat>, e: SsTableEntry)
    requires WithinInputs(ess, taken)
  {
    exists i, q :: 0 <= i < |ess| && 0 <= q < taken[i] && ess[i][q] == e
  }

  /** Everything written was taken from an input, and everything taken is written or superseded by something written. */
  ghost predicate Kept(ess: seq<seq<SsTableEntry>>, taken: seq<nat>, written: seq<SsTableEntry>)
    requires WithinInputs(ess, taken)
  {
    && (forall k :: 0 <= k < |written| ==> Taken(ess, taken, written[k]))
    && (forall i, q :: 0 <= i < |ess| && 0 <= q < taken[i] ==> Covered(written, ess[i][q]))
  }

  /** Entries were taken, only those are in `out`, and what was kept before is kept with it. */
  ghost predicate Advances(ess: seq<seq<SsTableEntry>>, taken: seq<nat>, taken': seq<nat>, out: seq<SsTableEntry>) {
    && WithinInputs(ess, taken) && WithinInputs(ess, taken') && Remaining(ess, taken') < Remaining(ess, taken)
    && (forall k :: 0 <= k < |out| ==> Taken(ess, taken', out[k]))
    && forall written :: Kept(ess, taken, written) ==> Kept(ess, taken', written + out)
  }

  /** One call of the merge, seen from the inputs: queue `j` is the buffered part of input `ids[j]`. */
  ghost predicate RoundOf(ess: seq<seq<SsTableEntry>>, taken: seq<nat>, decoded: seq<nat>, ids: seq<nat>,
                          bufs: seq<Queue>,
                          rest: seq<Queue>, taken': seq<nat>) {
    && WithinInputs(ess, taken) && WithinInputs(ess, taken') && WithinInputs(ess, decoded)
    && |ids| == |bufs| == |rest|
    && (forall i :: 0 <= i < |ess| ==> taken[i] <= taken'[i] <= decoded[i])
    && (forall i: nat :: i < |ess| && i !in ids ==> taken'[i] == taken[i])
    && (forall j :: 0 <= j < |ids| ==> ids[j] < |ess| && bufs[j] == ess[ids[j]][taken[ids[j]]..decoded[ids[j]]]
                                       && |rest[j]| <= |bufs[j]| && taken'[ids[j]] == taken[ids[j]] + |bufs[j]| - |rest[j]|)
  }

  lemma {:induction false} RoundTaken(ess: seq<seq<SsTableEntry>>, taken: seq<nat>, decoded: seq<nat>, ids: seq<nat>,
                                      bufs: seq<Queue>,
                                      rest: seq<Queue>, taken': seq<nat>, e: SsTableEntry)
    requires RoundOf(ess, taken, decoded, ids, bufs, rest, taken')
    ensures Taken(ess, taken, e) ==> Taken(ess, taken', e)
    ensures Popped(bufs, rest, e) ==> Taken(ess, taken', e)
  {
    if Taken(ess, taken, e) {
      var i: nat, q: nat :| i < |ess| && q < taken[i] && ess[i][q] == e;
      assert q < taken'[i];
    }
    if Popped(bufs, rest, e) {
      var j: nat, q: nat :| j < |bufs| && q < |bufs[j]| - |rest[j]| && bufs[j][q] == e;
      var i := ids[j];
      assert ess[i][taken[i] + q] == e && taken[i] + q < taken'[i];
    }
  }

  lemma {:induction false} RoundCovers(ess: seq<seq<SsTableEntry>>, taken: seq<nat>, decoded: seq<nat>, ids: seq<nat>,
                                       bufs: seq<Queue>,
                                       rest: seq<Queue>, taken': seq<nat>, written: seq<SsTableEntry>,
                                       out: seq<SsTableEntry>, i: nat, q: nat)
    requires RoundOf(ess, taken, decoded, ids, bufs, rest, taken') && Kept(ess, taken, written) && Collected(bufs, rest, out)
    requires i < |ess| && q < taken'[i]
    ensures Covered(written + out, ess[i][q])
  {
    hide Covered, Popped, Taken, StrictlyIncreasing;
    if q >= taken[i] {
      var j: nat :| j < |ids| && ids[j] == i;
      assert bufs[j][q - taken[i]] == ess[i][q];
    }
    Merge.CoveredMore(written, out, ess[i][q]);
  }

  /** A round keeps the data. */
  lemma {:induction false} RoundKeeps(ess: seq<seq<SsTableEntry>>, taken: seq<nat>, decoded: seq<nat>, ids: seq<nat>,
                                      bufs: seq<Queue>,
                                      rest: seq<Queue>, taken': seq<nat>, written: seq<SsTableEntry>,
                                      out: seq<SsTableEntry>)
    requires RoundOf(ess, taken, decoded, ids, bufs, rest, taken') && Kept(ess, taken, written) && Collected(bufs, rest, out)
    ensures Kept(ess, taken', written + out)
  {
    hide Covered, Popped, Taken, StrictlyIncreasing, RoundOf;
    RoundRanges(ess, taken, decoded, ids, bufs, rest, taken');
    var all := written + out;
    forall k | 0 <= k < |all| ensures Taken(ess, taken', all[k]) {
      RoundTaken(ess, taken, decoded, ids, bufs, rest, taken', all[k]);
      assert all[k] == if k < |written| then written[k] else out[k - |written|];
    }
    forall i: nat, q: nat | i < |ess| && q < taken'[i] ensures Covered(all, ess[i][q]) {
      RoundCovers(ess, taken, decoded, ids, bufs, rest, taken', written, out, i, q);
    }
  }

  lemma {:induction false} RoundRanges(ess: seq<seq<SsTableEntry>>, taken: seq<nat>, decoded: seq<nat>, ids: seq<nat>,
                                       bufs: seq<Queue>,
                                       rest: seq<Queue>, taken': seq<nat>)
    requires RoundOf(ess, taken, decoded, ids, bufs, rest, taken')
    ensures WithinInputs(ess, taken) && WithinInputs(ess, taken') && |rest| == |bufs| == |ids|
    ensures WithinInputs(ess, decoded) && forall i :: 0 <= i < |ess| ==> taken[i] <= taken'[i] <= decoded[i]
  {
  }

  /** A round that pops anything leaves less to do. */
  lemma {:induction false} RoundShrinks(ess: seq<seq<SsTableEntry>>, taken: seq<nat>, decoded: seq<nat>, ids: seq<nat>,
                                        bufs: seq<Queue>,
                                        rest: seq<Queue>, taken': seq<nat>, j: nat)
    requires RoundOf(ess, taken, decoded, ids, bufs, rest, taken') && j < |bufs| && |rest[j]| < |bufs[j]|
    ensures WithinInputs(ess, taken) && WithinInputs(ess, taken')
    ensures Remaining(ess, taken') < Remaining(ess, taken)
  {
    assert taken[ids[j]] < taken'[ids[j]];
    RemainingShrinks(ess, taken, taken');
  }

  // ---------- writing ----------

  function Flatten(groups: seq<seq<SsTableEntry>>): seq<SsTableEntry> {
    if groups == [] then [] else Flatten(groups[..|groups| - 1]) + groups[|groups| - 1]
  }

  /** The new segments, opened again, stand for the groups of entries written to them. */
  ghost predicate Stored(res: seq<Segment>, groups: seq<seq<SsTableEntry>>, firstNumber: nat) {
    && |res| == |groups|
    && forall i :: 0 <= i < |res| ==> Holds(res[i], groups[i]) && res[i].number == firstNumber + i
  }

  /** The writer never holds more than its target size and one entry. */
  ghost predicate Bounded(w: SegmentWriter)
    reads w
  {
    && w.Valid() && !w.finished && w.targetSize == SEGMENT_SIZE && AllValid(w.entries)
    && w.currSize <= SEGMENT_SIZE + U32_LIMIT + 4
  }

  /** A file that the writer filled: 64 MiB are reached, and had not been before the last entry. */
  ghost predicate Full(g: seq<SsTableEntry>, sparsity: nat)
    requires sparsity > 0
  {
    CountedLen(g, sparsity) >= 67108864 && BelowBeforeLast(g, sparsity)
  }

  ghost predicate BelowBeforeLast(g: seq<SsTableEntry>, sparsity: nat)
    requires sparsity > 0
  {
    g != [] ==> CountedLen(g[..|g| - 1], sparsity) < 67108864
  }

  /** Every file but the last is full. */
  ghost predicate RolledOver(groups: seq<seq<SsTableEntry>>, sparsity: nat)
    requires sparsity > 0
  {
    && (forall i :: 0 <= i < |groups| ==> groups[i] != [] && BelowBeforeLast(groups[i], sparsity))
    && (forall i :: 0 <= i < |groups| - 1 ==> Full(groups[i], sparsity))
  }

  ghost predicate AllFull(groups: seq<seq<SsTableEntry>>, sparsity: nat)
    requires sparsity > 0
  {
    forall i :: 0 <= i < |groups| ==> groups[i] != [] && Full(groups[i], sparsity)
  }

  lemma {:induction false} FullThenLast(groups: seq<seq<SsTableEntry>>, g: seq<SsTableEntry>, sparsity: nat)
    requires sparsity > 0 && AllFull(groups, sparsity) && BelowBeforeLast(g, sparsity) && g != []
    ensures RolledOver(groups + [g], sparsity)
    ensures Full(g, sparsity) ==> AllFull(groups + [g], sparsity)
  {
    hide CountedLen;
  }

  lemma {:induction false} OneMoreEntry(g: seq<SsTableEntry>, e: SsTableEntry, sparsity: nat)
    requires sparsity > 0 && CountedLen(g, sparsity) < 67108864
    ensures BelowBeforeLast(g + [e], sparsity)
  {
    hide CountedLen;
    assert (g + [e])[..|g|] == g;
  }

  /** Finishes a file and opens it as a segment; None stands for the panic on a file without entries. */
  method FinishAndOpen(w: SegmentWriter, number: nat) returns (segment: Option<Segment>)
    requires Bounded(w)
    modifies w
    ensures w.entries == old(w.entries)
    ensures segment.None? <==> w.entries == []
    ensures segment.Some? ==> Holds(segment.value, w.entries) && segment.value.number == number
  {
    hide Frames, EncodeAll, Footer, Indexes, AllValid, ReadTableEntry, Holds;
    w.WriteIndexAndFooter();
    if w.entries != [] {
      FinishedIsSegmentFile(w);
    } else {
      EmptyFile(w);
    }
    var res := FromFile(w.written, number, w.entries, w.index.indices);
    if res.Opened? {
      segment := Some(res.segment);
      if w.entries == [] {
        assert false;
      }
    } else {
      segment := None;
    }
  }

  lemma {:induction false} EmptyFile(w: SegmentWriter)
    requires w.Valid() && w.finished && w.entries == []
    ensures |w.written| == 12 && w.written[|w.written| - 4..] == MAGIC_BYTES && ReadTableEntry(w.written, 0).None?
  {
    hide ReadTableEntry;
    EmptySparseIndex(w.indexSparsityFactor);
    FooterIsNoEntry();
    assert w.written == Footer(0);
  }

  lemma {:induction false} EmptySparseIndex(sparsity: nat)
    requires sparsity > 0
    ensures SparseIndex([], sparsity, 1) == []
  {
  }

  /** Writes one round's output, starting a new file whenever the current one has reached its size. */
  method WriteOut(writer: SegmentWriter, out: seq<SsTableEntry>, firstNumber: nat, res: seq<Segment>,
                  ghost groups: seq<seq<SsTableEntry>>)
    returns (writer': SegmentWriter, res': seq<Segment>, ghost groups': seq<seq<SsTableEntry>>)
    requires Bounded(writer) && AllValid(out) && Stored(res, groups, firstNumber)
    requires AllFull(groups, writer.indexSparsityFactor) && BelowBeforeLast(writer.entries, writer.indexSparsityFactor)
    modifies writer
    ensures Bounded(writer') && Stored(res', groups', firstNumber) && (writer' == writer || fresh(writer'))
    ensures writer'.indexSparsityFactor == writer.indexSparsityFactor
    ensures AllFull(groups', writer.indexSparsityFactor) && BelowBeforeLast(writer'.entries, writer.indexSparsityFactor)
    ensures Flatten(groups') + writer'.entries == Flatten(groups) + old(writer.entries) + out
    ensures out != [] ==> writer'.entries != []
  {
    hide Frames, SparseIndex, FileOf, Holds, AddAll, Flatten, CountedLen, BelowBeforeLast, AllFull;
    writer', res', groups' := writer, res, groups;
    ghost var before := Flatten(groups) + writer.entries;
    assert out[..0] == [] && before + [] == before;
    for k := 0 to |out|
      invariant Bounded(writer') && Stored(res', groups', firstNumber) && (writer' == writer || fresh(writer'))
      invariant writer'.indexSparsityFactor == writer.indexSparsityFactor
      invariant AllFull(groups', writer.indexSparsityFactor) && BelowBeforeLast(writer'.entries, writer.indexSparsityFactor)
      invariant Flatten(groups') + writer'.entries == before + out[..k]
      invariant k > 0 ==> writer'.entries != []
    {
      if writer'.ReachedTargetSize() {
        ReachedHasEntries(writer');
        ghost var g := writer'.entries;
        var segment := FinishAndOpen(writer', firstNumber + |res'|);
        FlattenSnoc(groups', g);
        FullThenLast(groups', g, writer.indexSparsityFactor);
        groups' := groups' + [g];
        res' := res' + [segment.value];
        writer' := new SegmentWriter.CreateNewSegment(writer.indexSparsityFactor);
        assert Flatten(groups') + [] == Flatten(groups');
        StartsBelow(writer');
      }
      ghost var g := writer'.entries;
      ConcatAssoc(Flatten(groups'), g, [out[k]]);
      ConcatAssoc(before, out[..k], [out[k]]);
      OneMoreEntry(g, out[k], writer.indexSparsityFactor);
      writer'.WriteEntry(out[k]);
      assert out[..k + 1] == out[..k] + [out[k]];
    }
    assert out[..|out|] == out;
  }

  lemma {:induction false} StartsBelow(w: SegmentWriter)
    requires w.Valid() && w.entries == [] && w.currSize == 0 && w.targetSize == SEGMENT_SIZE
    ensures !w.ReachedTargetSize()
  {
  }

  lemma {:induction false} FlattenSnoc(groups: seq<seq<SsTableEntry>>, g: seq<SsTableEntry>)
    ensures Flatten(groups + [g]) == Flatten(groups) + g
  {
    assert (groups + [g])[..|groups|] == groups;
  }

  lemma {:induction false} HasSparsity(w: SegmentWriter)
    requires Bounded(w)
    ensures w.indexSparsityFactor > 0
  {
  }

  lemma {:induction false} ReachedHasEntries(w: SegmentWriter)
    requires Bounded(w) && w.ReachedTargetSize()
    ensures w.entries != []
  {
  }

  // ---------- the readers ----------

  /** One reader per input, none of them past the point it can reach. */
  ghost predicate Readers(readers: seq<SegmentReadBuf>, ess: seq<seq<SsTableEntry>>, maxSize: nat)
    reads readers
  {
    && |readers| == |ess|
    && (forall i, j :: 0 <= i < j < |readers| ==> readers[i] != readers[j])
    && (forall i :: 0 <= i < |readers| ==>
          readers[i].Valid() && readers[i].es == ess[i] && readers[i].maxSize == maxSize
          && readers[i].decoded <= Reach(ess[i], maxSize))
  }

  /** The listed readers; all others are exhausted. */
  ghost predicate Listed(readers: seq<SegmentReadBuf>, readBufs: seq<SegmentReadBuf>)
    reads readers
  {
    && (forall i, j :: 0 <= i < j < |readBufs| ==> readBufs[i] != readBufs[j])
    && (forall j :: 0 <= j < |readBufs| ==> readBufs[j] in readers)
    && (forall i :: 0 <= i < |readers| && readers[i] !in readBufs ==> readers[i].popped == Reach(readers[i].es, readers[i].maxSize))
  }

  /** How far each reader has been popped. */
  ghost predicate PoppedTo(readers: seq<SegmentReadBuf>, taken: seq<nat>)
    reads readers
  {
    |taken| == |readers| && forall i :: 0 <= i < |readers| ==> taken[i] == readers[i].popped
  }

  ghost predicate NoneEmpty(readBufs: seq<SegmentReadBuf>)
    reads readBufs
  {
    forall j :: 0 <= j < |readBufs| ==> readBufs[j].buf != []
  }

  /** The buffer is empty only where the reader has got as far as it can. */
  ghost predicate Settled(b: SegmentReadBuf)
    reads b
  {
    b.buf == [] <==> b.popped == Reach(b.es, b.maxSize)
  }

  /** One fill, with what it means for how far the reader has come. */
  method FillOne(b: SegmentReadBuf)
    requires b.Valid() && b.decoded <= Reach(b.es, b.maxSize)
    modifies b
    ensures b.Valid() && b.popped == old(b.popped) && old(b.decoded) <= b.decoded <= Reach(b.es, b.maxSize)
    ensures Settled(b)
    ensures b.decoded == FilledTo(b.es, b.popped, old(b.decoded), b.maxSize)
  {
    hide Frames, Reach, Count, Holds, OffsetOf;
    FillProgress(b.es, b.popped, b.decoded, b.maxSize);
    b.Fill();
  }

  /** What a fill of the given readers makes of readers decoded that far before. */
  ghost predicate Fills(readers: seq<SegmentReadBuf>, readBufs: seq<SegmentReadBuf>, decoded: seq<nat>)
    reads readers
  {
    && |decoded| == |readers|
    && forall i :: 0 <= i < |readers| ==>
         readers[i].decoded == if readers[i] in readBufs
                               then FilledTo(readers[i].es, readers[i].popped, decoded[i], readers[i].maxSize)
                               else decoded[i]
  }

  method FillAll(ghost readers: seq<SegmentReadBuf>, readBufs: seq<SegmentReadBuf>, ghost ess: seq<seq<SsTableEntry>>,
                 ghost maxSize: nat)
    requires Readers(readers, ess, maxSize) && forall j :: 0 <= j < |readBufs| ==> readBufs[j] in readers
    requires forall i, j :: 0 <= i < j < |readBufs| ==> readBufs[i] != readBufs[j]
    modifies readBufs
    ensures Readers(readers, ess, maxSize) && Fills(readers, readBufs, old(Decoded(readers)))
    ensures forall i :: 0 <= i < |readers| ==>
              readers[i].popped == old(readers[i].popped) && old(readers[i].decoded) <= readers[i].decoded
    ensures forall j :: 0 <= j < |readBufs| ==> Settled(readBufs[j])
  {
    hide Reach, SegmentReadBuf.Valid, FilledTo, Settled;
    ghost var before, decoded := Decoded(readBufs), Decoded(readers);
    for j := 0 to |readBufs|
      invariant Readers(readers, ess, maxSize)
      invariant forall i :: 0 <= i < |readers| ==>
                  readers[i].popped == old(readers[i].popped) && old(readers[i].decoded) <= readers[i].decoded
      invariant forall k :: 0 <= k < j ==> Settled(readBufs[k])
      invariant forall k :: 0 <= k < |readBufs| ==>
                  readBufs[k].decoded ==
                  if k < j then FilledTo(readBufs[k].es, readBufs[k].popped, before[k], readBufs[k].maxSize) else before[k]
    {
      FillOne(readBufs[j]);
    }
    FilledAre(readers, readBufs, before, decoded);
  }

  lemma {:induction false} FilledAre(readers: seq<SegmentReadBuf>, readBufs: seq<SegmentReadBuf>, before: seq<nat>,
                                     decoded: seq<nat>)
    requires |before| == |readBufs| && |decoded| == |readers|
    requires forall i, k :: 0 <= i < |readers| && 0 <= k < |readBufs| && readers[i] == readBufs[k] ==> decoded[i] == before[k]
    requires forall i :: 0 <= i < |readers| && readers[i] !in readBufs ==> readers[i].decoded == decoded[i]
    requires forall k :: 0 <= k < |readBufs| ==>
               readBufs[k].decoded == FilledTo(readBufs[k].es, readBufs[k].popped, before[k], readBufs[k].maxSize)
    ensures Fills(readers, readBufs, decoded)
  {
    hide FilledTo;
  }

  /** The readers that have something buffered, in order. */
  ghost function NonEmptyOf(readBufs: seq<SegmentReadBuf>): seq<SegmentReadBuf>
    reads readBufs
  {
    if readBufs == [] then []
    else
      var b, front := readBufs[|readBufs| - 1], NonEmptyOf(readBufs[..|readBufs| - 1]);
      if b.buf != [] then front + [b] else front
  }

  method FilterNonEmpty(readBufs: seq<SegmentReadBuf>) returns (kept: seq<SegmentReadBuf>)
    requires forall i, j :: 0 <= i < j < |readBufs| ==> readBufs[i] != readBufs[j]
    ensures forall i, j :: 0 <= i < j < |kept| ==> kept[i] != kept[j]
    ensures forall j :: 0 <= j < |kept| ==> kept[j] in readBufs && kept[j].buf != []
    ensures forall j :: 0 <= j < |readBufs| && readBufs[j].buf != [] ==> readBufs[j] in kept
    ensures kept == NonEmptyOf(readBufs)
  {
    kept := [];
    for j := 0 to |readBufs|
      invariant kept == NonEmptyOf(readBufs[..j])
      invariant forall k :: 0 <= k < |kept| ==> kept[k] in readBufs[..j] && kept[k].buf != []
      invariant forall k, l :: 0 <= k < l < |kept| ==> kept[k] != kept[l]
      invariant forall k :: 0 <= k < j && readBufs[k].buf != [] ==> readBufs[k] in kept
    {
      assert readBufs[..j + 1][..j] == readBufs[..j];
      if !readBufs[j].IsEmpty() {
        kept := kept + [readBufs[j]];
      }
    }
    assert readBufs[..|readBufs|] == readBufs;
  }

  /** Fills all listed readers and drops those that stay empty. */
  method Refill(ghost readers: seq<SegmentReadBuf>, readBufs: seq<SegmentReadBuf>, ghost ess: seq<seq<SsTableEntry>>,
                ghost maxSize: nat)
    returns (kept: seq<SegmentReadBuf>)
    requires Readers(readers, ess, maxSize) && Listed(readers, readBufs)
    modifies readBufs
    ensures Readers(readers, ess, maxSize) && Listed(readers, kept) && NoneEmpty(kept)
    ensures forall i :: 0 <= i < |readers| ==>
              readers[i].popped == old(readers[i].popped) && old(readers[i].decoded) <= readers[i].decoded
    ensures forall j :: 0 <= j < |kept| ==> kept[j] in readBufs
    ensures forall j :: 0 <= j < |readBufs| && readBufs[j].buf != [] ==> readBufs[j] in kept
    ensures Fills(readers, readBufs, old(Decoded(readers))) && kept == NonEmptyOf(readBufs)
  {
    hide Reach, Readers, FilledTo, NonEmptyOf;
    FillAll(readers, readBufs, ess, maxSize);
    kept := FilterNonEmpty(readBufs);
  }

  method ContentsOf(readBufs: seq<SegmentReadBuf>) returns (bufs: seq<Queue>)
    ensures |bufs| == |readBufs| && forall j :: 0 <= j < |bufs| ==> bufs[j] == readBufs[j].buf
  {
    bufs := [];
    for j := 0 to |readBufs|
      invariant |bufs| == j && forall k :: 0 <= k < j ==> bufs[k] == readBufs[k].buf
    {
      bufs := bufs + [readBufs[j].buf];
    }
  }

  method PopMany(b: SegmentReadBuf, n: nat)
    requires b.Valid() && n <= |b.buf|
    modifies b
    ensures b.Valid() && b.decoded == old(b.decoded) && b.popped == old(b.popped) + n
  {
    hide Holds, Frames, OffsetOf;
    for k := 0 to n
      invariant b.Valid() && b.decoded == old(b.decoded) && b.popped == old(b.popped) + k
    {
      var entry := b.PopFront();
    }
  }

  /** What the merge popped from each queue is popped from its reader. */
  method PopAll(readBufs: seq<SegmentReadBuf>, bufs: seq<Queue>, rest: seq<Queue>)
    requires forall i, j :: 0 <= i < j < |readBufs| ==> readBufs[i] != readBufs[j]
    requires |bufs| == |rest| == |readBufs|
    requires forall j :: 0 <= j < |readBufs| ==> readBufs[j].Valid() && bufs[j] == readBufs[j].buf && |rest[j]| <= |bufs[j]|
    modifies readBufs
    ensures forall j :: 0 <= j < |readBufs| ==>
              readBufs[j].Valid() && readBufs[j].decoded == old(readBufs[j].decoded)
              && readBufs[j].popped == old(readBufs[j].popped) + |bufs[j]| - |rest[j]|
  {
    hide Holds, Frames, OffsetOf;
    for j := 0 to |readBufs|
      invariant forall k :: 0 <= k < j ==>
                  readBufs[k].Valid() && readBufs[k].decoded == old(readBufs[k].decoded)
                  && readBufs[k].popped == old(readBufs[k].popped) + |bufs[k]| - |rest[k]|
      invariant forall k :: j <= k < |readBufs| ==>
                  readBufs[k].Valid() && bufs[k] == readBufs[k].buf
                  && readBufs[k].decoded == old(readBufs[k].decoded) && readBufs[k].popped == old(readBufs[k].popped)
    {
      PopMany(readBufs[j], |bufs[j]| - |rest[j]|);
    }
  }

  // ---------- the whole merge ----------

  // Panicked: the original aborts on opening the file of a merge that had nothing to write.
  datatype MergeOutcome = Written(segments: seq<Segment>) | NeverReturns | Panicked

  function ReadBufLen(n: nat): nat
    requires n > 0
  {
    MERGE_BUF_MAX_TOTAL_SIZE / n + 1
  }

  /** How far each input can be read. */
  function Reaches(ess: seq<seq<SsTableEntry>>, maxSize: nat): (r: seq<nat>)
    ensures |r| == |ess| && forall i :: 0 <= i < |ess| ==> r[i] == Reach(ess[i], maxSize)
  {
    seq(|ess|, i requires 0 <= i < |ess| => Reach(ess[i], maxSize))
  }

  ghost predicate Sorted(ess: seq<seq<SsTableEntry>>) {
    forall i :: 0 <= i < |ess| ==> StrictlyIncreasing(ess[i]) && forall q :: 0 <= q < |ess[i]| ==> ess[i][q].key != []
  }

  /** The buffers of one round are what a merge call asks for. */
  lemma {:induction false} BuffersReady(readers: seq<SegmentReadBuf>, readBufs: seq<SegmentReadBuf>,
                                        ess: seq<seq<SsTableEntry>>, maxSize: nat,
                                        bufs: seq<Queue>)
    requires Readers(readers, ess, maxSize) && Listed(readers, readBufs) && NoneEmpty(readBufs) && Sorted(ess)
    requires |bufs| == |readBufs| && forall j :: 0 <= j < |bufs| ==> bufs[j] == readBufs[j].buf
    ensures Ready(bufs)
  {
    hide Less, Holds, Frames, OffsetOf, Reach;
    forall j | 0 <= j < |bufs| ensures bufs[j] != [] && StrictlyIncreasing(bufs[j]) && Back(bufs[j]) != [] {
      var i: nat :| i < |readers| && readers[i] == readBufs[j];
      assert readers[i].Valid() && bufs[j] == ess[i][readers[i].popped..readers[i].decoded];
      SubIncreasing(ess[i], readers[i].popped, readers[i].decoded);
    }
  }

  /** Which input each listed reader belongs to. */
  lemma {:induction false} InputOf(readers: seq<SegmentReadBuf>, readBufs: seq<SegmentReadBuf>) returns (ids: seq<nat>)
    requires forall j :: 0 <= j < |readBufs| ==> readBufs[j] in readers
    ensures |ids| == |readBufs| && forall j :: 0 <= j < |ids| ==> ids[j] < |readers| && readers[ids[j]] == readBufs[j]
  {
    ids := [];
    for j := 0 to |readBufs|
      invariant |ids| == j && forall k :: 0 <= k < j ==> ids[k] < |readers| && readers[ids[k]] == readBufs[k]
    {
      var i: nat :| i < |readers| && readers[i] == readBufs[j];
      ids := ids + [i];
    }
  }

  /** The entries a round puts out are those of the inputs, hence well formed. */
  lemma {:induction false} OutputValid(ess: seq<seq<SsTableEntry>>, taken: seq<nat>, out: seq<SsTableEntry>)
    requires WithinInputs(ess, taken) && forall i :: 0 <= i < |ess| ==> AllValid(ess[i])
    requires forall k :: 0 <= k < |out| ==> Taken(ess, taken, out[k])
    ensures AllValid(out)
  {
    forall k | 0 <= k < |out| ensures out[k].Valid() {
      var i: nat, q: nat :| i < |ess| && q < taken[i] && ess[i][q] == out[k];
      assert ess[i][q].Valid();
    }
  }

  lemma {:induction false} HoldsValid(s: Segment, es: seq<SsTableEntry>)
    requires Holds(s, es)
    ensures AllValid(es)
  {
  }

  method CreateReaders(segments: seq<Segment>, readBufLen: nat,
                       ghost ess: seq<seq<SsTableEntry>>) returns (readers: seq<SegmentReadBuf>)
    requires |segments| == |ess| && forall i :: 0 <= i < |segments| ==> Holds(segments[i], ess[i])
    ensures Readers(readers, ess, readBufLen) && Listed(readers, readers)
    ensures forall i :: 0 <= i < |readers| ==> fresh(readers[i]) && readers[i].popped == 0 && readers[i].decoded == 0
  {
    hide Reach, Holds, Frames, OffsetOf;
    readers := [];
    for i := 0 to |segments|
      invariant |readers| == i
      invariant forall j :: 0 <= j < i ==> fresh(readers[j]) && readers[j].popped == 0 && readers[j].decoded == 0
                                           && readers[j].Valid() && readers[j].es == ess[j] && readers[j].maxSize == readBufLen
      invariant forall j, k :: 0 <= j < k < i ==> readers[j] != readers[k]
    {
      var b := new SegmentReadBuf(segments[i], readBufLen, ess[i]);
      readers := readers + [b];
    }
  }

  lemma {:induction false} MakeRound(ess: seq<seq<SsTableEntry>>, taken: seq<nat>, decoded: seq<nat>, ids: seq<nat>,
                                     bufs: seq<Queue>,
                                     rest: seq<Queue>, taken': seq<nat>)
    requires WithinInputs(ess, decoded) && |taken| == |taken'| == |ess| && |ids| == |bufs| == |rest|
    requires forall i :: 0 <= i < |ess| ==> taken[i] <= decoded[i]
    requires forall i: nat :: i < |ess| && i !in ids ==> taken'[i] == taken[i]
    requires forall j :: 0 <= j < |ids| ==> ids[j] < |ess| && bufs[j] == ess[ids[j]][taken[ids[j]]..decoded[ids[j]]]
                                            && |rest[j]| <= |bufs[j]| && taken'[ids[j]] == taken[ids[j]] + |bufs[j]| - |rest[j]|
    ensures RoundOf(ess, taken, decoded, ids, bufs, rest, taken')
  {
    forall i: nat | i < |ess| ensures taken[i] <= taken'[i] <= decoded[i] {
      if i in ids {
        var j :| 0 <= j < |ids| && ids[j] == i;
        assert |bufs[j]| == decoded[i] - taken[i];
      }
    }
  }

  /** Popping from the listed readers, seen from all of them. */
  method PopRound(ghost readers: seq<SegmentReadBuf>, readBufs: seq<SegmentReadBuf>, ghost ess: seq<seq<SsTableEntry>>,
                  ghost maxSize: nat,
                  ghost ids: seq<nat>, bufs: seq<Queue>, rest: seq<Queue>)
    requires Readers(readers, ess, maxSize) && Listed(readers, readBufs)
    requires |bufs| == |rest| == |readBufs| == |ids|
    requires forall j :: 0 <= j < |readBufs| ==> bufs[j] == readBufs[j].buf && |rest[j]| <= |bufs[j]|
    requires forall j :: 0 <= j < |ids| ==> ids[j] < |readers| && readers[ids[j]] == readBufs[j]
    modifies readBufs
    ensures Readers(readers, ess, maxSize) && Listed(readers, readBufs)
    ensures forall i :: 0 <= i < |readers| ==> readers[i].decoded == old(readers[i].decoded)
    ensures forall i: nat :: i < |readers| && i !in ids ==> readers[i].popped == old(readers[i].popped)
    ensures forall j :: 0 <= j < |ids| ==> readers[ids[j]].popped == old(readers[ids[j]].popped) + |bufs[j]| - |rest[j]|
  {
    hide Reach, Holds, Frames, OffsetOf, SegmentReadBuf.Valid;
    ListedValid(readers, readBufs, ess, maxSize);
    ReadersAt(readers, ess, maxSize);
    NotListed(readers, readBufs, ids);
    label before:
    PopAll(readBufs, bufs, rest);
    forall i: nat | i < |readers|
      ensures readers[i].Valid() && readers[i].decoded == old(readers[i].decoded)
      ensures i !in ids ==> readers[i].popped == old(readers[i].popped) && readers[i] !in readBufs
    {
      if i in ids {
        var j :| 0 <= j < |ids| && ids[j] == i;
        assert readers[i] == readBufs[j];
      } else {
        assert unchanged@before(readers[i]);
      }
    }
  }

  lemma {:induction false} NotListed(readers: seq<SegmentReadBuf>, readBufs: seq<SegmentReadBuf>, ids: seq<nat>)
    requires forall i, j :: 0 <= i < j < |readers| ==> readers[i] != readers[j]
    requires |ids| == |readBufs| && forall j :: 0 <= j < |ids| ==> ids[j] < |readers| && readers[ids[j]] == readBufs[j]
    ensures forall i: nat :: i < |readers| && i !in ids ==> readers[i] !in readBufs
  {
    forall i: nat | i < |readers| && i !in ids ensures readers[i] !in readBufs {
      forall j | 0 <= j < |readBufs| ensures readBufs[j] != readers[i] {
        assert ids[j] in ids;
      }
    }
  }

  lemma {:induction false} ReadersAt(readers: seq<SegmentReadBuf>, ess: seq<seq<SsTableEntry>>, maxSize: nat)
    requires Readers(readers, ess, maxSize)
    ensures |readers| == |ess|
    ensures forall i :: 0 <= i < |readers| ==>
              readers[i].Valid() && readers[i].es == ess[i] && readers[i].maxSize == maxSize && readers[i].decoded <= Reach(ess[i], maxSize)
  {
    hide Reach, SegmentReadBuf.Valid;
  }

  lemma {:induction false} ListedValid(readers: seq<SegmentReadBuf>, readBufs: seq<SegmentReadBuf>,
                                       ess: seq<seq<SsTableEntry>>, maxSize: nat)
    requires Readers(readers, ess, maxSize) && Listed(readers, readBufs)
    ensures forall j :: 0 <= j < |readBufs| ==> readBufs[j].Valid()
  {
    hide Reach, SegmentReadBuf.Valid;
  }

  /** Only three inputs or more can get stuck. */
  lemma {:induction false} SpinsOnlyForThree(ess: seq<seq<SsTableEntry>>, maxSize: nat, r: nat)
    requires Stuck(RoundQueues(ess, maxSize, r))
    ensures GetsStuck(ess, maxSize) && |ess| > 2
  {
    hide Stuck, RoundQueues;
    if |ess| <= 2 {
      TwoInputsReturn(ess, maxSize);
    }
  }

  /** The queue of a reader, by position. */
  lemma {:induction false} BufferOf(readers: seq<SegmentReadBuf>, ess: seq<seq<SsTableEntry>>, maxSize: nat, i: nat)
    requires Readers(readers, ess, maxSize) && i < |readers|
    ensures |readers| == |ess| && readers[i].popped <= readers[i].decoded <= |ess[i]|
    ensures readers[i].buf == ess[i][readers[i].popped..readers[i].decoded]
  {
    hide Reach, Holds, Frames, OffsetOf;
    assert readers[i].Valid();
  }

  /** What the listed readers have buffered. */
  ghost function Buffered(readBufs: seq<SegmentReadBuf>): (bufs: seq<Queue>)
    reads readBufs
    ensures |bufs| == |readBufs| && forall j :: 0 <= j < |bufs| ==> bufs[j] == readBufs[j].buf
  {
    if readBufs == [] then [] else Buffered(readBufs[..|readBufs| - 1]) + [readBufs[|readBufs| - 1].buf]
  }

  /** The buffers after the refill: those of inputs `ids'`, further decoded. */
  ghost predicate RefillOf(ess: seq<seq<SsTableEntry>>, ids: seq<nat>, decoded: seq<nat>, taken': seq<nat>,
                           ids': seq<nat>, decoded': seq<nat>, bufs': seq<Queue>) {
    && WithinInputs(ess, decoded) && WithinInputs(ess, decoded') && WithinInputs(ess, taken') && |ids'| == |bufs'|
    && (forall i :: 0 <= i < |ess| ==> taken'[i] <= decoded[i] <= decoded'[i])
    && (forall j :: 0 <= j < |ids'| ==>
          ids'[j] in ids && ids'[j] < |ess| && bufs'[j] != [] && bufs'[j] == ess[ids'[j]][taken'[ids'[j]]..decoded'[ids'[j]]])
    && (forall i :: i in ids && i < |ess| && taken'[i] < decoded'[i] ==> i in ids')
  }

  /** A refill keeps every leftover in front, and continues a drained queue above its last key. */
  lemma {:induction false} RefillIsRefilled(ess: seq<seq<SsTableEntry>>, taken: seq<nat>, decoded: seq<nat>,
                                            ids: seq<nat>, bufs: seq<Queue>, rest: seq<Queue>, taken': seq<nat>,
                                            ids': seq<nat>, decoded': seq<nat>, bufs': seq<Queue>)
    requires RoundOf(ess, taken, decoded, ids, bufs, rest, taken') && Suffixes(bufs, rest) && Ready(bufs) && Sorted(ess)
    requires RefillOf(ess, ids, decoded, taken', ids', decoded', bufs')
    ensures Refilled(bufs, rest, bufs')
  {
    hide Less, Sorted, RoundOf, RefillOf, Suffixes, Ready, Front, Back;
    RoundRanges(ess, taken, decoded, ids, bufs, rest, taken');
    RefillLengths(ess, ids, decoded, taken', ids', decoded', bufs');
    forall i: nat | i < |bufs| && rest[i] != []
      ensures exists j :: 0 <= j < |bufs'| && Front(bufs'[j]) == Front(rest[i])
    {
      var j := LeftoverKept(ess, taken, decoded, ids, bufs, rest, taken', ids', decoded', bufs', i);
    }
    forall j: nat | j < |bufs'| ensures Continues(bufs, rest, bufs'[j]) {
      var i := QueueContinues(ess, taken, decoded, ids, bufs, rest, taken', ids', decoded', bufs', j);
    }
  }

  lemma {:induction false} RefillLengths(ess: seq<seq<SsTableEntry>>, ids: seq<nat>, decoded: seq<nat>,
                                         taken': seq<nat>,
                                         ids': seq<nat>, decoded': seq<nat>, bufs': seq<Queue>)
    requires RefillOf(ess, ids, decoded, taken', ids', decoded', bufs')
    ensures |ids'| == |bufs'|
  {
  }

  lemma {:induction false} LeftoverKept(ess: seq<seq<SsTableEntry>>, taken: seq<nat>, decoded: seq<nat>, ids: seq<nat>,
                                        bufs: seq<Queue>, rest: seq<Queue>, taken': seq<nat>, ids': seq<nat>,
                                        decoded': seq<nat>, bufs': seq<Queue>, i: nat) returns (j: nat)
    requires RoundOf(ess, taken, decoded, ids, bufs, rest, taken') && Suffixes(bufs, rest)
    requires RefillOf(ess, ids, decoded, taken', ids', decoded', bufs') && i < |bufs| && rest[i] != []
    ensures j < |bufs'| && Front(bufs'[j]) == Front(rest[i])
  {
    hide RoundOf;
    RoundRanges(ess, taken, decoded, ids, bufs, rest, taken');
    LeftoverIsIn(ess, taken, decoded, ids, bufs, rest, taken', i);
    var x := ids[i];
    assert x in ids && taken'[x] < decoded'[x];
    j :| j < |ids'| && ids'[j] == x;
  }

  lemma {:induction false} QueueContinues(ess: seq<seq<SsTableEntry>>, taken: seq<nat>, decoded: seq<nat>,
                                          ids: seq<nat>, bufs: seq<Queue>, rest: seq<Queue>, taken': seq<nat>,
                                          ids': seq<nat>, decoded': seq<nat>, bufs': seq<Queue>, j: nat)
    returns (i: nat)
    requires RoundOf(ess, taken, decoded, ids, bufs, rest, taken') && Suffixes(bufs, rest) && Ready(bufs) && Sorted(ess)
    requires RefillOf(ess, ids, decoded, taken', ids', decoded', bufs') && j < |bufs'|
    ensures i < |bufs| == |rest|
    ensures if rest[i] != [] then Front(bufs'[j]) == Front(rest[i]) else Less(Back(bufs[i]), Front(bufs'[j]))
  {
    hide RoundOf, Less, Sorted, StrictlyIncreasing, Back;
    RoundRanges(ess, taken, decoded, ids, bufs, rest, taken');
    i :| i < |ids| && ids[i] == ids'[j];
    LeftoverIsIn(ess, taken, decoded, ids, bufs, rest, taken', i);
    if rest[i] == [] {
      DrainedGoesOn(ess, taken, decoded, ids, bufs, rest, taken', i, decoded'[ids[i]]);
    }
  }

  lemma {:induction false} LeftoverIsIn(ess: seq<seq<SsTableEntry>>, taken: seq<nat>, decoded: seq<nat>, ids: seq<nat>,
                                        bufs: seq<Queue>, rest: seq<Queue>, taken': seq<nat>, i: nat)
    requires RoundOf(ess, taken, decoded, ids, bufs, rest, taken') && Suffixes(bufs, rest) && i < |bufs|
    ensures ids[i] < |ess| && |rest[i]| == decoded[ids[i]] - taken'[ids[i]]
    ensures rest[i] != [] ==> Front(rest[i]) == ess[ids[i]][taken'[ids[i]]].key
  {
    var x := ids[i];
    assert bufs[i] == ess[x][taken[x]..decoded[x]];
    assert rest[i] == bufs[i][|bufs[i]| - |rest[i]|..];
  }

  lemma {:induction false} DrainedGoesOn(ess: seq<seq<SsTableEntry>>, taken: seq<nat>, decoded: seq<nat>,
                                         ids: seq<nat>, bufs: seq<Queue>, rest: seq<Queue>, taken': seq<nat>,
                                         i: nat, end: nat)
    requires RoundOf(ess, taken, decoded, ids, bufs, rest, taken') && Sorted(ess)
    requires i < |bufs| && rest[i] == [] && bufs[i] != [] && decoded[ids[i]] < end <= |ess[ids[i]]|
    ensures taken'[ids[i]] == decoded[ids[i]] && Less(Back(bufs[i]), Front(ess[ids[i]][decoded[ids[i]]..end]))
  {
    hide Less;
    var x := ids[i];
    assert Back(bufs[i]) == ess[x][decoded[x] - 1].key;
    assert StrictlyIncreasing(ess[x]);
  }

  // ---------- the readers stand where the rounds say ----------

  function Pick(readers: seq<SegmentReadBuf>, ids: seq<nat>): (bs: seq<SegmentReadBuf>)
    requires forall j :: 0 <= j < |ids| ==> ids[j] < |readers|
    ensures |bs| == |ids| && forall j :: 0 <= j < |bs| ==> bs[j] == readers[ids[j]]
  {
    seq(|ids|, j requires 0 <= j < |ids| => readers[ids[j]])
  }

  /** Each reader has been popped and decoded as far as the position says, and those not empty are listed in order. */
  ghost predicate StandAt(readers: seq<SegmentReadBuf>, readBufs: seq<SegmentReadBuf>, p: Position)
    reads readers
  {
    && |p.taken| == |p.decoded| == |readers|
    && (forall i :: 0 <= i < |readers| ==> p.taken[i] == readers[i].popped && p.decoded[i] == readers[i].decoded)
    && readBufs == Pick(readers, Live(p))
  }

  lemma {:induction false} StandAtIs(readers: seq<SegmentReadBuf>, readBufs: seq<SegmentReadBuf>, p: Position)
    requires StandAt(readers, readBufs, p)
    ensures |p.taken| == |p.decoded| == |readers| && PoppedTo(readers, p.taken) && Decoded(readers) == p.decoded
    ensures |Live(p)| == |readBufs|
    ensures forall j :: 0 <= j < |readBufs| ==> Live(p)[j] < |readers| && readers[Live(p)[j]] == readBufs[j]
  {
    hide LiveAmong;
  }

  /** What is buffered is what the round starts with. */
  lemma {:induction false} BufferedIs(readers: seq<SegmentReadBuf>, readBufs: seq<SegmentReadBuf>,
                                      ess: seq<seq<SsTableEntry>>, maxSize: nat, p: Position)
    requires Readers(readers, ess, maxSize) && StandAt(readers, readBufs, p)
    ensures Buffered(readBufs) == QueuesOf(ess, p)
  {
    hide Readers, StandAt, Live;
    StandAtIs(readers, readBufs, p);
    LengthsAgree(readers, ess, maxSize);
    forall j: nat | j < |readBufs| ensures readBufs[j].buf == QueueOf(ess, p, Live(p)[j]) {
      BufferOf(readers, ess, maxSize, Live(p)[j]);
      LiveAre(p, j);
    }
    SameQueues(Buffered(readBufs), QueuesOf(ess, p));
  }

  lemma {:induction false} SameQueues(a: seq<Queue>, b: seq<Queue>)
    requires |a| == |b| && forall j :: 0 <= j < |a| ==> a[j] == b[j]
    ensures a == b
  {
  }

  lemma {:induction false} LiveAre(p: Position, j: nat)
    requires j < |Live(p)|
    ensures IsLive(p, Live(p)[j])
  {
  }

  /** What a returning call leaves says how much was popped of each input. */
  lemma {:induction false} TakenIs(ess: seq<seq<SsTableEntry>>, p: Position, bufs: seq<Queue>, rest: seq<Queue>,
                                   out: seq<SsTableEntry>, taken': seq<nat>)
    requires RoundOf(ess, p.taken, p.decoded, Live(p), bufs, rest, taken') && Merged(bufs, rest, out) && bufs == QueuesOf(ess, p)
    ensures taken' == PoppedAll(ess, p)
  {
    hide RoundOf, Merged, CutLen, Live, PoppedFrom;
    RoundRanges(ess, p.taken, p.decoded, Live(p), bufs, rest, taken');
    forall i: nat | i < |ess| ensures taken'[i] == p.taken[i] + PoppedFrom(ess, p, i) {
      TakenAt(ess, p, bufs, rest, out, taken', i);
    }
    SameTaken(ess, p, taken');
  }

  lemma {:induction false} SameTaken(ess: seq<seq<SsTableEntry>>, p: Position, taken': seq<nat>)
    requires |taken'| == |p.taken| && forall i :: 0 <= i < |taken'| ==> taken'[i] == p.taken[i] + PoppedFrom(ess, p, i)
    ensures taken' == PoppedAll(ess, p)
  {
    hide PoppedFrom;
  }

  lemma {:induction false} TakenAt(ess: seq<seq<SsTableEntry>>, p: Position, bufs: seq<Queue>, rest: seq<Queue>,
                                   out: seq<SsTableEntry>, taken': seq<nat>, i: nat)
    requires RoundOf(ess, p.taken, p.decoded, Live(p), bufs, rest, taken') && Merged(bufs, rest, out) && bufs == QueuesOf(ess, p)
    requires i < |ess|
    ensures |taken'| == |p.taken| == |ess| && taken'[i] == p.taken[i] + PoppedFrom(ess, p, i)
  {
    hide Merged, CutLen, Live, IsLive, QueuesOf;
    var j := IndexOf(Live(p), i);
    if j < |Live(p)| {
      assert Live(p)[j] == i;
      CutOfRest(bufs, rest, out, j);
    } else {
      assert i !in Live(p);
    }
  }

  /** Where all readers stand after a call and a fill. */
  lemma {:induction false} FilledIs(es: seq<SsTableEntry>, maxSize: nat, popped: nat, decoded: nat)
    requires popped == Reach(es, maxSize) && popped <= decoded <= Reach(es, maxSize)
    ensures FilledTo(es, popped, decoded, maxSize) == decoded
  {
    hide Reach, Frames, Count;
    var none := es[popped..decoded];
    assert none == [];
    EmptyFrames(none);
    FillKeeps(es, maxSize, popped, decoded);
  }

  lemma {:induction false} NonEmptyAreLive(readers: seq<SegmentReadBuf>, ids: seq<nat>, p: Position)
    requires |p.taken| == |p.decoded| == |readers| && forall j :: 0 <= j < |ids| ==> ids[j] < |readers|
    requires forall i :: 0 <= i < |readers| ==> (readers[i].buf != [] <==> IsLive(p, i))
    ensures forall j :: 0 <= j < |LiveAmong(p, ids)| ==> LiveAmong(p, ids)[j] < |readers|
    ensures NonEmptyOf(Pick(readers, ids)) == Pick(readers, LiveAmong(p, ids))
  {
    hide IsLive;
    if ids != [] {
      var n := |ids| - 1;
      NonEmptyAreLive(readers, ids[..n], p);
      var bs := Pick(readers, ids);
      assert bs[..n] == Pick(readers, ids[..n]);
      if IsLive(p, ids[n]) {
        assert LiveAmong(p, ids) == LiveAmong(p, ids[..n]) + [ids[n]];
        assert Pick(readers, LiveAmong(p, ids)) == Pick(readers, LiveAmong(p, ids[..n])) + [readers[ids[n]]];
      }
    }
  }

  /** The readers after a merge call, input by input. */
  ghost predicate PoppedOf(readers: seq<SegmentReadBuf>, readBufs: seq<SegmentReadBuf>, ess: seq<seq<SsTableEntry>>,
                           taken: seq<nat>, taken': seq<nat>, decoded: seq<nat>, ids: seq<nat>, call: Call)
    reads readers
  {
    && RoundOf(ess, taken, decoded, ids, call.bufs, call.rest, taken')
    && |readers| == |ess| == |taken'| == |decoded| && |ids| == |readBufs|
    && (forall i :: 0 <= i < |readers| ==> taken'[i] == readers[i].popped && decoded[i] == readers[i].decoded)
    && (forall j :: 0 <= j < |ids| ==> ids[j] < |readers| && readers[ids[j]] == readBufs[j])
  }

  /** The first half of a round: merge what is buffered and pop it from the readers. */
  method MergeBuffered(ghost readers: seq<SegmentReadBuf>, readBufs: seq<SegmentReadBuf>,
                       ghost ess: seq<seq<SsTableEntry>>, ghost maxSize: nat, ghost p: Position)
    returns (out: seq<SsTableEntry>, spins: bool, ghost call: Call, ghost i: nat)
    requires Readers(readers, ess, maxSize) && Listed(readers, readBufs) && NoneEmpty(readBufs) && Sorted(ess)
    requires StandAt(readers, readBufs, p) && readBufs != []
    modifies readBufs
    ensures call.bufs == QueuesOf(ess, p) && call.out == out && (spins <==> Stuck(call.bufs))
    ensures !spins ==> Returned(call) && Readers(readers, ess, maxSize) && Listed(readers, readBufs)
    ensures !spins ==> PoppedOf(readers, readBufs, ess, p.taken, PoppedAll(ess, p), p.decoded, Live(p), call)
    ensures !spins ==> out != [] && i < |call.bufs| == |call.rest| && |call.rest[i]| < |call.bufs[i]|
  {
    hide Less, Readers, Listed, NoneEmpty, Collected, StrictlyIncreasing, Merged, Stuck, Ready, RoundOf, Sorted, Reach,
         PoppedOf, StandAt, Live, QueuesOf, PoppedAll, Holds, SegmentReadBuf.Valid, Frames;
    BufferedIs(readers, readBufs, ess, maxSize, p);
    var bufs := ContentsOf(readBufs);
    assert bufs == Buffered(readBufs);
    BuffersReady(readers, readBufs, ess, maxSize, bufs);
    StandAtIs(readers, readBufs, p);
    BuffersOf(readers, ess, maxSize, p.taken, p.decoded);
    i := 0;
    var rest: seq<Queue>;
    out, rest, spins := Merge.MergeSort(bufs);
    call := Call(bufs, rest, out);
    if spins {
      return;
    }
    MergedLengths(bufs, rest, out);
    i := CallProgresses(bufs, rest, out);
    PopRound(readers, readBufs, ess, maxSize, Live(p), bufs, rest);
    AfterPop(readers, readBufs, ess, maxSize, p, call);
  }

  /** The readers after what the call popped has been popped from them. */
  lemma {:induction false} AfterPop(readers: seq<SegmentReadBuf>, readBufs: seq<SegmentReadBuf>,
                                    ess: seq<seq<SsTableEntry>>, maxSize: nat, p: Position, call: Call)
    requires Readers(readers, ess, maxSize) && |p.taken| == |p.decoded| == |readers| && |readBufs| == |Live(p)|
    requires call.bufs == QueuesOf(ess, p) && Merged(call.bufs, call.rest, call.out) && |call.rest| == |call.bufs|
    requires forall i :: 0 <= i < |readers| ==> readers[i].decoded == p.decoded[i] && p.taken[i] <= p.decoded[i]
    requires forall j :: 0 <= j < |readBufs| ==> Live(p)[j] < |readers| && readers[Live(p)[j]] == readBufs[j]
    requires forall i: nat :: i < |readers| && i !in Live(p) ==> readers[i].popped == p.taken[i]
    requires forall j :: 0 <= j < |readBufs| ==>
               && call.bufs[j] == ess[Live(p)[j]][p.taken[Live(p)[j]]..p.decoded[Live(p)[j]]]
               && |call.rest[j]| <= |call.bufs[j]|
               && readBufs[j].popped == p.taken[Live(p)[j]] + |call.bufs[j]| - |call.rest[j]|
    ensures PoppedOf(readers, readBufs, ess, p.taken, PoppedAll(ess, p), p.decoded, Live(p), call)
  {
    hide Readers, Merged, RoundOf, PoppedOf, Live, QueuesOf, PoppedAll;
    var taken' := PoppedSoFar(readers);
    LengthsAgree(readers, ess, maxSize);
    BuffersOf(readers, ess, maxSize, taken', p.decoded);
    MakeRound(ess, p.taken, p.decoded, Live(p), call.bufs, call.rest, taken');
    TakenIs(ess, p, call.bufs, call.rest, call.out, taken');
    MakePopped(readers, readBufs, ess, p.taken, taken', p.decoded, Live(p), call);
  }

  lemma {:induction false} MakePopped(readers: seq<SegmentReadBuf>, readBufs: seq<SegmentReadBuf>,
                                      ess: seq<seq<SsTableEntry>>, taken: seq<nat>, taken': seq<nat>, decoded: seq<nat>,
                                      ids: seq<nat>, call: Call)
    requires RoundOf(ess, taken, decoded, ids, call.bufs, call.rest, taken')
    requires |readers| == |ess| == |taken'| == |decoded| && |ids| == |readBufs|
    requires forall i :: 0 <= i < |readers| ==> taken'[i] == readers[i].popped && decoded[i] == readers[i].decoded
    requires forall j :: 0 <= j < |ids| ==> ids[j] < |readers| && readers[ids[j]] == readBufs[j]
    ensures PoppedOf(readers, readBufs, ess, taken, taken', decoded, ids, call)
  {
    hide RoundOf;
  }

  /** After a call and a fill the readers stand where the next round starts. */
  lemma {:induction false} StandNext(readers: seq<SegmentReadBuf>, readBufs: seq<SegmentReadBuf>,
                                     kept: seq<SegmentReadBuf>, ess: seq<seq<SsTableEntry>>, maxSize: nat, p: Position)
    requires Readers(readers, ess, maxSize) && Consistent(ess, maxSize, p) && |readers| == |ess|
    requires forall i :: 0 <= i < |ess| ==> readers[i].popped == PoppedAll(ess, p)[i]
    requires forall i :: 0 <= i < |ess| ==> readers[i].decoded == FilledTo(ess[i], PoppedAll(ess, p)[i], p.decoded[i], maxSize)
    requires readBufs == Pick(readers, Live(p)) && kept == NonEmptyOf(readBufs)
    ensures StandAt(readers, kept, NextRound(ess, maxSize, p))
  {
    hide Readers, FilledTo, PoppedAll, Consistent, LiveAmong, IsLive;
    var q := NextRound(ess, maxSize, p);
    NextConsistent(ess, maxSize, p);
    ConsistentSizes(ess, maxSize, p);
    forall i | 0 <= i < |readers| ensures readers[i].buf != [] <==> IsLive(q, i) {
      BufferOf(readers, ess, maxSize, i);
      LiveIs(q, i);
    }
    NonEmptyAreLive(readers, Live(p), q);
    LiveTwice(p, q, FirstNumbers(|ess|));
  }

  lemma {:induction false} ConsistentSizes(ess: seq<seq<SsTableEntry>>, maxSize: nat, p: Position)
    requires Consistent(ess, maxSize, p)
    ensures |p.taken| == |p.decoded| == |ess|
  {
    hide ConsistentAt;
  }

  lemma {:induction false} LiveIs(p: Position, i: nat)
    requires i < |p.taken| == |p.decoded|
    ensures IsLive(p, i) <==> p.taken[i] < p.decoded[i]
  {
  }

  /** One round: merge what is buffered, pop it from the readers, and fill up again. */
  method Round(ghost readers: seq<SegmentReadBuf>, readBufs: seq<SegmentReadBuf>, ghost ess: seq<seq<SsTableEntry>>,
               ghost maxSize: nat, ghost p: Position)
    returns (kept: seq<SegmentReadBuf>, out: seq<SsTableEntry>, spins: bool, ghost call: Call)
    requires Readers(readers, ess, maxSize) && Listed(readers, readBufs) && NoneEmpty(readBufs) && Sorted(ess)
    requires StandAt(readers, readBufs, p) && Consistent(ess, maxSize, p) && readBufs != []
    modifies readBufs
    ensures call.bufs == QueuesOf(ess, p) && call.out == out
    ensures spins <==> Stuck(call.bufs)
    ensures !spins ==> Returned(call) && Refilled(call.bufs, call.rest, Buffered(kept))
    ensures !spins ==> Readers(readers, ess, maxSize) && Listed(readers, kept) && NoneEmpty(kept)
    ensures !spins ==> StandAt(readers, kept, NextRound(ess, maxSize, p))
    ensures !spins ==> out != [] && Advances(ess, p.taken, NextRound(ess, maxSize, p).taken, out)
    ensures forall j :: 0 <= j < |kept| ==> kept[j] in readBufs
  {
    hide Less, Readers, Listed, NoneEmpty, Kept, Collected, StrictlyIncreasing, Stuck, Taken, RoundOf, Merged, Ready,
         Remaining, Sorted, Reach, RefillOf, Refilled, Suffixes, Advances, StandAt, PoppedAll, FilledTo, QueuesOf, Live,
         Consistent, NonEmptyOf;
    kept := readBufs;
    ghost var i;
    ghost var taken' := PoppedAll(ess, p);
    ConsistentSizes(ess, maxSize, p);
    StandAtIs(readers, readBufs, p);
    PickedIs(readers, readBufs, p);
    out, spins, call, i := MergeBuffered(readers, readBufs, ess, maxSize, p);
    if spins {
      return;
    }
    RoundRanges(ess, p.taken, p.decoded, Live(p), call.bufs, call.rest, taken');
    MergedLengths(call.bufs, call.rest, out);
    RoundEffect(ess, p.taken, p.decoded, Live(p), call.bufs, call.rest, taken', out, i);
    UnlistedAreDone(readers, readBufs, ess, maxSize);
    kept := Refill(readers, readBufs, ess, maxSize);
    AfterRefill(readers, readBufs, ess, maxSize, p);
    StandNext(readers, readBufs, kept, ess, maxSize, p);
    ghost var ids' := RefilledReaders(readers, readBufs, kept, ess, maxSize, Live(p), p.decoded, taken');
    MergedParts(call.bufs, call.rest, out);
    RefillIsRefilled(ess, p.taken, p.decoded, Live(p), call.bufs, call.rest, taken', ids', Decoded(readers), Buffered(kept));
  }

  lemma {:induction false} PickedIs(readers: seq<SegmentReadBuf>, readBufs: seq<SegmentReadBuf>, p: Position)
    requires StandAt(readers, readBufs, p)
    ensures (forall j :: 0 <= j < |Live(p)| ==> Live(p)[j] < |readers|) && readBufs == Pick(readers, Live(p))
  {
  }

  lemma {:induction false} UnlistedAreDone(readers: seq<SegmentReadBuf>, readBufs: seq<SegmentReadBuf>,
                                           ess: seq<seq<SsTableEntry>>, maxSize: nat)
    requires Readers(readers, ess, maxSize) && Listed(readers, readBufs)
    ensures |readers| == |ess|
    ensures forall i :: 0 <= i < |readers| && readers[i] !in readBufs ==>
              FilledTo(ess[i], readers[i].popped, readers[i].decoded, maxSize) == readers[i].decoded
  {
    hide Reach, FilledTo, SegmentReadBuf.Valid;
    forall i | 0 <= i < |readers| && readers[i] !in readBufs
      ensures FilledTo(ess[i], readers[i].popped, readers[i].decoded, maxSize) == readers[i].decoded
    {
      BufferOf(readers, ess, maxSize, i);
      FilledIs(ess[i], maxSize, readers[i].popped, readers[i].decoded);
    }
  }

  /** After the fill all readers are decoded as far as their buffers allow. */
  lemma {:induction false} AfterRefill(readers: seq<SegmentReadBuf>, readBufs: seq<SegmentReadBuf>,
                                       ess: seq<seq<SsTableEntry>>, maxSize: nat, p: Position)
    requires Readers(readers, ess, maxSize) && Fills(readers, readBufs, p.decoded)
    requires |readers| == |ess| == |p.decoded|
    requires forall i :: 0 <= i < |readers| && readers[i] !in readBufs ==>
               FilledTo(ess[i], readers[i].popped, p.decoded[i], maxSize) == p.decoded[i]
    ensures forall i :: 0 <= i < |readers| ==>
              readers[i].decoded == FilledTo(ess[i], readers[i].popped, p.decoded[i], maxSize)
  {
    hide FilledTo, Reach, SegmentReadBuf.Valid;
    ReadersAt(readers, ess, maxSize);
  }

  lemma {:induction false} BuffersOf(readers: seq<SegmentReadBuf>, ess: seq<seq<SsTableEntry>>, maxSize: nat,
                                     taken: seq<nat>, decoded: seq<nat>)
    requires Readers(readers, ess, maxSize) && |taken| == |decoded| == |readers|
    requires forall i :: 0 <= i < |readers| ==> taken[i] == readers[i].popped && decoded[i] == readers[i].decoded
    ensures |readers| == |ess|
    ensures forall i :: 0 <= i < |readers| ==>
              taken[i] <= decoded[i] <= |ess[i]| && readers[i].buf == ess[i][taken[i]..decoded[i]]
  {
    hide Readers;
    LengthsAgree(readers, ess, maxSize);
    forall i: nat | i < |readers|
      ensures taken[i] <= decoded[i] <= |ess[i]| && readers[i].buf == ess[i][taken[i]..decoded[i]]
    {
      BufferOf(readers, ess, maxSize, i);
    }
  }

  lemma {:induction false} RefilledReaders(readers: seq<SegmentReadBuf>, readBufs: seq<SegmentReadBuf>,
                                           kept: seq<SegmentReadBuf>, ess: seq<seq<SsTableEntry>>, maxSize: nat,
                                           ids: seq<nat>, decoded: seq<nat>, taken': seq<nat>)
    returns (ids': seq<nat>)
    requires Readers(readers, ess, maxSize) && Listed(readers, kept) && NoneEmpty(kept)
    requires |decoded| == |taken'| == |readers| && |ids| == |readBufs|
    requires forall i :: 0 <= i < |readers| ==> taken'[i] == readers[i].popped && taken'[i] <= decoded[i] <= readers[i].decoded
    requires forall j :: 0 <= j < |ids| ==> ids[j] < |readers| && readers[ids[j]] == readBufs[j]
    requires forall j :: 0 <= j < |kept| ==> kept[j] in readBufs
    requires forall j :: 0 <= j < |readBufs| && readBufs[j].buf != [] ==> readBufs[j] in kept
    ensures RefillOf(ess, ids, decoded, taken', ids', Decoded(readers), Buffered(kept))
  {
    hide Reach, Readers, SegmentReadBuf.Valid, Listed;
    ListedAmong(readers, kept);
    ids' := InputOf(readers, kept);
    BuffersOf(readers, ess, maxSize, taken', Decoded(readers));
    AllDistinct(readers, ess, maxSize);
    KeptAmong(readers, readBufs, kept, ids, ids');
    forall i | i in ids && taken'[i] < Decoded(readers)[i] ensures i in ids' {
      NonEmptyIsKept(readers, readBufs, kept, ids, ids', i);
    }
  }

  lemma {:induction false} KeptAmong(readers: seq<SegmentReadBuf>, readBufs: seq<SegmentReadBuf>,
                                     kept: seq<SegmentReadBuf>, ids: seq<nat>, ids': seq<nat>)
    requires forall i, j :: 0 <= i < |readers| && 0 <= j < |readers| && readers[i] == readers[j] ==> i == j
    requires |ids| == |readBufs| && forall j :: 0 <= j < |ids| ==> ids[j] < |readers| && readers[ids[j]] == readBufs[j]
    requires |ids'| == |kept| && forall j :: 0 <= j < |ids'| ==> ids'[j] < |readers| && readers[ids'[j]] == kept[j]
    requires forall j :: 0 <= j < |kept| ==> kept[j] in readBufs
    ensures forall j :: 0 <= j < |ids'| ==> ids'[j] in ids
  {
    forall j: nat | j < |ids'| ensures ids'[j] in ids {
      var n: nat :| n < |readBufs| && readBufs[n] == kept[j];
      assert readers[ids[n]] == readers[ids'[j]];
    }
  }

  lemma {:induction false} NonEmptyIsKept(readers: seq<SegmentReadBuf>, readBufs: seq<SegmentReadBuf>,
                                          kept: seq<SegmentReadBuf>, ids: seq<nat>, ids': seq<nat>, i: nat)
    requires forall i, j :: 0 <= i < |readers| && 0 <= j < |readers| && readers[i] == readers[j] ==> i == j
    requires |ids| == |readBufs| && forall j :: 0 <= j < |ids| ==> ids[j] < |readers| && readers[ids[j]] == readBufs[j]
    requires |ids'| == |kept| && forall j :: 0 <= j < |ids'| ==> ids'[j] < |readers| && readers[ids'[j]] == kept[j]
    requires forall j :: 0 <= j < |readBufs| && readBufs[j].buf != [] ==> readBufs[j] in kept
    requires i in ids && i < |readers| && readers[i].buf != []
    ensures i in ids'
  {
    var n: nat :| n < |ids| && ids[n] == i;
    var j: nat :| j < |kept| && kept[j] == readBufs[n];
    assert readers[ids'[j]] == readers[i];
  }

  lemma {:induction false} AllDistinct(readers: seq<SegmentReadBuf>, ess: seq<seq<SsTableEntry>>, maxSize: nat)
    requires Readers(readers, ess, maxSize)
    ensures forall i, j :: 0 <= i < |readers| && 0 <= j < |readers| && readers[i] == readers[j] ==> i == j
  {
    hide Reach, SegmentReadBuf.Valid;
  }

  lemma {:induction false} LengthsAgree(readers: seq<SegmentReadBuf>, ess: seq<seq<SsTableEntry>>, maxSize: nat)
    requires Readers(readers, ess, maxSize)
    ensures |readers| == |ess|
  {
  }

  lemma {:induction false} RoundEffect(ess: seq<seq<SsTableEntry>>, taken: seq<nat>, decoded: seq<nat>, ids: seq<nat>,
                                       bufs: seq<Queue>,
                                       rest: seq<Queue>, taken': seq<nat>, out: seq<SsTableEntry>, j: nat)
    requires RoundOf(ess, taken, decoded, ids, bufs, rest, taken') && |rest| == |bufs| && Collected(bufs, rest, out)
    requires j < |bufs| && |rest[j]| < |bufs[j]|
    ensures Advances(ess, taken, taken', out)
  {
    hide RoundOf, Collected, Kept, Taken, Remaining;
    RoundShrinks(ess, taken, decoded, ids, bufs, rest, taken', j);
    RoundSound(ess, taken, decoded, ids, bufs, rest, taken', out);
    forall written | Kept(ess, taken, written) ensures Kept(ess, taken', written + out) {
      RoundKeeps(ess, taken, decoded, ids, bufs, rest, taken', written, out);
    }
  }

  lemma {:induction false} RoundSound(ess: seq<seq<SsTableEntry>>, taken: seq<nat>, decoded: seq<nat>, ids: seq<nat>,
                                      bufs: seq<Queue>,
                                      rest: seq<Queue>, taken': seq<nat>, out: seq<SsTableEntry>)
    requires RoundOf(ess, taken, decoded, ids, bufs, rest, taken') && |rest| == |bufs| && Collected(bufs, rest, out)
    ensures WithinInputs(ess, taken') && forall k :: 0 <= k < |out| ==> Taken(ess, taken', out[k])
  {
    hide Taken, Popped, Covered, StrictlyIncreasing, RoundOf;
    RoundRanges(ess, taken, decoded, ids, bufs, rest, taken');
    forall k | 0 <= k < |out| ensures Taken(ess, taken', out[k]) {
      RoundTaken(ess, taken, decoded, ids, bufs, rest, taken', out[k]);
    }
  }

  ghost function PoppedSoFar(readers: seq<SegmentReadBuf>): (r: seq<nat>)
    reads readers
    ensures |r| == |readers| && forall i :: 0 <= i < |r| ==> r[i] == readers[i].popped
  {
    if readers == [] then [] else PoppedSoFar(readers[..|readers| - 1]) + [readers[|readers| - 1].popped]
  }

  ghost function Decoded(readers: seq<SegmentReadBuf>): (r: seq<nat>)
    reads readers
    ensures |r| == |readers| && forall i :: 0 <= i < |r| ==> r[i] == readers[i].decoded
  {
    if readers == [] then [] else Decoded(readers[..|readers| - 1]) + [readers[|readers| - 1].decoded]
  }

  lemma {:induction false} NothingTaken(ess: seq<seq<SsTableEntry>>, taken: seq<nat>)
    requires |taken| == |ess| && forall i :: 0 <= i < |ess| ==> taken[i] == 0
    ensures WithinInputs(ess, taken) && Kept(ess, taken, [])
  {
  }

  /** If anything was written, something could be read. */
  lemma {:induction false} WrittenWasTaken(ess: seq<seq<SsTableEntry>>, taken: seq<nat>, written: seq<SsTableEntry>)
    requires WithinInputs(ess, taken) && Kept(ess, taken, written) && written != []
    ensures exists i :: 0 <= i < |ess| && taken[i] > 0
  {
    assert Taken(ess, taken, written[0]);
  }

  lemma {:induction false} TakenIsWritten(ess: seq<seq<SsTableEntry>>, taken: seq<nat>, written: seq<SsTableEntry>,
                                          i: nat)
    requires WithinInputs(ess, taken) && Kept(ess, taken, written) && i < |ess|
    ensures taken[i] > 0 ==> written != []
  {
    assert taken[i] > 0 ==> Covered(written, ess[i][0]);
  }

  lemma {:induction false} NothingWritten(ess: seq<seq<SsTableEntry>>, taken: seq<nat>)
    requires WithinInputs(ess, taken) && Kept(ess, taken, [])
    ensures forall i :: 0 <= i < |ess| ==> taken[i] == 0
  {
    hide Kept;
    forall i | 0 <= i < |ess| ensures taken[i] == 0 {
      TakenIsWritten(ess, taken, [], i);
    }
  }

  lemma {:induction false} StoredNone(firstNumber: nat)
    ensures Stored([], [], firstNumber)
  {
  }

  lemma {:induction false} FlattenNone()
    ensures Flatten([]) == []
  {
  }

  lemma {:induction false} StoredSnoc(res: seq<Segment>, groups: seq<seq<SsTableEntry>>, firstNumber: nat, s: Segment,
                                      g: seq<SsTableEntry>)
    requires Stored(res, groups, firstNumber) && Holds(s, g) && s.number == firstNumber + |res|
    ensures Stored(res + [s], groups + [g], firstNumber)
  {
    hide Holds;
  }

  lemma {:induction false} WriterStarts(w: SegmentWriter)
    requires w.Valid() && !w.finished && w.entries == [] && w.currSize == 0 && w.targetSize == SEGMENT_SIZE
    ensures Bounded(w)
  {
  }

  lemma {:induction false} AllHoldValid(segments: seq<Segment>, ess: seq<seq<SsTableEntry>>)
    requires |segments| == |ess| && forall i :: 0 <= i < |segments| ==> Holds(segments[i], ess[i])
    ensures forall i :: 0 <= i < |ess| ==> AllValid(ess[i])
  {
    hide Holds;
    forall i | 0 <= i < |ess| ensures AllValid(ess[i]) {
      HoldsValid(segments[i], ess[i]);
    }
  }

  lemma {:induction false} ListedAmong(readers: seq<SegmentReadBuf>, readBufs: seq<SegmentReadBuf>)
    requires Listed(readers, readBufs)
    ensures forall j :: 0 <= j < |readBufs| ==> readBufs[j] in readers
  {
    hide Reach;
  }

  lemma {:induction false} SomethingReadable(readers: seq<SegmentReadBuf>, readBufs: seq<SegmentReadBuf>,
                                             ess: seq<seq<SsTableEntry>>, maxSize: nat)
    requires Readers(readers, ess, maxSize) && Listed(readers, readBufs) && NoneEmpty(readBufs) && readBufs != []
    ensures exists i :: 0 <= i < |ess| && Reaches(ess, maxSize)[i] > 0
  {
    hide Reach, Holds, Frames, OffsetOf;
    var i: nat :| i < |readers| && readers[i] == readBufs[0];
    assert readers[i].Valid() && readers[i].decoded <= Reach(ess[i], maxSize);
    assert Reaches(ess, maxSize)[i] > 0;
  }

  lemma {:induction false} AllExhausted(readers: seq<SegmentReadBuf>, ess: seq<seq<SsTableEntry>>, maxSize: nat,
                                        taken: seq<nat>)
    requires Readers(readers, ess, maxSize) && Listed(readers, []) && |taken| == |readers|
    requires forall i :: 0 <= i < |readers| ==> taken[i] == readers[i].popped
    ensures taken == Reaches(ess, maxSize)
  {
    hide Reach, SegmentReadBuf.Valid;
  }

  /** All of every input is within reach exactly when each framed entry fits the read buffer. */
  lemma {:induction false} AllReachedIff(ess: seq<seq<SsTableEntry>>, maxSize: nat)
    ensures (forall i :: 0 <= i < |ess| ==> Reaches(ess, maxSize)[i] == |ess[i]|)
            <==> forall i, q :: 0 <= i < |ess| && 0 <= q < |ess[i]| ==> FrameLen(ess[i][q]) <= maxSize
  {
    hide Reach;
    forall i | 0 <= i < |ess|
      ensures Reach(ess[i], maxSize) == |ess[i]| <==> forall q :: 0 <= q < |ess[i]| ==> FrameLen(ess[i][q]) <= maxSize
    {
      ReachIsFirstTooLong(ess[i], maxSize, |ess[i]|);
    }
    if forall i :: 0 <= i < |ess| ==> Reaches(ess, maxSize)[i] == |ess[i]| {
      forall i, q | 0 <= i < |ess| && 0 <= q < |ess[i]| ensures FrameLen(ess[i][q]) <= maxSize {
        assert Reaches(ess, maxSize)[i] == |ess[i]|;
      }
    }
  }

  // ---------- the share of each buffer, in bytes ----------

  /** No framed entry is longer than an input's share of ten mebibytes, and one byte. */
  ghost predicate FitShares(ess: seq<seq<SsTableEntry>>, n: nat)
    requires n > 0
  {
    forall i, q :: 0 <= i < |ess| && 0 <= q < |ess[i]| ==> |Frame(ess[i][q])| <= 10 * 1024 * 1024 / n + 1
  }

  function Lengths(ess: seq<seq<SsTableEntry>>): (n: seq<nat>)
    ensures |n| == |ess| && forall i :: 0 <= i < |ess| ==> n[i] == |ess[i]|
  {
    seq(|ess|, i requires 0 <= i < |ess| => |ess[i]|)
  }

  /** Exactly then every input is taken whole. */
  lemma {:induction false} TakenWholeIff(ess: seq<seq<SsTableEntry>>)
    requires ess != []
    ensures FitShares(ess, |ess|) <==> Reaches(ess, ReadBufLen(|ess|)) == Lengths(ess)
  {
    hide Reach, Frame;
    AllReachedIff(ess, ReadBufLen(|ess|));
  }

  lemma {:induction false} SegmentsReach(segments: seq<Segment>, ess: seq<seq<SsTableEntry>>)
    requires segments != [] && |segments| == |ess| && Holds(segments[0], ess[0])
    ensures Lengths(ess)[0] > 0
  {
  }

  /** How many bytes the buffers hold together. */
  function BufferedLen(bufs: seq<Queue>): nat {
    if bufs == [] then 0 else BufferedLen(bufs[..|bufs| - 1]) + |Frames(bufs[|bufs| - 1])|
  }

  lemma {:induction false} BufferedAtMost(bufs: seq<Queue>, maxSize: nat)
    requires forall j :: 0 <= j < |bufs| ==> |Frames(bufs[j])| <= maxSize
    ensures BufferedLen(bufs) <= |bufs| * maxSize
  {
    hide Frames;
    if bufs != [] {
      var n := |bufs| - 1;
      BufferedAtMost(bufs[..n], maxSize);
      assert |bufs| * maxSize == n * maxSize + maxSize;
    }
  }

  lemma {:induction false} RoundWithinBuffers(ess: seq<seq<SsTableEntry>>, maxSize: nat, r: nat)
    ensures BufferedLen(RoundQueues(ess, maxSize, r)) <= |ess| * maxSize
  {
    hide Frames, AtRound, Reach;
    var p, bufs := AtRound(ess, maxSize, r), RoundQueues(ess, maxSize, r);
    RoundConsistent(ess, maxSize, r);
    forall j | 0 <= j < |bufs| ensures |Frames(bufs[j])| <= maxSize {
      var i := Live(p)[j];
      assert IsLive(p, i) && ConsistentAt(ess[i], maxSize, p.taken[i], p.decoded[i]);
    }
    BufferedAtMost(bufs, maxSize);
    FewQueues(ess, maxSize, r);
    ProductGrows(|bufs|, |ess|, maxSize);
  }

  lemma {:induction false} ProductGrows(a: nat, b: nat, n: nat)
    requires a <= b
    ensures a * n <= b * n
  {
  }

  lemma {:induction false} SharesAddUp(n: nat)
    requires n > 0
    ensures n * ReadBufLen(n) <= 10 * 1024 * 1024 + n
  {
    var total := 10 * 1024 * 1024;
    assert total / n * n <= total;
    assert n * (total / n + 1) == total / n * n + n;
  }

  /** In no round do all buffers together hold more than ten mebibytes and a byte for each input. */
  lemma {:induction false} CallsWithinBuffers(ess: seq<seq<SsTableEntry>>, calls: seq<Call>)
    requires ess != [] && RoundsAre(ess, ReadBufLen(|ess|), calls)
    ensures forall r :: 0 <= r < |calls| ==> BufferedLen(calls[r].bufs) <= 10 * 1024 * 1024 + |ess|
  {
    hide RoundQueues, ReadBufLen, BufferedLen, Stuck;
    SharesAddUp(|ess|);
    forall r | 0 <= r < |calls| ensures BufferedLen(calls[r].bufs) <= 10 * 1024 * 1024 + |ess| {
      RoundWithinBuffers(ess, ReadBufLen(|ess|), r);
    }
  }

  lemma {:induction false} NothingRolled(sparsity: nat)
    requires sparsity > 0
    ensures AllFull([], sparsity) && BelowBeforeLast([], sparsity)
  {
  }

  /** The calls are the first rounds, and none of them got stuck. */
  ghost predicate RoundsAre(ess: seq<seq<SsTableEntry>>, maxSize: nat, calls: seq<Call>) {
    forall r :: 0 <= r < |calls| ==> calls[r].bufs == RoundQueues(ess, maxSize, r) && !Stuck(calls[r].bufs)
  }

  lemma {:induction false} RoundsSnoc(ess: seq<seq<SsTableEntry>>, maxSize: nat, calls: seq<Call>, c: Call)
    requires RoundsAre(ess, maxSize, calls) && c.bufs == RoundQueues(ess, maxSize, |calls|) && !Stuck(c.bufs)
    ensures RoundsAre(ess, maxSize, calls + [c])
    ensures AtRound(ess, maxSize, |calls + [c]|) == NextRound(ess, maxSize, AtRound(ess, maxSize, |calls|))
  {
    hide Stuck, RoundQueues, NextRound;
  }

  /** Between two rounds: what has been read is written or superseded, and exhausted readers are gone. */
  ghost predicate Progress(readers: seq<SegmentReadBuf>, readBufs: seq<SegmentReadBuf>, ess: seq<seq<SsTableEntry>>,
                           maxSize: nat, p: Position, writer: SegmentWriter, res: seq<Segment>,
                           groups: seq<seq<SsTableEntry>>, firstNumber: nat, calls: seq<Call>)
    reads readers, readBufs, writer
  {
    && ReadersProgress(readers, readBufs, ess, maxSize, p, calls)
    && Bounded(writer) && Stored(res, groups, firstNumber)
    && WithinInputs(ess, p.taken) && Kept(ess, p.taken, Flatten(groups) + writer.entries)
    && (writer.entries == [] ==> Flatten(groups) == [])
    && AllFull(groups, writer.indexSparsityFactor) && BelowBeforeLast(writer.entries, writer.indexSparsityFactor)
    && Outputs(calls) == Flatten(groups) + writer.entries
  }

  ghost predicate LessLeft(ess: seq<seq<SsTableEntry>>, p: Position, p': Position) {
    WithinInputs(ess, p.taken) && WithinInputs(ess, p'.taken) && Remaining(ess, p'.taken) < Remaining(ess, p.taken)
  }

  /** What a round puts out, added to what was written before. */
  lemma {:induction false} RoundWrites(ess: seq<seq<SsTableEntry>>, p: Position, p': Position,
                                       written: seq<SsTableEntry>,
                                       out: seq<SsTableEntry>)
    requires Advances(ess, p.taken, p'.taken, out) && (forall i :: 0 <= i < |ess| ==> AllValid(ess[i]))
    requires WithinInputs(ess, p.taken) && Kept(ess, p.taken, written)
    ensures LessLeft(ess, p, p') && Kept(ess, p'.taken, written + out) && AllValid(out)
  {
    hide Kept, Taken, Remaining, WithinInputs, AllValid;
    OutputValid(ess, p'.taken, out);
  }

  /** The readers' half of it. */
  ghost predicate ReadersProgress(readers: seq<SegmentReadBuf>, readBufs: seq<SegmentReadBuf>,
                                  ess: seq<seq<SsTableEntry>>, maxSize: nat, p: Position, calls: seq<Call>)
    reads readers, readBufs
  {
    && Readers(readers, ess, maxSize) && Listed(readers, readBufs) && NoneEmpty(readBufs)
    && StandAt(readers, readBufs, p) && p == AtRound(ess, maxSize, |calls|) && RoundsAre(ess, maxSize, calls)
    && Chain(calls, Buffered(readBufs))
  }

  /** The first half of a round of the loop: merge and refill. */
  method ReadRound(ghost readers: seq<SegmentReadBuf>, readBufs: seq<SegmentReadBuf>,
                   ghost ess: seq<seq<SsTableEntry>>, ghost maxSize: nat, ghost p: Position, ghost calls: seq<Call>)
    returns (kept: seq<SegmentReadBuf>, out: seq<SsTableEntry>, ghost p': Position, ghost calls': seq<Call>, spins: bool)
    requires ReadersProgress(readers, readBufs, ess, maxSize, p, calls) && Sorted(ess) && readBufs != []
    modifies readBufs
    ensures spins <==> Stuck(RoundQueues(ess, maxSize, |calls|))
    ensures !spins ==> ReadersProgress(readers, kept, ess, maxSize, p', calls') && Advances(ess, p.taken, p'.taken, out)
    ensures !spins ==> out != [] && Outputs(calls') == Outputs(calls) + out
    ensures forall j :: 0 <= j < |kept| ==> kept[j] in readBufs
  {
    hide Less, Readers, Listed, NoneEmpty, Reach, Sorted, SegmentReadBuf.Valid, Stuck, Chain, Outputs, Returned, Refilled,
         StandAt, NextRound, AtRound, RoundsAre, QueuesOf, Consistent, Advances, LessLeft;
    calls', p' := calls, p;
    ghost var call;
    RoundConsistent(ess, maxSize, |calls|);
    BufferedIs(readers, readBufs, ess, maxSize, p);
    kept, out, spins, call := Round(readers, readBufs, ess, maxSize, p);
    if spins {
      return;
    }
    p' := NextRound(ess, maxSize, p);
    ChainSnoc(calls, call, Buffered(kept));
    RoundsSnoc(ess, maxSize, calls, call);
    calls' := calls + [call];
  }

  /** One round of the loop: merge, write, refill. */
  method MergeRound(ghost readers: seq<SegmentReadBuf>, readBufs: seq<SegmentReadBuf>,
                    ghost ess: seq<seq<SsTableEntry>>, ghost maxSize: nat, ghost p: Position, writer: SegmentWriter,
                    res: seq<Segment>, ghost groups: seq<seq<SsTableEntry>>, firstNumber: nat, ghost calls: seq<Call>)
    returns (kept: seq<SegmentReadBuf>, ghost p': Position, writer': SegmentWriter, res': seq<Segment>,
             ghost groups': seq<seq<SsTableEntry>>, ghost calls': seq<Call>, spins: bool)
    requires Progress(readers, readBufs, ess, maxSize, p, writer, res, groups, firstNumber, calls)
    requires Sorted(ess) && (forall i :: 0 <= i < |ess| ==> AllValid(ess[i])) && readBufs != []
    modifies readBufs, writer
    ensures spins <==> Stuck(RoundQueues(ess, maxSize, |calls|))
    ensures !spins ==> Progress(readers, kept, ess, maxSize, p', writer', res', groups', firstNumber, calls')
    ensures !spins ==> LessLeft(ess, p, p')
    ensures (writer' == writer || fresh(writer')) && forall j :: 0 <= j < |kept| ==> kept[j] in readBufs
    ensures writer'.indexSparsityFactor == writer.indexSparsityFactor
  {
    hide Less, Kept, Holds, Sorted, Flatten, AllFull, BelowBeforeLast, Stored, Bounded, AllValid, WithinInputs, Stuck, Outputs, RoundQueues,
         ReadersProgress, Advances, Remaining;
    writer', res', groups' := writer, res, groups;
    ghost var written := Flatten(groups) + writer.entries;
    var out: seq<SsTableEntry>;
    kept, out, p', calls', spins := ReadRound(readers, readBufs, ess, maxSize, p, calls);
    if spins {
      return;
    }
    RoundWrites(ess, p, p', written, out);
    writer', res', groups' := WriteOut(writer, out, firstNumber, res, groups);
    assert Flatten(groups') + writer'.entries == written + out;
  }

  /** After the first fill the readers stand where the first round starts. */
  lemma {:induction false} StandFirst(readers: seq<SegmentReadBuf>, kept: seq<SegmentReadBuf>,
                                      ess: seq<seq<SsTableEntry>>, maxSize: nat)
    requires Readers(readers, ess, maxSize) && Fills(readers, readers, NoneYet(|readers|)) && kept == NonEmptyOf(readers)
    requires forall i :: 0 <= i < |readers| ==> readers[i].popped == 0
    ensures StandAt(readers, kept, AtRound(ess, maxSize, 0))
  {
    hide FilledTo, Reach, SegmentReadBuf.Valid, LiveAmong, IsLive;
    ReadersAt(readers, ess, maxSize);
    var p := AtRound(ess, maxSize, 0);
    forall i | 0 <= i < |readers| ensures readers[i].buf != [] <==> IsLive(p, i) {
      BufferOf(readers, ess, maxSize, i);
      LiveIs(p, i);
    }
    NonEmptyAreLive(readers, FirstNumbers(|readers|), p);
    assert Pick(readers, FirstNumbers(|readers|)) == readers;
  }

  /** What can be read, in every reachable position. */
  lemma {:induction false} LastRound(ess: seq<seq<SsTableEntry>>, maxSize: nat, readers: seq<SegmentReadBuf>,
                                     p: Position, calls: seq<Call>)
    requires ReadersProgress(readers, [], ess, maxSize, p, calls)
    ensures RoundsAre(ess, maxSize, calls) && Chain(calls, RoundQueues(ess, maxSize, |calls|))
    ensures p.taken == Reaches(ess, maxSize) && RoundQueues(ess, maxSize, |calls|) == [] && !GetsStuck(ess, maxSize)
    ensures StrictlyIncreasing(Outputs(calls)) <==> StaysInOrder(ess, maxSize)
  {
    hide Readers, Listed, StandAt, AtRound, Stuck, Chain, CutsInOrder, StrictlyIncreasing, QueuesOf, Reach;
    StandAtIs(readers, [], p);
    AllExhausted(readers, ess, maxSize, p.taken);
    BufferedIs(readers, [], ess, maxSize, p);
    EndsUnstuck(ess, maxSize, |calls|);
    OrderOfRounds(ess, maxSize, |calls|);
    MergeAscendsIff(calls);
  }

  /**
   * The merge of whole segments. Whatever the readers can reach is kept: every entry written comes from an input, and
   * every reachable entry is written or superseded by a written version of its key at least as new. The rounds are
   * determined by the inputs. The merge never returns exactly when one of them starts with queues that are stuck,
   * which takes at least three inputs, and it writes an ascending sequence exactly when every round cuts its queues in
   * order. `calls` are the calls that returned; their outputs are what is written.
   */
  method MergeAndWrite(segments: seq<Segment>, sparsity: nat, firstNumber: nat, ghost ess: seq<seq<SsTableEntry>>)
    returns (outcome: MergeOutcome, ghost groups: seq<seq<SsTableEntry>>, ghost calls: seq<Call>)
    requires sparsity > 0 && |segments| == |ess|
    requires (forall i :: 0 <= i < |segments| ==> Holds(segments[i], ess[i])) && Sorted(ess)
    ensures segments == [] ==> outcome == Written([])
    ensures segments != [] ==> (outcome.NeverReturns? <==> GetsStuck(ess, ReadBufLen(|segments|)))
    ensures segments != [] ==>
              (outcome.Panicked? <==> forall i :: 0 <= i < |ess| ==> Reaches(ess, ReadBufLen(|segments|))[i] == 0)
    ensures segments != [] ==> RoundsAre(ess, ReadBufLen(|segments|), calls)
    ensures segments != [] ==> Chain(calls, RoundQueues(ess, ReadBufLen(|segments|), |calls|))
    ensures segments != [] && outcome.NeverReturns? ==> Stuck(RoundQueues(ess, ReadBufLen(|segments|), |calls|))
    ensures segments != [] && !outcome.NeverReturns? ==> RoundQueues(ess, ReadBufLen(|segments|), |calls|) == []
    ensures segments != [] && outcome.Written? ==>
              && Stored(outcome.segments, groups, firstNumber) && Flatten(groups) == Outputs(calls)
              && WithinInputs(ess, Reaches(ess, ReadBufLen(|segments|)))
              && Kept(ess, Reaches(ess, ReadBufLen(|segments|)), Flatten(groups))
    ensures segments != [] && outcome.Written? ==>
              (StrictlyIncreasing(Flatten(groups)) <==> StaysInOrder(ess, ReadBufLen(|segments|)))
    ensures outcome.NeverReturns? ==> |segments| > 2
    ensures segments != [] && outcome.Written? ==> RolledOver(groups, sparsity)
    ensures segments != [] ==>
              forall r :: 0 <= r < |calls| ==> BufferedLen(calls[r].bufs) <= 10 * 1024 * 1024 + |segments|
    ensures segments != [] && FitShares(ess, |segments|) ==>
              && !outcome.Panicked? && (|segments| <= 2 ==> outcome.Written?)
              && (outcome.Written? ==> WithinInputs(ess, Lengths(ess)) && Kept(ess, Lengths(ess), Flatten(groups)))
  {
    hide Less, Kept, Reach, Holds, Sorted, Flatten, Stored, Bounded, AllValid, Remaining, WithinInputs, Stuck, Chain, Outputs,
         RoundsAre, GetsStuck, StaysInOrder, StrictlyIncreasing, RoundQueues, ReadersProgress, ReadBufLen, FitShares,
         BufferedLen, AllFull, BelowBeforeLast, RolledOver;
    groups, calls := [], [];
    FlattenNone();
    StoredNone(firstNumber);
    if segments == [] {
      return Written([]), groups, calls;
    }
    ghost var maxSize := ReadBufLen(|segments|);
    ghost var readers, p;
    var readBufs;
    readers, readBufs, p := OpenReaders(segments, ReadBufLen(|segments|), ess);
    var writer := new SegmentWriter.CreateNewSegment(sparsity);
    WriterStarts(writer);
    var res: seq<Segment> := [];
    NoOutputs();
    NothingTaken(ess, p.taken);
    AllHoldValid(segments, ess);
    NothingRolled(sparsity);
    if FitShares(ess, |segments|) {
      TakenWholeIff(ess);
      SegmentsReach(segments, ess);
    }
    assert Flatten(groups) + writer.entries == [];
    while readBufs != []
      invariant Progress(readers, readBufs, ess, maxSize, p, writer, res, groups, firstNumber, calls)
      invariant fresh(writer) && forall j :: 0 <= j < |readBufs| ==> fresh(readBufs[j])
      invariant writer.indexSparsityFactor == sparsity
      decreases Remaining(ess, p.taken)
    {
      BetweenRounds(readers, readBufs, ess, maxSize, p, calls);
      ghost var before := calls;
      var spins: bool;
      readBufs, p, writer, res, groups, calls, spins :=
        MergeRound(readers, readBufs, ess, maxSize, p, writer, res, groups, firstNumber, calls);
      if spins {
        SpinsOnlyForThree(ess, maxSize, |before|);
        CallsWithinBuffers(ess, before);
        return NeverReturns, groups, before;
      }
    }
    LastRound(ess, maxSize, readers, p, calls);
    CallsWithinBuffers(ess, calls);
    outcome, groups := FinishMerge(writer, firstNumber, res, groups, ess, p.taken);
  }

  /** The readers of all segments, filled for the first round. */
  method OpenReaders(segments: seq<Segment>, maxSize: nat, ghost ess: seq<seq<SsTableEntry>>)
    returns (ghost readers: seq<SegmentReadBuf>, readBufs: seq<SegmentReadBuf>, ghost p: Position)
    requires |segments| == |ess| && forall i :: 0 <= i < |segments| ==> Holds(segments[i], ess[i])
    ensures ReadersProgress(readers, readBufs, ess, maxSize, p, [])
    ensures |p.taken| == |ess| && forall i :: 0 <= i < |ess| ==> p.taken[i] == 0
    ensures forall j :: 0 <= j < |readBufs| ==> fresh(readBufs[j])
  {
    hide Readers, Listed, NoneEmpty, Reach, Holds, SegmentReadBuf.Valid, Chain, StandAt, NextRound, RoundsAre, Fills,
         FilledTo, NonEmptyOf;
    var created := CreateReaders(segments, maxSize, ess);
    LengthsAgree(created, ess, maxSize);
    assert Decoded(created) == NoneYet(|created|);
    readBufs := Refill(created, created, ess, maxSize);
    readers, p := created, AtRound(ess, maxSize, 0);
    StandFirst(readers, readBufs, ess, maxSize);
    NoCalls(ess, maxSize, Buffered(readBufs));
  }

  /** Finishes the last file; there is none only if nothing was read. */
  method FinishMerge(writer: SegmentWriter, firstNumber: nat, res: seq<Segment>, ghost groups: seq<seq<SsTableEntry>>,
                     ghost ess: seq<seq<SsTableEntry>>, ghost taken: seq<nat>)
    returns (outcome: MergeOutcome, ghost groups': seq<seq<SsTableEntry>>)
    requires Bounded(writer) && Stored(res, groups, firstNumber) && (writer.entries == [] ==> Flatten(groups) == [])
    requires WithinInputs(ess, taken) && Kept(ess, taken, Flatten(groups) + writer.entries)
    requires AllFull(groups, writer.indexSparsityFactor) && BelowBeforeLast(writer.entries, writer.indexSparsityFactor)
    modifies writer
    ensures !outcome.NeverReturns?
    ensures outcome.Panicked? <==> forall i :: 0 <= i < |ess| ==> taken[i] == 0
    ensures outcome.Written? ==>
              && Stored(outcome.segments, groups', firstNumber) && Flatten(groups') == old(Flatten(groups) + writer.entries)
              && RolledOver(groups', writer.indexSparsityFactor)
  {
    hide Kept, Holds, Flatten, Stored, Bounded, AllFull, BelowBeforeLast, RolledOver;
    ghost var written := Flatten(groups) + writer.entries;
    ghost var last := writer.entries;
    HasSparsity(writer);
    var finished := FinishAndOpen(writer, firstNumber + |res|);
    if finished.None? {
      assert written == [];
      NothingWritten(ess, taken);
      return MergeOutcome.Panicked, groups;
    }
    WrittenWasTaken(ess, taken, written);
    StoredSnoc(res, groups, firstNumber, finished.value, writer.entries);
    FlattenSnoc(groups, writer.entries);
    FullThenLast(groups, last, writer.indexSparsityFactor);
    groups' := groups + [writer.entries];
    outcome := Written(res + [finished.value]);
  }

  /** What is known whenever a round starts. */
  lemma {:induction false} BetweenRounds(readers: seq<SegmentReadBuf>, readBufs: seq<SegmentReadBuf>,
                                         ess: seq<seq<SsTableEntry>>, maxSize: nat, p: Position, calls: seq<Call>)
    requires ReadersProgress(readers, readBufs, ess, maxSize, p, calls) && readBufs != []
    ensures RoundsAre(ess, maxSize, calls) && Chain(calls, RoundQueues(ess, maxSize, |calls|))
    ensures exists i :: 0 <= i < |ess| && Reaches(ess, maxSize)[i] > 0
  {
    hide Readers, Listed, NoneEmpty, StandAt, AtRound, RoundsAre, Chain, QueuesOf, Reaches;
    SomethingReadable(readers, readBufs, ess, maxSize);
    BufferedIs(readers, readBufs, ess, maxSize, p);
  }

  lemma {:induction false} NoOutputs()
    ensures Outputs([]) == []
  {
  }

  lemma {:induction false} NoCalls(ess: seq<seq<SsTableEntry>>, maxSize: nat, last: seq<Queue>)
    ensures Chain([], last) && Outputs([]) == [] && RoundsAre(ess, maxSize, [])
  {
  }
}
