/** What the segments a merge writes are worth: where they lie, when they are in order, and what they then answer. */
module LevelMerge {
  import opened Bytes
  import opened Options
  import opened SsTableEntries
  import opened SsTableSegment
  import opened SsTableReadBuf
  import opened MergeSpec
  import opened MergeRounds
  import opened MergeWrite
  import opened Levels

  // ---------- the hull ----------

  lemma {:induction false} FlattenHas(groups: seq<seq<SsTableEntry>>, g: nat, q: nat)
    requires g < |groups| && q < |groups[g]|
    ensures groups[g][q] in Flatten(groups)
    decreases |groups|
  {
    var n := |groups| - 1;
    if g < n {
      FlattenHas(groups[..n], g, q);
    }
  }

  /** Every key written lies in the hull of the inputs. */
  lemma {:induction false} KeyInHull(segments: seq<Segment>, ess: seq<seq<SsTableEntry>>, taken: seq<nat>,
                                     written: seq<SsTableEntry>, e: SsTableEntry)
    requires AllHold(segments, ess) && WithinInputs(ess, taken) && Kept(ess, taken, written) && e in written
    ensures InHull(segments, e.key)
  {
    hide Less, AtMost, Holds, StrictlyIncreasing, Covered;
    var k: nat :| k < |written| && written[k] == e;
    assert Taken(ess, taken, written[k]);
    var i: nat, q: nat :| i < |ess| && q < taken[i] && ess[i][q] == e;
    EntryInRange(segments[i], ess[i], q);
    assert segments[i] in segments;
  }

  /** A merge writes inside the hull of what it reads, in order or not. */
  lemma {:induction false} WrittenInsideHull(segments: seq<Segment>, ess: seq<seq<SsTableEntry>>, taken: seq<nat>,
                                             res: seq<Segment>, groups: seq<seq<SsTableEntry>>, firstNumber: nat)
    requires AllHold(segments, ess) && WithinInputs(ess, taken) && Kept(ess, taken, Flatten(groups))
    requires Stored(res, groups, firstNumber)
    ensures InsideHull(segments, res)
  {
    hide Less, AtMost, Holds, StrictlyIncreasing, Kept, AllHold, Flatten, InHull;
    forall t | t in res ensures InHull(segments, t.firstKey) && InHull(segments, t.lastKey) {
      var g: nat :| g < |res| && res[g] == t;
      HoldsEnds(t, groups[g]);
      FlattenHas(groups, g, 0);
      FlattenHas(groups, g, |groups[g]| - 1);
      KeyInHull(segments, ess, taken, Flatten(groups), groups[g][0]);
      KeyInHull(segments, ess, taken, Flatten(groups), groups[g][|groups[g]| - 1]);
    }
  }

  lemma {:induction false} HoldsEnds(s: Segment, es: seq<SsTableEntry>)
    requires Holds(s, es)
    ensures es != [] && s.firstKey == es[0].key && s.lastKey == es[|es| - 1].key
  {
  }

  // ---------- order ----------

  /** The entries written before group `g`. */
  function Offset(groups: seq<seq<SsTableEntry>>, g: nat): nat
    requires g <= |groups|
  {
    |Flatten(groups[..g])|
  }

  lemma {:induction false} GroupPlace(groups: seq<seq<SsTableEntry>>, g: nat)
    requires g < |groups|
    ensures Offset(groups, g) + |groups[g]| == Offset(groups, g + 1) <= |Flatten(groups)|
    ensures Flatten(groups)[Offset(groups, g)..Offset(groups, g + 1)] == groups[g]
    decreases |groups|
  {
    var n := |groups| - 1;
    assert groups[..g + 1][..g] == groups[..g];
    if g == n {
      assert groups[..n + 1] == groups;
    } else {
      GroupPlace(groups[..n], g);
      assert groups[..n][..g] == groups[..g] && groups[..n][..g + 1] == groups[..g + 1];
      var front := Flatten(groups[..n]);
      assert Flatten(groups)[Offset(groups, g)..Offset(groups, g + 1)] == front[Offset(groups, g)..Offset(groups, g + 1)];
    }
  }

  lemma {:induction false} OffsetGrows(groups: seq<seq<SsTableEntry>>, g: nat, h: nat)
    requires g < h <= |groups|
    ensures Offset(groups, g + 1) <= Offset(groups, h)
    decreases h
  {
    if g + 1 < h {
      OffsetGrows(groups, g, h - 1);
      GroupPlace(groups, h - 1);
    }
  }

  /** Written in order, the new segments are ascending in themselves and disjoint from each other. */
  lemma {:induction false} AscendingIsPartitioned(res: seq<Segment>, groups: seq<seq<SsTableEntry>>, firstNumber: nat)
    requires Stored(res, groups, firstNumber) && StrictlyIncreasing(Flatten(groups))
    ensures AllHold(res, groups) && Partitioned(res)
  {
    hide Less, AtMost, Holds, Flatten, Offset, StrictlyIncreasing, Overlaps;
    forall g | 0 <= g < |res| ensures StrictlyIncreasing(groups[g]) && AtMost(res[g].firstKey, res[g].lastKey) {
      GroupPlace(groups, g);
      SubIncreasing(Flatten(groups), Offset(groups, g), Offset(groups, g + 1));
      HoldsEnds(res[g], groups[g]);
      EntryInRange(res[g], groups[g], 0);
    }
    forall g, h | 0 <= g < h < |res| ensures !Overlaps(res[g], res[h]) {
      GroupsApart(res, groups, firstNumber, g, h);
    }
  }

  lemma {:induction false} GroupsApart(res: seq<Segment>, groups: seq<seq<SsTableEntry>>, firstNumber: nat, g: nat,
                                       h: nat)
    requires Stored(res, groups, firstNumber) && StrictlyIncreasing(Flatten(groups)) && g < h < |res|
    ensures !Overlaps(res[g], res[h])
  {
    hide Less, Holds, Flatten, Offset;
    GroupPlace(groups, g);
    GroupPlace(groups, h);
    OffsetGrows(groups, g, h);
    HoldsEnds(res[g], groups[g]);
    HoldsEnds(res[h], groups[h]);
    var all := Flatten(groups);
    var p, q := Offset(groups, g + 1) - 1, Offset(groups, h);
    assert all[p] == groups[g][|groups[g]| - 1];
    assert all[q] == groups[h][0];
    assert Less(all[p].key, all[q].key);
    AtMostIsNotAbove(res[h].firstKey, res[g].lastKey);
  }

  // ---------- answers ----------

  /** What is newest among the written segments is newest among the inputs, if all was read and written in order. */
  lemma {:induction false} NewestOfWritten(ess: seq<seq<SsTableEntry>>, taken: seq<nat>, groups: seq<seq<SsTableEntry>>,
                                           key: Key, r: Option<SsTableEntry>)
    requires WithinInputs(ess, taken) && (forall i :: 0 <= i < |ess| ==> taken[i] == |ess[i]|)
    requires Kept(ess, taken, Flatten(groups)) && Newest(groups, key, r)
    ensures Newest(ess, key, r)
  {
    hide Less, StrictlyIncreasing, Flatten;
    forall i: nat, q: nat | i < |ess| && q < |ess[i]| && ess[i][q].key == key
      ensures r.Some? && ess[i][q].lsn <= r.value.lsn
    {
      assert Covered(Flatten(groups), ess[i][q]);
      var k: nat :| k < |Flatten(groups)| && Flatten(groups)[k].key == key && Flatten(groups)[k].lsn >= ess[i][q].lsn;
      var g, p := FlattenFrom(groups, k);
      assert groups[g][p].key == key;
    }
    if r.Some? {
      var g: nat, p: nat :| g < |groups| && p < |groups[g]| && groups[g][p] == r.value;
      FlattenHas(groups, g, p);
      var k: nat :| k < |Flatten(groups)| && Flatten(groups)[k] == r.value;
      assert Taken(ess, taken, Flatten(groups)[k]);
    }
  }

  lemma {:induction false} FlattenFrom(groups: seq<seq<SsTableEntry>>, k: nat) returns (g: nat, p: nat)
    requires k < |Flatten(groups)|
    ensures g < |groups| && p < |groups[g]| && groups[g][p] == Flatten(groups)[k]
    decreases |groups|
  {
    var n := |groups| - 1;
    if k < |Flatten(groups[..n])| {
      g, p := FlattenFrom(groups[..n], k);
    } else {
      g, p := n, k - |Flatten(groups[..n])|;
    }
  }

  /** What is looked up among the segments of a merge that wrote everything in order. */
  lemma {:induction false} InOrderAnswers(segments: seq<Segment>, ess: seq<seq<SsTableEntry>>, maxSize: nat,
                                          res: seq<Segment>,
                                          groups: seq<seq<SsTableEntry>>, firstNumber: nat)
    requires Stored(res, groups, firstNumber) && StrictlyIncreasing(Flatten(groups))
    requires WithinInputs(ess, Reaches(ess, maxSize)) && Kept(ess, Reaches(ess, maxSize), Flatten(groups))
    requires forall i, q :: 0 <= i < |ess| && 0 <= q < |ess[i]| ==> FrameLen(ess[i][q]) <= maxSize
    ensures AllHold(res, groups) && Partitioned(res)
    ensures forall key, r :: Newest(groups, key, r) ==> Newest(ess, key, r)
  {
    hide Less, Holds, StrictlyIncreasing, Kept, Flatten, Newest, Partitioned, Reach, FrameLen, Stored;
    AscendingIsPartitioned(res, groups, firstNumber);
    AllReachedIff(ess, maxSize);
    forall key, r | Newest(groups, key, r) ensures Newest(ess, key, r) {
      NewestOfWritten(ess, Reaches(ess, maxSize), groups, key, r);
    }
  }

  /** Segments are never empty, so if their entries fit the buffer something can be read. */
  lemma {:induction false} FittingIsReadable(segments: seq<Segment>, ess: seq<seq<SsTableEntry>>, maxSize: nat)
    requires segments != [] && AllHold(segments, ess)
    requires forall i, q :: 0 <= i < |ess| && 0 <= q < |ess[i]| ==> FrameLen(ess[i][q]) <= maxSize
    ensures Reaches(ess, maxSize)[0] > 0
  {
    hide Holds, StrictlyIncreasing, FrameLen, Reach;
    AllReachedIff(ess, maxSize);
    HoldsEnds(segments[0], ess[0]);
  }

  /**
   * Merging segments and looking a key up among the new ones. How the merge ends is decided by the inputs. If every
   * framed entry fits the read buffer and no round gets stuck, which two inputs never do, the segments are written; and
   * if every round cuts its queues in order, the lookup gives the newest version over all inputs.
   */
  method MergeThenGet(segments: seq<Segment>, sparsity: nat, firstNumber: nat, key: Key,
                      ghost ess: seq<seq<SsTableEntry>>)
    returns (outcome: MergeOutcome, res: GetResult)
    requires sparsity > 0 && segments != [] && AllHold(segments, ess) && MergeWrite.Sorted(ess)
    ensures
      var maxSize := ReadBufLen(|segments|);
      && (outcome.NeverReturns? <==> GetsStuck(ess, maxSize)) && (outcome.NeverReturns? ==> |segments| > 2)
      && (outcome.Panicked? <==> forall i :: 0 <= i < |ess| ==> Reaches(ess, maxSize)[i] == 0)
      && (FitShares(ess, |segments|) ==>
            && (|segments| <= 2 ==> outcome.Written?)
            && (outcome.Written? <==> !GetsStuck(ess, maxSize))
            && (outcome.Written? && StaysInOrder(ess, maxSize) ==> res.Found? && Newest(ess, key, res.entry)))
  {
    hide Less, Holds, StrictlyIncreasing, Kept, Flatten, Outputs, Chain, Newest, Partitioned, Reach, FrameLen, Stored,
         GetsStuck, StaysInOrder, RoundsAre, RoundQueues;
    ghost var groups, calls;
    ghost var maxSize := ReadBufLen(|segments|);
    ghost var fits := FitShares(ess, |segments|);
    outcome, groups, calls := MergeAndWrite(segments, sparsity, firstNumber, ess);
    res := Found(None);
    if fits {
      FittingIsReadable(segments, ess, maxSize);
    }
    if outcome.Written? {
      if fits && StaysInOrder(ess, maxSize) {
        InOrderAnswers(segments, ess, maxSize, outcome.segments, groups, firstNumber);
      }
      res := PartitionedGet(outcome.segments, key, groups);
    }
  }

  /** A level into which one segment is merged in order is partitioned again. */
  lemma {:induction false} MergedLevelIsPartitioned(level: seq<Segment>, t: Segment, ess: seq<seq<SsTableEntry>>,
                                                    taken: seq<nat>, res: seq<Segment>,
                                                    groups: seq<seq<SsTableEntry>>, firstNumber: nat)
    requires Partitioned(level) && AllHold(Select(level, [t], true) + [t], ess)
    requires WithinInputs(ess, taken) && Kept(ess, taken, Flatten(groups)) && Stored(res, groups, firstNumber)
    requires StrictlyIncreasing(Flatten(groups))
    ensures Partitioned(res + Select(level, [t], false))
  {
    hide Less, AtMost, Overlaps, Kept, Holds, Flatten, Stored, AllHold, OutsideHull, InsideHull, Partitioned,
         StrictlyIncreasing;
    var merging, untouched := Select(level, [t], true) + [t], Select(level, [t], false);
    WrittenInsideHull(merging, ess, taken, res, groups, firstNumber);
    AscendingIsPartitioned(res, groups, firstNumber);
    SelectPartitioned(level, [t]);
    forall s | s in untouched ensures OutsideHull(merging, s) {
      SingleIncomingClearsHull(level, t, s);
    }
    KeepsPartitionIff(merging, untouched);
  }

  /** The untouched segments are still disjoint. */
  lemma {:induction false} SelectPartitioned(level: seq<Segment>, incoming: seq<Segment>)
    requires Partitioned(level)
    ensures Partitioned(Select(level, incoming, false))
    decreases |level|
  {
    hide AtMost, Overlaps, Touched;
    if level != [] {
      var n := |level| - 1;
      var front := Select(level[..n], incoming, false);
      SelectPartitioned(level[..n], incoming);
      forall i | 0 <= i < |front| ensures !Overlaps(front[i], level[n]) {
        SelectMembers(level[..n], incoming, false, front[i]);
        var j: nat :| j < n && level[..n][j] == front[i];
        assert level[j] == front[i];
      }
    }
  }
}
