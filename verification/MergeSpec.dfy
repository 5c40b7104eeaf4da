/**
 * What one call of the k-way merge does to a set of queues: how far it pops each of them, what it puts out, when it
 * never returns, and what a further call on the leftovers can add.
 */
module MergeSpec {
  import opened Bytes
  import Options
  import opened SsTableEntries
  import opened SsTableSegment

  type Queue = seq<SsTableEntry>

  function Front(q: Queue): Key {
    if q == [] then [] else q[0].key
  }

  function Back(q: Queue): Key {
    if q == [] then [] else q[|q| - 1].key
  }

  /** The merge takes no smallest last key yet to be an empty key, so no queue may end in one. */
  ghost predicate Ready(bufs: seq<Queue>) {
    forall i :: 0 <= i < |bufs| ==> bufs[i] != [] && StrictlyIncreasing(bufs[i]) && Back(bufs[i]) != []
  }

  /** `h` is the smallest last key, the horizon of the call. */
  ghost predicate IsHorizon(bufs: seq<Queue>, h: Key) {
    && (exists m :: 0 <= m < |bufs| && Back(bufs[m]) == h)
    && (forall l :: 0 <= l < |bufs| ==> AtMost(h, Back(bufs[l])))
  }

  ghost predicate InHorizon(bufs: seq<Queue>, k: Key) {
    forall l :: 0 <= l < |bufs| ==> AtMost(k, Back(bufs[l]))
  }

  /** `k` lies below every first key that is larger than that of queue `i`. */
  ghost predicate BelowNext(bufs: seq<Queue>, i: nat, k: Key)
    requires i < |bufs|
  {
    forall l :: 0 <= l < |bufs| && Less(Front(bufs[i]), Front(bufs[l])) ==> Less(k, Front(bufs[l]))
  }

  ghost predicate Within(bufs: seq<Queue>, i: nat, k: Key)
    requires i < |bufs|
  {
    InHorizon(bufs, k) && BelowNext(bufs, i, k)
  }

  /** A call pops the first `c` entries of queue `i`: those within, up to the first that is not. */
  ghost predicate IsCut(bufs: seq<Queue>, i: nat, c: nat)
    requires i < |bufs|
  {
    && c <= |bufs[i]|
    && (forall q :: 0 <= q < c ==> Within(bufs, i, bufs[i][q].key))
    && (c < |bufs[i]| ==> !Within(bufs, i, bufs[i][c].key))
  }

  /** That `c`, counted from `c` entries known to be within. */
  ghost function CutFrom(bufs: seq<Queue>, i: nat, c: nat): (d: nat)
    requires i < |bufs| && c <= |bufs[i]|
    ensures c <= d <= |bufs[i]|
    decreases |bufs[i]| - c
  {
    if c < |bufs[i]| && Within(bufs, i, bufs[i][c].key) then CutFrom(bufs, i, c + 1) else c
  }

  /** How many entries a call pops from queue `i`. */
  ghost function CutLen(bufs: seq<Queue>, i: nat): (c: nat)
    requires i < |bufs|
    ensures c <= |bufs[i]|
  {
    CutFrom(bufs, i, 0)
  }

  lemma {:induction false} CutFromIs(bufs: seq<Queue>, i: nat, c: nat, d: nat)
    requires i < |bufs| && c <= d && IsCut(bufs, i, d)
    ensures CutFrom(bufs, i, c) == d
    decreases d - c
  {
    hide Within;
    if c < d {
      CutFromIs(bufs, i, c + 1, d);
    }
  }

  /** The cut is determined by the queues. */
  lemma {:induction false} CutIsCutLen(bufs: seq<Queue>, i: nat, c: nat)
    requires i < |bufs|
    ensures IsCut(bufs, i, c) ==> c == CutLen(bufs, i)
  {
    hide IsCut, CutFrom;
    if IsCut(bufs, i, c) {
      CutFromIs(bufs, i, 0, c);
    }
  }

  ghost predicate Suffixes(bufs: seq<Queue>, rest: seq<Queue>) {
    && |rest| == |bufs|
    && forall i :: 0 <= i < |bufs| ==> |rest[i]| <= |bufs[i]| && rest[i] == bufs[i][|bufs[i]| - |rest[i]|..]
  }

  /** `e` was popped from one of the queues. */
  ghost predicate Popped(bufs: seq<Queue>, rest: seq<Queue>, e: SsTableEntry)
    requires |rest| == |bufs|
  {
    exists i, q :: 0 <= i < |bufs| && 0 <= q < |bufs[i]| - |rest[i]| && bufs[i][q] == e
  }

  /** `e` is in the output or superseded there by a version at least as new. */
  ghost predicate Covered(out: seq<SsTableEntry>, e: SsTableEntry) {
    exists k :: 0 <= k < |out| && out[k].key == e.key && out[k].lsn >= e.lsn
  }

  /** The output: ascending, only popped entries, and none of them lost. */
  ghost predicate Collected(bufs: seq<Queue>, rest: seq<Queue>, out: seq<SsTableEntry>)
    requires |rest| == |bufs|
  {
    && StrictlyIncreasing(out)
    && (forall k :: 0 <= k < |out| ==> Popped(bufs, rest, out[k]))
    && (forall i, q :: 0 <= i < |bufs| && 0 <= q < |bufs[i]| - |rest[i]| ==> Covered(out, bufs[i][q]))
  }

  /** The outcome of a call that returns. */
  ghost predicate Merged(bufs: seq<Queue>, rest: seq<Queue>, out: seq<SsTableEntry>) {
    && Suffixes(bufs, rest)
    && (forall i :: 0 <= i < |bufs| ==> IsCut(bufs, i, |bufs[i]| - |rest[i]|))
    && Collected(bufs, rest, out)
  }

  /**
   * Queues `i` and `j` begin with the same key, a third begins with a larger one, and `i` holds an entry at or above
   * that and still within the horizon. The call then looks at this entry forever.
   */
  ghost predicate StuckAt(bufs: seq<Queue>, i: nat, j: nat, l: nat, q: nat) {
    && i < |bufs| && j < |bufs| && l < |bufs| && i != j && q < |bufs[i]|
    && Front(bufs[i]) == Front(bufs[j]) && Less(Front(bufs[i]), Front(bufs[l]))
    && AtMost(Front(bufs[l]), bufs[i][q].key) && InHorizon(bufs, bufs[i][q].key)
  }

  ghost predicate Stuck(bufs: seq<Queue>) {
    exists i, j, l, q :: StuckAt(bufs, i, j, l, q)
  }

  /** With at most two queues every call returns. */
  lemma {:induction false} TwoQueuesReturn(bufs: seq<Queue>)
    requires |bufs| <= 2
    ensures !Stuck(bufs)
  {
    hide Less, AtMost, InHorizon, Front;
    if Stuck(bufs) {
      var i: nat, j: nat, l: nat, q: nat :| StuckAt(bufs, i, j, l, q);
      LessIrreflexive(Front(bufs[i]));
    }
  }

  lemma {:induction false} HorizonIs(bufs: seq<Queue>, h: Key, k: Key)
    requires IsHorizon(bufs, h)
    ensures InHorizon(bufs, k) <==> AtMost(k, h)
  {
    hide Less;
    LessIsStrictTotalOrder();
  }

  lemma {:induction false} HorizonExists(bufs: seq<Queue>) returns (h: Key)
    requires bufs != []
    ensures IsHorizon(bufs, h)
  {
    hide Less;
    LessIsStrictTotalOrder();
    var m := 0;
    for i := 1 to |bufs|
      invariant 0 <= m < |bufs|
      invariant forall l :: 0 <= l < i ==> AtMost(Back(bufs[m]), Back(bufs[l]))
    {
      if Less(Back(bufs[i]), Back(bufs[m])) {
        m := i;
      }
    }
    h := Back(bufs[m]);
  }

  lemma {:induction false} FrontBelowBack(q: Queue)
    requires q != [] && StrictlyIncreasing(q)
    ensures AtMost(Front(q), Back(q))
  {
  }

  /** Nothing put out lies beyond the horizon, that is, above the last key of any queue. */
  lemma {:induction false} OutputWithinHorizon(bufs: seq<Queue>, rest: seq<Queue>, out: seq<SsTableEntry>)
    requires Merged(bufs, rest, out)
    ensures forall k :: 0 <= k < |out| ==> InHorizon(bufs, out[k].key)
  {
    forall k | 0 <= k < |out| ensures InHorizon(bufs, out[k].key) {
      var i, q :| 0 <= i < |bufs| && 0 <= q < |bufs[i]| - |rest[i]| && bufs[i][q] == out[k];
      assert Within(bufs, i, bufs[i][q].key);
    }
  }

  /** Of each popped key, the newest popped version is put out. */
  lemma {:induction false} OutputIsNewest(bufs: seq<Queue>, rest: seq<Queue>, out: seq<SsTableEntry>, k: nat, i: nat,
                                          q: nat)
    requires Merged(bufs, rest, out) && k < |out| && i < |bufs| && q < |bufs[i]| - |rest[i]|
    requires bufs[i][q].key == out[k].key
    ensures out[k].lsn >= bufs[i][q].lsn
  {
    hide Less;
    assert Covered(out, bufs[i][q]);
    var m: nat :| m < |out| && out[m].key == bufs[i][q].key && out[m].lsn >= bufs[i][q].lsn;
    SameKeySameEntry(out, k, m);
  }

  lemma {:induction false} SameKeySameEntry(es: seq<SsTableEntry>, k: nat, m: nat)
    requires StrictlyIncreasing(es) && k < |es| && m < |es| && es[k].key == es[m].key
    ensures k == m
  {
    hide Less;
    LessIrreflexive(es[k].key);
  }

  /** A queue whose first key is within the horizon loses at least that entry. */
  lemma {:induction false} FrontIsPopped(bufs: seq<Queue>, rest: seq<Queue>, out: seq<SsTableEntry>, i: nat)
    requires Ready(bufs) && Merged(bufs, rest, out) && i < |bufs| && InHorizon(bufs, Front(bufs[i]))
    ensures |rest[i]| < |bufs[i]|
  {
    hide Less;
    assert Within(bufs, i, Front(bufs[i]));
    assert IsCut(bufs, i, |bufs[i]| - |rest[i]|);
  }

  lemma {:induction false} LowestFront(bufs: seq<Queue>) returns (i: nat)
    requires bufs != []
    ensures i < |bufs|
    ensures forall l :: 0 <= l < |bufs| ==> AtMost(Front(bufs[i]), Front(bufs[l]))
  {
    hide Less, Front;
    i := 0;
    for m := 1 to |bufs|
      invariant i < |bufs|
      invariant forall l :: 0 <= l < m ==> AtMost(Front(bufs[i]), Front(bufs[l]))
    {
      AtMostIsNotAbove(Front(bufs[i]), Front(bufs[m]));
      if Less(Front(bufs[m]), Front(bufs[i])) {
        forall l | 0 <= l < m ensures AtMost(Front(bufs[m]), Front(bufs[l])) {
          AtMostTransitive(Front(bufs[m]), Front(bufs[i]), Front(bufs[l]));
        }
        i := m;
      }
    }
  }

  /** Every call makes progress: some queue gets shorter, and the lowest first key is put out first. */
  lemma {:induction false} CallProgresses(bufs: seq<Queue>, rest: seq<Queue>, out: seq<SsTableEntry>) returns (i: nat)
    requires bufs != [] && Ready(bufs) && Merged(bufs, rest, out)
    ensures i < |bufs| && |rest[i]| < |bufs[i]| && out != []
    ensures out[0].key == Front(bufs[i])
    ensures forall l :: 0 <= l < |bufs| ==> AtMost(Front(bufs[i]), Front(bufs[l]))
  {
    hide Less, AtMost, Front, Back, IsCut;
    i := LowestFront(bufs);
    forall l | 0 <= l < |bufs| ensures AtMost(Front(bufs[i]), Back(bufs[l])) {
      FrontBelowBack(bufs[l]);
      AtMostTransitive(Front(bufs[i]), Front(bufs[l]), Back(bufs[l]));
    }
    FrontIsPopped(bufs, rest, out, i);
    LowestComesFirst(bufs, rest, out, i);
  }

  lemma {:induction false} LowestComesFirst(bufs: seq<Queue>, rest: seq<Queue>, out: seq<SsTableEntry>, i: nat)
    requires Ready(bufs) && |rest| == |bufs| && Collected(bufs, rest, out) && i < |bufs| && |rest[i]| < |bufs[i]|
    requires forall l :: 0 <= l < |bufs| ==> AtMost(Front(bufs[i]), Front(bufs[l]))
    ensures out != [] && out[0].key == Front(bufs[i])
  {
    hide Less, AtMost, Back;
    assert Covered(out, bufs[i][0]);
    var k: nat :| k < |out| && out[k].key == bufs[i][0].key;
    assert Popped(bufs, rest, out[0]);
    var l: nat, q: nat :| l < |bufs| && q < |bufs[l]| - |rest[l]| && bufs[l][q] == out[0];
    FirstIsLowest(bufs[l], q);
    AtMostTransitive(Front(bufs[i]), Front(bufs[l]), out[0].key);
    FirstIsLowest(out, k);
    AtMostIsNotAbove(out[0].key, out[k].key);
    AtMostIsNotAbove(out[k].key, out[0].key);
    LessConnected(out[0].key, out[k].key);
  }

  lemma {:induction false} FirstIsLowest(q: Queue, k: nat)
    requires StrictlyIncreasing(q) && k < |q|
    ensures AtMost(Front(q), q[k].key)
  {
    hide Less;
  }

  // ---------- several calls ----------

  /**
   * The queues of the next call: every non-empty leftover is there, and any other queue continues a drained one, so it
   * starts above that one's last key and with it above the horizon.
   */
  ghost predicate Refilled(bufs: seq<Queue>, rest: seq<Queue>, bufs': seq<Queue>) {
    && |rest| == |bufs|
    && (forall i :: 0 <= i < |bufs| && rest[i] != [] ==> exists j :: 0 <= j < |bufs'| && Front(bufs'[j]) == Front(rest[i]))
    && (forall j :: 0 <= j < |bufs'| ==> Continues(bufs, rest, bufs'[j]))
  }

  /** The queue begins as a leftover does, or lies behind a queue that was merged. */
  ghost predicate Continues(bufs: seq<Queue>, rest: seq<Queue>, q: Queue)
    requires |rest| == |bufs|
  {
    || (exists i :: 0 <= i < |bufs| && rest[i] != [] && Front(q) == Front(rest[i]))
    || (exists l :: 0 <= l < |bufs| && Less(Back(bufs[l]), Front(q)))
  }

  /** Every leftover lies above everything put out. */
  ghost predicate LeftoversAbove(rest: seq<Queue>, out: seq<SsTableEntry>) {
    forall i :: 0 <= i < |rest| && rest[i] != [] ==> out == [] || Less(out[|out| - 1].key, Front(rest[i]))
  }

  /** What is left in a queue lies above what is popped from any queue: a condition on the queues alone. */
  ghost predicate CutsInOrder(bufs: seq<Queue>) {
    forall i, j, p :: 0 <= i < |bufs| && CutLen(bufs, i) < |bufs[i]| && 0 <= j < |bufs| && 0 <= p < CutLen(bufs, j) ==>
                        Less(bufs[j][p].key, bufs[i][CutLen(bufs, i)].key)
  }

  lemma {:induction false} CutOfRest(bufs: seq<Queue>, rest: seq<Queue>, out: seq<SsTableEntry>, i: nat)
    requires Merged(bufs, rest, out) && i < |bufs|
    ensures |rest| == |bufs| && CutLen(bufs, i) == |bufs[i]| - |rest[i]|
    ensures rest[i] != [] ==> Front(rest[i]) == bufs[i][CutLen(bufs, i)].key
  {
    hide IsCut, CutLen, Collected;
    CutIsCutLen(bufs, i, |bufs[i]| - |rest[i]|);
  }

  /** Which calls leave nothing at or below their output can be told from their queues. */
  lemma {:induction false} LeftoversAboveIff(bufs: seq<Queue>, rest: seq<Queue>, out: seq<SsTableEntry>)
    requires Merged(bufs, rest, out)
    ensures LeftoversAbove(rest, out) <==> CutsInOrder(bufs)
  {
    hide Less, CutLen, IsCut, Merged, Front;
    MergedParts(bufs, rest, out);
    forall i: nat | i < |bufs|
      ensures CutLen(bufs, i) == |bufs[i]| - |rest[i]| && (rest[i] != [] ==> Front(rest[i]) == bufs[i][CutLen(bufs, i)].key)
    {
      CutOfRest(bufs, rest, out, i);
    }
    if LeftoversAbove(rest, out) {
      forall i, j, p | 0 <= i < |bufs| && CutLen(bufs, i) < |bufs[i]| && 0 <= j < |bufs| && 0 <= p < CutLen(bufs, j)
        ensures Less(bufs[j][p].key, bufs[i][CutLen(bufs, i)].key)
      {
        PoppedBelowEnd(bufs, rest, out, j, p);
        AtMostThenLess(bufs[j][p].key, out[|out| - 1].key, bufs[i][CutLen(bufs, i)].key);
      }
    }
    if CutsInOrder(bufs) && out != [] {
      assert Popped(bufs, rest, out[|out| - 1]);
      var j: nat, p: nat :| j < |bufs| && p < |bufs[j]| - |rest[j]| && bufs[j][p] == out[|out| - 1];
      assert p < CutLen(bufs, j);
    }
  }

  /** Whatever is popped lies at or below the end of the output. */
  lemma {:induction false} PoppedBelowEnd(bufs: seq<Queue>, rest: seq<Queue>, out: seq<SsTableEntry>, j: nat, p: nat)
    requires |rest| == |bufs| && Collected(bufs, rest, out) && j < |bufs| && p < |bufs[j]| - |rest[j]|
    ensures out != [] && AtMost(bufs[j][p].key, out[|out| - 1].key)
  {
    hide Less;
    assert Covered(out, bufs[j][p]);
    var k: nat :| k < |out| && out[k].key == bufs[j][p].key;
    LessIsStrictTotalOrder();
  }

  /** The next call continues in order exactly when no leftover lies at or below the end of this one's output. */
  lemma {:induction false} NextCallContinuesIff(bufs: seq<Queue>, rest: seq<Queue>, out: seq<SsTableEntry>,
                                                bufs': seq<Queue>, rest': seq<Queue>, out': seq<SsTableEntry>)
    requires bufs != [] && Ready(bufs) && Merged(bufs, rest, out)
    requires bufs' != [] && Ready(bufs') && Merged(bufs', rest', out') && Refilled(bufs, rest, bufs')
    ensures StrictlyIncreasing(out + out') <==> LeftoversAbove(rest, out)
    ensures StrictlyIncreasing(out + out') <==> CutsInOrder(bufs)
  {
    hide Less, AtMost, Front, Back, Merged, LeftoversAbove, StrictlyIncreasing, InHorizon, CutsInOrder;
    LeftoversAboveIff(bufs, rest, out);
    var i := CallProgresses(bufs, rest, out);
    var j := CallProgresses(bufs', rest', out');
    OutputWithinHorizon(bufs, rest, out);
    MergedIncreasing(bufs, rest, out);
    MergedIncreasing(bufs', rest', out');
    JoinIncreasing(out, out');
    if LeftoversAbove(rest, out) {
      NextAbove(bufs, rest, out, bufs', j);
    } else {
      NextBelow(bufs, rest, out, bufs', j);
    }
  }

  lemma {:induction false} NextAbove(bufs: seq<Queue>, rest: seq<Queue>, out: seq<SsTableEntry>, bufs': seq<Queue>,
                                     j: nat)
    requires bufs != [] && |rest| == |bufs| && out != [] && InHorizon(bufs, out[|out| - 1].key)
    requires Refilled(bufs, rest, bufs') && j < |bufs'| && LeftoversAbove(rest, out)
    ensures Less(out[|out| - 1].key, Front(bufs'[j]))
  {
    hide Less, AtMost, Front, Back;
    var last := out[|out| - 1].key;
    assert Continues(bufs, rest, bufs'[j]);
    if l :| 0 <= l < |bufs| && Less(Back(bufs[l]), Front(bufs'[j])) {
      LessIsAtMost(Back(bufs[l]), Front(bufs'[j]));
      AtMostTransitive(last, Back(bufs[l]), Front(bufs'[j]));
    }
  }

  lemma {:induction false} NextBelow(bufs: seq<Queue>, rest: seq<Queue>, out: seq<SsTableEntry>, bufs': seq<Queue>,
                                     j: nat)
    requires |rest| == |bufs| && out != [] && Refilled(bufs, rest, bufs') && j < |bufs'| && !LeftoversAbove(rest, out)
    requires forall l :: 0 <= l < |bufs'| ==> AtMost(Front(bufs'[j]), Front(bufs'[l]))
    ensures !Less(out[|out| - 1].key, Front(bufs'[j]))
  {
    hide Less, AtMost, Front, Back;
    var last := out[|out| - 1].key;
    var m :| 0 <= m < |rest| && rest[m] != [] && !Less(last, Front(rest[m]));
    var n :| 0 <= n < |bufs'| && Front(bufs'[n]) == Front(rest[m]);
    AtMostIsNotAbove(Front(rest[m]), last);
    AtMostTransitive(Front(bufs'[j]), Front(rest[m]), last);
    AtMostIsNotAbove(Front(bufs'[j]), last);
  }

  lemma {:induction false} MergedIncreasing(bufs: seq<Queue>, rest: seq<Queue>, out: seq<SsTableEntry>)
    requires Merged(bufs, rest, out)
    ensures |rest| == |bufs| && StrictlyIncreasing(out)
  {
  }

  lemma {:induction false} JoinIncreasing(a: seq<SsTableEntry>, b: seq<SsTableEntry>)
    requires a != [] && b != [] && StrictlyIncreasing(a) && StrictlyIncreasing(b)
    ensures StrictlyIncreasing(a + b) <==> Less(a[|a| - 1].key, b[0].key)
  {
    hide Less;
    LessIsStrictTotalOrder();
    var c := a + b;
    if StrictlyIncreasing(c) {
      assert Less(c[|a| - 1].key, c[|a|].key);
    }
    if Less(a[|a| - 1].key, b[0].key) {
      forall i, j | 0 <= i < j < |c| ensures Less(c[i].key, c[j].key) {
        if i < |a| <= j {
          assert i < |a| - 1 ==> Less(a[i].key, a[|a| - 1].key);
          assert j > |a| ==> Less(b[0].key, b[j - |a|].key);
        }
      }
    }
  }

  /** One call that returned. */
  datatype Call = Call(bufs: seq<Queue>, rest: seq<Queue>, out: seq<SsTableEntry>)

  ghost predicate Returned(c: Call) {
    c.bufs != [] && Ready(c.bufs) && Merged(c.bufs, c.rest, c.out)
  }

  /** The queues of call `r`, or those after the last call. */
  function QueuesAt(calls: seq<Call>, last: seq<Queue>, r: nat): seq<Queue> {
    if r < |calls| then calls[r].bufs else last
  }

  /** Successive calls, each on what the previous one left, refilled; `last` is what the last one leaves to do. */
  ghost predicate Chain(calls: seq<Call>, last: seq<Queue>) {
    forall r :: 0 <= r < |calls| ==>
      Returned(calls[r]) && Refilled(calls[r].bufs, calls[r].rest, QueuesAt(calls, last, r + 1))
  }

  function Outputs(calls: seq<Call>): seq<SsTableEntry> {
    if calls == [] then [] else Outputs(calls[..|calls| - 1]) + calls[|calls| - 1].out
  }

  /** One call more. */
  lemma {:induction false} ChainSnoc(calls: seq<Call>, c: Call, next: seq<Queue>)
    requires Chain(calls, c.bufs) && Returned(c) && Refilled(c.bufs, c.rest, next)
    ensures Chain(calls + [c], next) && Outputs(calls + [c]) == Outputs(calls) + c.out
  {
    hide Returned, Refilled;
    var all := calls + [c];
    assert all[..|calls|] == calls;
    forall r | 0 <= r < |all|
      ensures Returned(all[r]) && Refilled(all[r].bufs, all[r].rest, QueuesAt(all, next, r + 1))
    {
      if r < |calls| {
        assert all[r] == calls[r] && QueuesAt(all, next, r + 1) == QueuesAt(calls, c.bufs, r + 1);
      }
    }
  }

  lemma {:induction false} ChainPrefix(calls: seq<Call>, last: seq<Queue>)
    requires Chain(calls, last) && calls != []
    ensures Chain(calls[..|calls| - 1], calls[|calls| - 1].bufs)
  {
    hide Returned, Refilled;
    var front := calls[..|calls| - 1];
    forall r | 0 <= r < |front|
      ensures Returned(front[r]) && Refilled(front[r].bufs, front[r].rest, QueuesAt(front, calls[|calls| - 1].bufs, r + 1))
    {
      assert front[r] == calls[r];
    }
  }

  /** The output of successive calls ends with the last one's output, and that is never empty. */
  lemma {:induction false} OutputsEnd(calls: seq<Call>, last: seq<Queue>)
    requires Chain(calls, last) && calls != []
    ensures
      var out := calls[|calls| - 1].out;
      && out != [] && Outputs(calls) != [] && StrictlyIncreasing(out)
      && Outputs(calls)[|Outputs(calls)| - 1] == out[|out| - 1]
  {
    hide Less, Merged, Refilled, StrictlyIncreasing;
    var c := calls[|calls| - 1];
    assert Returned(c);
    var i := CallProgresses(c.bufs, c.rest, c.out);
    MergedIncreasing(c.bufs, c.rest, c.out);
  }

  /**
   * The whole output of any number of calls is ascending if and only if no call but the last leaves an entry at or
   * below the end of its own output, which can be told from the queues it is given.
   */
  lemma {:induction false} OutputsAscendIff(calls: seq<Call>, last: seq<Queue>)
    requires Chain(calls, last)
    ensures StrictlyIncreasing(Outputs(calls)) <==>
            forall r :: 0 <= r < |calls| - 1 ==> CutsInOrder(calls[r].bufs)
    decreases |calls|
  {
    hide Less, CutsInOrder, StrictlyIncreasing, Outputs, Refilled, Merged;
    if |calls| <= 1 {
      FewOutputs(calls);
      if calls != [] {
        OutputsEnd(calls, last);
      }
    } else {
      var n := |calls| - 1;
      var front := calls[..n];
      ChainPrefix(calls, last);
      OutputsAscendIff(front, calls[n].bufs);
      OutputsEnd(calls, last);
      OutputsSplit(calls);
      LastStepIff(calls, last);
      assert forall r :: 0 <= r < n ==> front[r] == calls[r];
    }
  }

  /** The last output continues all outputs before it exactly when it continues the one before it. */
  lemma {:induction false} LastStepIff(calls: seq<Call>, last: seq<Queue>)
    requires Chain(calls, last) && |calls| > 1
    ensures
      var n := |calls| - 1;
      StrictlyIncreasing(Outputs(calls[..n]) + calls[n].out) <==>
      StrictlyIncreasing(Outputs(calls[..n])) && CutsInOrder(calls[n - 1].bufs)
  {
    hide Less, CutsInOrder, StrictlyIncreasing, Outputs, Refilled, Merged;
    var n := |calls| - 1;
    var front := calls[..n];
    ChainPrefix(calls, last);
    OutputsEnd(front, calls[n].bufs);
    OutputsEnd(calls, last);
    assert front[n - 1] == calls[n - 1];
    NextIsFollowing(calls, last, n - 1);
    AppendIncreasingIff(Outputs(front), calls[n].out);
    AppendIncreasingIff(calls[n - 1].out, calls[n].out);
  }

  lemma {:induction false} AppendIncreasingIff(a: seq<SsTableEntry>, b: seq<SsTableEntry>)
    requires a != [] && b != [] && StrictlyIncreasing(b)
    ensures StrictlyIncreasing(a + b) <==> StrictlyIncreasing(a) && Less(a[|a| - 1].key, b[0].key)
  {
    hide Less;
    if StrictlyIncreasing(a + b) {
      assert forall i :: 0 <= i < |a| ==> (a + b)[i] == a[i];
    }
    if StrictlyIncreasing(a) {
      JoinIncreasing(a, b);
    }
  }

  lemma {:induction false} FewOutputs(calls: seq<Call>)
    ensures calls == [] ==> Outputs(calls) == [] && StrictlyIncreasing(Outputs(calls))
    ensures |calls| == 1 ==> Outputs(calls) == calls[0].out
  {
    if |calls| == 1 {
      assert Outputs(calls[..0]) == [];
    }
  }

  lemma {:induction false} OutputsSplit(calls: seq<Call>)
    requires calls != []
    ensures Outputs(calls) == Outputs(calls[..|calls| - 1]) + calls[|calls| - 1].out
  {
  }

  /** Two successive calls of a chain. */
  lemma {:induction false} NextIsFollowing(calls: seq<Call>, last: seq<Queue>, r: nat)
    requires Chain(calls, last) && r + 1 < |calls|
    ensures StrictlyIncreasing(calls[r].out + calls[r + 1].out) <==> CutsInOrder(calls[r].bufs)
  {
    hide Less, CutsInOrder, StrictlyIncreasing, Refilled, Merged, Ready;
    assert Returned(calls[r]) && Returned(calls[r + 1]);
    assert QueuesAt(calls, last, r + 1) == calls[r + 1].bufs;
    NextCallContinuesIff(calls[r].bufs, calls[r].rest, calls[r].out,
                         calls[r + 1].bufs, calls[r + 1].rest, calls[r + 1].out);
  }

  /** A call after which nothing is left to do leaves nothing in its queues. */
  lemma {:induction false} LastIsInOrder(calls: seq<Call>)
    requires Chain(calls, []) && calls != []
    ensures CutsInOrder(calls[|calls| - 1].bufs)
  {
    hide Less, CutLen, Collected, IsCut, LeftoversAbove;
    var n := |calls| - 1;
    var c := calls[n];
    assert Returned(c) && Refilled(c.bufs, c.rest, QueuesAt(calls, [], n + 1));
    LeftoversAboveIff(c.bufs, c.rest, c.out);
    NothingLeft(c.bufs, c.rest, c.out);
  }

  lemma {:induction false} NothingLeft(bufs: seq<Queue>, rest: seq<Queue>, out: seq<SsTableEntry>)
    requires Refilled(bufs, rest, [])
    ensures LeftoversAbove(rest, out)
  {
    hide Less, Front;
  }

  /**
   * A whole merge puts out an ascending sequence if and only if none of its calls pops an entry at or above one that it
   * leaves in some queue.
   */
  lemma {:induction false} MergeAscendsIff(calls: seq<Call>)
    requires Chain(calls, [])
    ensures StrictlyIncreasing(Outputs(calls)) <==> forall r :: 0 <= r < |calls| ==> CutsInOrder(calls[r].bufs)
  {
    hide Less, CutsInOrder, StrictlyIncreasing, Outputs, Chain;
    OutputsAscendIff(calls, []);
    if calls != [] {
      LastIsInOrder(calls);
    }
  }

  /** No queue reaches, within the horizon, the larger first key of another. */
  ghost predicate Layered(bufs: seq<Queue>) {
    forall i, q :: 0 <= i < |bufs| && 0 <= q < |bufs[i]| && InHorizon(bufs, bufs[i][q].key) ==>
                     BelowNext(bufs, i, bufs[i][q].key)
  }

  /** The call empties the horizon exactly when the queues are layered so. */
  lemma {:induction false} HorizonEmptiedIff(bufs: seq<Queue>, rest: seq<Queue>, out: seq<SsTableEntry>)
    requires Ready(bufs) && Merged(bufs, rest, out)
    ensures Layered(bufs) <==>
            forall i, q :: 0 <= i < |rest| && 0 <= q < |rest[i]| ==> !InHorizon(bufs, rest[i][q].key)
  {
    hide Less, AtMost, Back, Collected, IsCut, InHorizon, BelowNext, StrictlyIncreasing;
    if Layered(bufs) {
      forall i, q | 0 <= i < |rest| && 0 <= q < |rest[i]| ensures !InHorizon(bufs, rest[i][q].key) {
        var c := |bufs[i]| - |rest[i]|;
        assert IsCut(bufs, i, c);
        assert rest[i][q] == bufs[i][c + q];
        if InHorizon(bufs, bufs[i][c + q].key) {
          CutIsHorizon(bufs, i, c, c + q);
        }
      }
    } else {
      var i: nat, q: nat :| i < |bufs| && q < |bufs[i]| && InHorizon(bufs, bufs[i][q].key)
                            && !BelowNext(bufs, i, bufs[i][q].key);
      var c := |bufs[i]| - |rest[i]|;
      assert IsCut(bufs, i, c);
      CutCovers(bufs, i, c, q);
      assert rest[i][q - c] == bufs[i][q];
    }
  }

  lemma {:induction false} CutCovers(bufs: seq<Queue>, i: nat, c: nat, q: nat)
    requires i < |bufs| && IsCut(bufs, i, c) && q < |bufs[i]| && !BelowNext(bufs, i, bufs[i][q].key)
    ensures c <= q
  {
    hide BelowNext, InHorizon;
  }

  lemma {:induction false} CutIsHorizon(bufs: seq<Queue>, i: nat, c: nat, q: nat)
    requires Ready(bufs) && i < |bufs| && IsCut(bufs, i, c) && c <= q < |bufs[i]| && InHorizon(bufs, bufs[i][q].key)
    ensures InHorizon(bufs, bufs[i][c].key) && !BelowNext(bufs, i, bufs[i][c].key)
  {
    hide Less;
    LessIsStrictTotalOrder();
    assert c < q ==> Less(bufs[i][c].key, bufs[i][q].key);
  }

  /** Leftovers beyond the horizon lie above the output, so a layered call can be continued in order. */
  lemma {:induction false} LayeredContinues(bufs: seq<Queue>, rest: seq<Queue>, out: seq<SsTableEntry>)
    requires bufs != [] && Ready(bufs) && Merged(bufs, rest, out) && Layered(bufs)
    ensures LeftoversAbove(rest, out)
  {
    hide Less, Collected, Layered, IsCut;
    LessIsStrictTotalOrder();
    OutputWithinHorizon(bufs, rest, out);
    HorizonEmptiedIff(bufs, rest, out);
    var h := HorizonExists(bufs);
    forall i | 0 <= i < |rest| && rest[i] != [] ensures out == [] || Less(out[|out| - 1].key, Front(rest[i])) {
      HorizonIs(bufs, h, rest[i][0].key);
      if out != [] {
        HorizonIs(bufs, h, out[|out| - 1].key);
      }
    }
  }

  /** If the queues of every call are layered, all calls together put out one ascending sequence. */
  lemma {:induction false} LayeredRunsAscend(calls: seq<Call>, last: seq<Queue>)
    requires Chain(calls, last) && forall r :: 0 <= r < |calls| ==> Layered(calls[r].bufs)
    ensures StrictlyIncreasing(Outputs(calls))
  {
    hide Less, LeftoversAbove, CutsInOrder, StrictlyIncreasing, Outputs, Merged, Refilled, Layered, Ready;
    OutputsAscendIff(calls, last);
    forall r | 0 <= r < |calls| - 1 ensures CutsInOrder(calls[r].bufs) {
      assert Returned(calls[r]);
      LayeredContinues(calls[r].bufs, calls[r].rest, calls[r].out);
      LeftoversAboveIff(calls[r].bufs, calls[r].rest, calls[r].out);
    }
  }

  // ---------- what the original does not keep ----------

  function Entry(k: byte, lsn: nat): SsTableEntry {
    SsTableEntry([k], Options.None, lsn)
  }

  /** Two queues that share their first key, one of which also has the third's. */
  function Colliding(): (bufs: seq<Queue>)
    ensures |bufs| == 3 && forall i :: 0 <= i < 3 ==> |bufs[i]| == 2
    ensures forall i, q :: 0 <= i < 3 && 0 <= q < 2 ==> |bufs[i][q].key| == 1 && bufs[i][q].value.None?
  {
    [[Entry(1, 1), Entry(2, 2)], [Entry(1, 3), Entry(3, 4)], [Entry(2, 5), Entry(3, 6)]]
  }

  /** They are enough for a call that never returns. */
  lemma {:induction false} ThreeQueuesCanSpin()
    ensures Ready(Colliding()) && Stuck(Colliding())
  {
    SingleByteLess(1, 2);
    SingleByteLess(1, 3);
    SingleByteLess(2, 3);
    assert StuckAt(Colliding(), 0, 1, 2, 1);
  }

  lemma {:induction false} SingleByteLess(a: byte, b: byte)
    ensures Less([a], [b]) <==> a < b
  {
    var x: Key, y: Key := [a][1..], [b][1..];
    assert x == [] && y == [];
  }

  /** Two queues that alternate below the horizon. */
  function Alternating(): seq<Queue> {
    [[Entry(1, 1), Entry(3, 2), Entry(9, 3)], [Entry(2, 4), Entry(9, 5)]]
  }

  lemma {:induction false} AlternatingCuts()
    ensures var bufs := Alternating();
            Ready(bufs) && IsCut(bufs, 0, 1) && IsCut(bufs, 1, 2)
  {
    hide Less;
    SingleByteLess(1, 2);
    SingleByteLess(1, 3);
    SingleByteLess(1, 9);
    SingleByteLess(2, 9);
    SingleByteLess(3, 9);
    SingleByteLess(2, 1);
    SingleByteLess(3, 2);
    SingleByteLess(2, 2);
    var bufs := Alternating();
    assert Less(Front(bufs[0]), Front(bufs[1])) && !Less([3], Front(bufs[1]));
  }

  /** Two queues are enough for a call whose leftovers lie below its output, so that the next call steps back. */
  lemma {:induction false} LeftoverBelowOutput(rest: seq<Queue>, out: seq<SsTableEntry>)
    requires Merged(Alternating(), rest, out)
    ensures Ready(Alternating()) && !LeftoversAbove(rest, out)
  {
    hide Less, AtMost, IsCut, Collected, Ready, Alternating, Suffixes;
    AlternatingCuts();
    MergedParts(Alternating(), rest, out);
    AlternatingLeftovers(rest);
    NineIsOut(rest, out);
    SingleByteLess(3, 9);
    LessIsAtMost([3], [9]);
    AtMostTransitive([3], [9], out[|out| - 1].key);
    AtMostIsNotAbove([3], out[|out| - 1].key);
  }

  lemma {:induction false} MergedLengths(bufs: seq<Queue>, rest: seq<Queue>, out: seq<SsTableEntry>)
    requires Merged(bufs, rest, out)
    ensures |rest| == |bufs| && Collected(bufs, rest, out) && forall j :: 0 <= j < |bufs| ==> |rest[j]| <= |bufs[j]|
  {
    hide IsCut, Collected;
  }

  lemma {:induction false} MergedParts(bufs: seq<Queue>, rest: seq<Queue>, out: seq<SsTableEntry>)
    requires Merged(bufs, rest, out)
    ensures |rest| == |bufs| && Suffixes(bufs, rest) && Collected(bufs, rest, out)
    ensures forall j :: 0 <= j < |bufs| ==> |rest[j]| <= |bufs[j]| && IsCut(bufs, j, |bufs[j]| - |rest[j]|)
  {
    hide IsCut, Collected;
  }

  /** What is left of the two alternating queues. */
  lemma {:induction false} AlternatingLeftovers(rest: seq<Queue>)
    requires |rest| == |Alternating()| && Suffixes(Alternating(), rest)
    requires forall j :: 0 <= j < |rest| ==> |rest[j]| <= |Alternating()[j]|
                                             && IsCut(Alternating(), j, |Alternating()[j]| - |rest[j]|)
    ensures |rest| == 2 && rest[0] != [] && Front(rest[0]) == [3] && rest[1] == []
  {
    hide Less, IsCut, Ready, Alternating;
    AlternatingShape();
    AlternatingCuts();
    CutIsUnique(Alternating(), 0, 1, |Alternating()[0]| - |rest[0]|);
    CutIsUnique(Alternating(), 1, 2, |Alternating()[1]| - |rest[1]|);
    assert rest[0][0] == Alternating()[0][1];
  }

  lemma {:induction false} AlternatingShape()
    ensures
      var bufs := Alternating();
      |bufs| == 2 && |bufs[0]| == 3 && |bufs[1]| == 2 && bufs[0][1].key == [3] && bufs[1][1].key == [9]
  {
  }

  lemma {:induction false} NineIsOut(rest: seq<Queue>, out: seq<SsTableEntry>)
    requires |rest| == 2 && rest[1] == [] && Collected(Alternating(), rest, out)
    ensures out != [] && AtMost([9], out[|out| - 1].key)
  {
    hide Less, Popped, StrictlyIncreasing, Alternating;
    AlternatingShape();
    var e := Alternating()[1][1];
    assert Covered(out, e);
    var k: nat :| k < |out| && out[k].key == e.key;
    LastAbove(out, k);
  }

  lemma {:induction false} CutIsUnique(bufs: seq<Queue>, i: nat, c: nat, d: nat)
    requires i < |bufs| && IsCut(bufs, i, c) && IsCut(bufs, i, d)
    ensures c == d
  {
    hide Within;
  }

  lemma {:induction false} LastAbove(out: seq<SsTableEntry>, k: nat)
    requires StrictlyIncreasing(out) && k < |out|
    ensures AtMost(out[k].key, out[|out| - 1].key)
  {
    hide Less;
  }

  /** The smallest last key as the first loop computes it, taking an empty key for not yet set. */
  function SmallestOf(backs: seq<Key>): Key {
    if backs == [] then []
    else
      var h, b := SmallestOf(backs[..|backs| - 1]), backs[|backs| - 1];
      if h == [] || Less(b, h) then b else h
  }

  lemma {:induction false} SmallestIsEmptyIff(backs: seq<Key>)
    ensures SmallestOf(backs) == [] <==> backs == [] || backs[|backs| - 1] == []
  {
  }

  lemma {:induction false} SmallestIsLeast(backs: seq<Key>)
    requires [] !in backs
    ensures forall i :: 0 <= i < |backs| ==> AtMost(SmallestOf(backs), backs[i])
  {
    hide Less;
    if backs != [] {
      var front, b := backs[..|backs| - 1], backs[|backs| - 1];
      SmallestIsLeast(front);
      SmallestIsEmptyIff(front);
      var h := SmallestOf(front);
      AtMostIsNotAbove(h, b);
      forall i | 0 <= i < |backs| ensures AtMost(SmallestOf(backs), backs[i]) {
        if i < |front| && Less(b, h) {
          AtMostTransitive(b, h, front[i]);
        }
      }
      assert front != [] ==> front[|front| - 1] in backs;
    }
  }

  /** The loop finds the least last key exactly when none is empty, or the last one visited is. */
  lemma {:induction false} SentinelIff(backs: seq<Key>)
    requires backs != []
    ensures (forall i :: 0 <= i < |backs| ==> AtMost(SmallestOf(backs), backs[i]))
            <==> [] !in backs || backs[|backs| - 1] == []
  {
    SmallestIsEmptyIff(backs);
    if [] !in backs {
      SmallestIsLeast(backs);
    } else if backs[|backs| - 1] != [] {
      var i :| 0 <= i < |backs| && backs[i] == [];
      assert !AtMost(SmallestOf(backs), backs[i]);
    }
  }
}
