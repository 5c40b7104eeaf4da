/**
 * The rounds of a merge of whole segments, determined by the inputs and the size of the read buffers: how far each input
 * has been popped and decoded after any number of rounds, and with which queues the next round starts.
 */
module MergeRounds {
  import opened SsTableEntries
  import opened SsTableReadBuf
  import opened MergeSpec

  /** How many entries of each input have been popped, and how many have been decoded. */
  datatype Position = Position(taken: seq<nat>, decoded: seq<nat>)

  // ---------- the inputs that are not exhausted ----------

  predicate IsLive(p: Position, i: nat) {
    i < |p.taken| && i < |p.decoded| && p.taken[i] < p.decoded[i]
  }

  /** Those of the given inputs whose buffers are not empty, in order. */
  function LiveAmong(p: Position, ids: seq<nat>): (live: seq<nat>)
    ensures forall j :: 0 <= j < |live| ==> live[j] in ids && IsLive(p, live[j])
    ensures forall i :: i in ids && IsLive(p, i) ==> i in live
  {
    if ids == [] then []
    else
      var i, front := ids[|ids| - 1], LiveAmong(p, ids[..|ids| - 1]);
      if IsLive(p, i) then front + [i] else front
  }

  function FirstNumbers(n: nat): (ids: seq<nat>)
    ensures |ids| == n && forall i :: 0 <= i < n ==> ids[i] == i
  {
    seq(n, i requires 0 <= i < n => i)
  }

  function Live(p: Position): seq<nat> {
    LiveAmong(p, FirstNumbers(|p.taken|))
  }

  ghost predicate Distinct(ids: seq<nat>) {
    forall i, j :: 0 <= i < j < |ids| ==> ids[i] != ids[j]
  }

  lemma {:induction false} LiveDistinct(p: Position, ids: seq<nat>)
    requires Distinct(ids)
    ensures Distinct(LiveAmong(p, ids))
  {
    if ids != [] {
      var n := |ids| - 1;
      LiveDistinct(p, ids[..n]);
      assert ids[n] !in ids[..n];
    }
  }

  /** Dropping in two steps what has become empty. */
  lemma {:induction false} LiveTwice(p: Position, p': Position, ids: seq<nat>)
    requires forall i: nat :: IsLive(p', i) ==> IsLive(p, i)
    ensures LiveAmong(p', LiveAmong(p, ids)) == LiveAmong(p', ids)
  {
    hide IsLive;
    if ids != [] {
      var n := |ids| - 1;
      LiveTwice(p, p', ids[..n]);
      if IsLive(p, ids[n]) {
        var live := LiveAmong(p, ids);
        assert live == LiveAmong(p, ids[..n]) + [ids[n]];
        assert live[..|live| - 1] == LiveAmong(p, ids[..n]) && live[|live| - 1] == ids[n];
      }
    }
  }

  // ---------- the queues ----------

  function QueueOf(ess: seq<Queue>, p: Position, i: nat): Queue {
    if i < |ess| && IsLive(p, i) && p.decoded[i] <= |ess[i]| then ess[i][p.taken[i]..p.decoded[i]] else []
  }

  /** The queues a round starts with, in the order of the inputs. */
  function QueuesOf(ess: seq<Queue>, p: Position): (bufs: seq<Queue>)
    ensures |bufs| == |Live(p)| && forall j :: 0 <= j < |bufs| ==> bufs[j] == QueueOf(ess, p, Live(p)[j])
  {
    seq(|Live(p)|, j requires 0 <= j < |Live(p)| => QueueOf(ess, p, Live(p)[j]))
  }

  // ---------- a round ----------

  function IndexOf(ids: seq<nat>, i: nat): (j: nat)
    ensures j <= |ids| && (j < |ids| ==> ids[j] == i) && (i in ids ==> j < |ids|)
  {
    if ids == [] then 0 else if ids[0] == i then 0 else 1 + IndexOf(ids[1..], i)
  }

  /** How many entries of input `i` the call on the buffered queues pops. */
  ghost function PoppedFrom(ess: seq<Queue>, p: Position, i: nat): nat {
    var j := IndexOf(Live(p), i);
    if j < |Live(p)| then CutLen(QueuesOf(ess, p), j) else 0
  }

  /** How far an input is decoded after a fill: every frame that fits behind what is buffered. */
  function FilledTo(es: Queue, taken: nat, decoded: nat, maxSize: nat): (d: nat) {
    if taken <= decoded <= |es| && |Frames(es[taken..decoded])| <= maxSize
    then decoded + Count(es[decoded..], maxSize - |Frames(es[taken..decoded])|)
    else decoded
  }

  ghost function PoppedAll(ess: seq<Queue>, p: Position): (taken: seq<nat>)
    ensures |taken| == |p.taken| && forall i :: 0 <= i < |taken| ==> taken[i] == p.taken[i] + PoppedFrom(ess, p, i)
  {
    seq(|p.taken|, i requires 0 <= i < |p.taken| => p.taken[i] + PoppedFrom(ess, p, i))
  }

  function FilledAll(ess: seq<Queue>, maxSize: nat, taken: seq<nat>, decoded: seq<nat>): (d: seq<nat>)
    requires |taken| == |decoded| == |ess|
    ensures |d| == |ess| && forall i :: 0 <= i < |d| ==> d[i] == FilledTo(ess[i], taken[i], decoded[i], maxSize)
  {
    seq(|ess|, i requires 0 <= i < |ess| => FilledTo(ess[i], taken[i], decoded[i], maxSize))
  }

  /** One round: what the call pops is popped, then every buffer is filled up. */
  ghost function NextRound(ess: seq<Queue>, maxSize: nat, p: Position): Position {
    if |p.taken| == |p.decoded| == |ess|
    then Position(PoppedAll(ess, p), FilledAll(ess, maxSize, PoppedAll(ess, p), p.decoded))
    else p
  }

  function NoneYet(n: nat): (s: seq<nat>)
    ensures |s| == n && forall i :: 0 <= i < n ==> s[i] == 0
  {
    seq(n, i requires 0 <= i < n => 0)
  }

  /** Where the inputs stand before round `r`. */
  ghost function AtRound(ess: seq<Queue>, maxSize: nat, r: nat): Position {
    if r == 0 then Position(NoneYet(|ess|), FilledAll(ess, maxSize, NoneYet(|ess|), NoneYet(|ess|)))
    else NextRound(ess, maxSize, AtRound(ess, maxSize, r - 1))
  }

  /** The queues round `r` starts with. */
  ghost function RoundQueues(ess: seq<Queue>, maxSize: nat, r: nat): seq<Queue> {
    QueuesOf(ess, AtRound(ess, maxSize, r))
  }

  /** Some round starts with stuck queues. */
  ghost predicate GetsStuck(ess: seq<Queue>, maxSize: nat) {
    exists r: nat :: Stuck(RoundQueues(ess, maxSize, r))
  }

  /** No round leaves an entry at or below one that it pops. */
  ghost predicate StaysInOrder(ess: seq<Queue>, maxSize: nat) {
    forall r: nat :: CutsInOrder(RoundQueues(ess, maxSize, r))
  }

  // ---------- what every round keeps ----------

  /** Buffers within their size, no input read past its reach, and an empty buffer only where the reach ends. */
  ghost predicate Consistent(ess: seq<Queue>, maxSize: nat, p: Position) {
    && |p.taken| == |p.decoded| == |ess|
    && forall i :: 0 <= i < |ess| ==> ConsistentAt(ess[i], maxSize, p.taken[i], p.decoded[i])
  }

  ghost predicate ConsistentAt(es: Queue, maxSize: nat, taken: nat, decoded: nat) {
    && taken <= decoded <= Reach(es, maxSize)
    && |Frames(es[taken..decoded])| <= maxSize
    && (taken == decoded ==> taken == Reach(es, maxSize))
  }

  lemma {:induction false} FillKeeps(es: Queue, maxSize: nat, taken: nat, decoded: nat)
    requires taken <= decoded <= Reach(es, maxSize) && |Frames(es[taken..decoded])| <= maxSize
    ensures decoded <= FilledTo(es, taken, decoded, maxSize)
    ensures ConsistentAt(es, maxSize, taken, FilledTo(es, taken, decoded, maxSize))
  {
    hide Frames, Reach, Count;
    FillProgress(es, taken, decoded, maxSize);
    FilledSize(es, taken, decoded, maxSize - |Frames(es[taken..decoded])|);
  }

  lemma {:induction false} PoppedKeeps(es: Queue, maxSize: nat, taken: nat, taken': nat, decoded: nat)
    requires taken <= taken' <= decoded <= |es| && |Frames(es[taken..decoded])| <= maxSize
    ensures |Frames(es[taken'..decoded])| <= maxSize
  {
    hide Frames;
    var n := taken' - taken;
    assert es[taken..decoded] == es[taken..taken'] + es[taken'..decoded];
    FramesConcat(es[taken..taken'], es[taken'..decoded]);
  }

  lemma {:induction false} PopsBuffered(ess: seq<Queue>, p: Position, i: nat)
    requires |p.taken| == |p.decoded| == |ess| && i < |ess| && p.taken[i] <= p.decoded[i] <= |ess[i]|
    ensures p.taken[i] + PoppedFrom(ess, p, i) <= p.decoded[i]
    ensures !IsLive(p, i) ==> PoppedFrom(ess, p, i) == 0
  {
    hide CutLen;
  }

  lemma {:induction false} StartConsistent(ess: seq<Queue>, maxSize: nat)
    ensures Consistent(ess, maxSize, AtRound(ess, maxSize, 0))
  {
    hide FilledTo, ConsistentAt, Reach;
    forall i | 0 <= i < |ess| ensures ConsistentAt(ess[i], maxSize, 0, FilledTo(ess[i], 0, 0, maxSize)) {
      var none: Queue := ess[i][0..0];
      assert none == [];
      EmptyFrames(none);
      FillKeeps(ess[i], maxSize, 0, 0);
    }
  }

  /** One input through a round. */
  lemma {:induction false} RoundOfInput(ess: seq<Queue>, maxSize: nat, p: Position, i: nat)
    requires Consistent(ess, maxSize, p) && i < |ess|
    ensures
      var q := NextRound(ess, maxSize, p);
      && |q.taken| == |q.decoded| == |ess| && p.taken[i] <= q.taken[i] <= p.decoded[i] <= q.decoded[i]
      && ConsistentAt(ess[i], maxSize, q.taken[i], q.decoded[i])
      && (!IsLive(p, i) ==> q.taken[i] == p.taken[i] && q.decoded[i] == p.decoded[i])
  {
    hide Frames, Reach, Count, PoppedFrom, FilledTo;
    var q := NextRound(ess, maxSize, p);
    assert ConsistentAt(ess[i], maxSize, p.taken[i], p.decoded[i]);
    PopsBuffered(ess, p, i);
    PoppedKeeps(ess[i], maxSize, p.taken[i], q.taken[i], p.decoded[i]);
    FillKeeps(ess[i], maxSize, q.taken[i], p.decoded[i]);
  }

  lemma {:induction false} NextConsistent(ess: seq<Queue>, maxSize: nat, p: Position)
    requires Consistent(ess, maxSize, p)
    ensures Consistent(ess, maxSize, NextRound(ess, maxSize, p))
    ensures forall i: nat :: IsLive(NextRound(ess, maxSize, p), i) ==> IsLive(p, i)
  {
    hide ConsistentAt, NextRound;
    var q := NextRound(ess, maxSize, p);
    NextLengths(ess, maxSize, p);
    forall i: nat | i < |ess|
      ensures |q.taken| == |q.decoded| == |ess| && ConsistentAt(ess[i], maxSize, q.taken[i], q.decoded[i])
      ensures IsLive(q, i) ==> IsLive(p, i)
    {
      RoundOfInput(ess, maxSize, p, i);
    }
  }

  lemma {:induction false} NextLengths(ess: seq<Queue>, maxSize: nat, p: Position)
    requires |p.taken| == |p.decoded| == |ess|
    ensures |NextRound(ess, maxSize, p).taken| == |NextRound(ess, maxSize, p).decoded| == |ess|
  {
  }

  lemma {:induction false} RoundConsistent(ess: seq<Queue>, maxSize: nat, r: nat)
    ensures Consistent(ess, maxSize, AtRound(ess, maxSize, r))
  {
    hide Consistent, NextRound;
    if r == 0 {
      StartConsistent(ess, maxSize);
    } else {
      RoundConsistent(ess, maxSize, r - 1);
      NextConsistent(ess, maxSize, AtRound(ess, maxSize, r - 1));
    }
  }

  // ---------- when the rounds end ----------

  /** A merge that has nothing left to do stays so. */
  lemma {:induction false} StaysEmpty(ess: seq<Queue>, maxSize: nat, n: nat, r: nat)
    requires RoundQueues(ess, maxSize, n) == [] && n <= r
    ensures RoundQueues(ess, maxSize, r) == []
    decreases r - n
  {
    hide Consistent, NextRound, Live;
    if n < r {
      var p := AtRound(ess, maxSize, n);
      RoundConsistent(ess, maxSize, n);
      NextConsistent(ess, maxSize, p);
      NoneLive(p, NextRound(ess, maxSize, p));
      StaysEmpty(ess, maxSize, n + 1, r);
    }
  }

  lemma {:induction false} FirstHas(n: nat, i: nat)
    ensures i < n ==> i in FirstNumbers(n)
  {
    assert i < n ==> FirstNumbers(n)[i] == i;
  }

  lemma {:induction false} NoneLive(p: Position, q: Position)
    requires Live(p) == [] && forall i: nat :: IsLive(q, i) ==> IsLive(p, i)
    ensures Live(q) == []
  {
    if Live(q) != [] {
      FirstHas(|p.taken|, Live(q)[0]);
    }
  }

  /** No round from which on nothing is left gets stuck. */
  lemma {:induction false} EmptyIsNotStuck(ess: seq<Queue>, maxSize: nat, r: nat)
    requires RoundQueues(ess, maxSize, r) == []
    ensures !Stuck(RoundQueues(ess, maxSize, r)) && CutsInOrder(RoundQueues(ess, maxSize, r))
  {
    TwoQueuesReturn([]);
  }

  /** If the first `n` rounds return and nothing is left after them, no round gets stuck. */
  lemma {:induction false} EndsUnstuck(ess: seq<Queue>, maxSize: nat, n: nat)
    requires RoundQueues(ess, maxSize, n) == [] && forall r :: 0 <= r < n ==> !Stuck(RoundQueues(ess, maxSize, r))
    ensures !GetsStuck(ess, maxSize)
  {
    hide RoundQueues, Stuck;
    forall r: nat ensures !Stuck(RoundQueues(ess, maxSize, r)) {
      if r >= n {
        StaysEmpty(ess, maxSize, n, r);
        EmptyIsNotStuck(ess, maxSize, r);
      }
    }
  }

  /** Then it is the first `n` rounds that decide about the order. */
  lemma {:induction false} OrderOfRounds(ess: seq<Queue>, maxSize: nat, n: nat)
    requires RoundQueues(ess, maxSize, n) == []
    ensures StaysInOrder(ess, maxSize) <==> forall r :: 0 <= r < n ==> CutsInOrder(RoundQueues(ess, maxSize, r))
  {
    hide RoundQueues, CutsInOrder;
    forall r: nat | r >= n ensures CutsInOrder(RoundQueues(ess, maxSize, r)) {
      StaysEmpty(ess, maxSize, n, r);
      EmptyIsNotStuck(ess, maxSize, r);
    }
  }

  /** Two inputs never get stuck. */
  lemma {:induction false} TwoInputsReturn(ess: seq<Queue>, maxSize: nat)
    requires |ess| <= 2
    ensures !GetsStuck(ess, maxSize)
  {
    hide Stuck, Consistent, AtRound, RoundQueues;
    forall r: nat ensures !Stuck(RoundQueues(ess, maxSize, r)) {
      RoundConsistent(ess, maxSize, r);
      FewQueues(ess, maxSize, r);
      TwoQueuesReturn(RoundQueues(ess, maxSize, r));
    }
  }

  lemma {:induction false} FewQueues(ess: seq<Queue>, maxSize: nat, r: nat)
    ensures |RoundQueues(ess, maxSize, r)| <= |ess|
  {
    hide AtRound, ConsistentAt;
    RoundConsistent(ess, maxSize, r);
    LiveIsFewer(AtRound(ess, maxSize, r), FirstNumbers(|ess|));
  }

  lemma {:induction false} LiveIsFewer(p: Position, ids: seq<nat>)
    ensures |LiveAmong(p, ids)| <= |ids|
  {
    if ids != [] {
      LiveIsFewer(p, ids[..|ids| - 1]);
    }
  }

  // ---------- inputs that fit into their buffers ----------

  lemma {:induction false} AllCounted(es: Queue, n: nat)
    requires |Frames(es)| <= n
    ensures Count(es, n) == |es|
  {
    if es != [] {
      AllCounted(es[1..], n - FrameLen(es[0]));
    }
  }

  lemma {:induction false} AllLive(p: Position, ids: seq<nat>)
    requires forall i :: i in ids ==> IsLive(p, i)
    ensures LiveAmong(p, ids) == ids
  {
    if ids != [] {
      AllLive(p, ids[..|ids| - 1]);
      assert ids == ids[..|ids| - 1] + [ids[|ids| - 1]];
    }
  }

  /** Then the first round starts with the whole inputs. */
  lemma {:induction false} FirstRoundOfSmall(ess: seq<Queue>, maxSize: nat)
    requires forall i :: 0 <= i < |ess| ==> ess[i] != [] && |Frames(ess[i])| <= maxSize
    ensures RoundQueues(ess, maxSize, 0) == ess
  {
    hide Frames, Count;
    var p := AtRound(ess, maxSize, 0);
    forall i | 0 <= i < |ess| ensures p.taken[i] == 0 && p.decoded[i] == |ess[i]| {
      assert ess[i][0..0] == [] && ess[i][0..] == ess[i];
      EmptyFrames(ess[i][0..0]);
      AllCounted(ess[i], maxSize);
    }
    AllLive(p, FirstNumbers(|ess|));
    forall i | 0 <= i < |ess| ensures QueuesOf(ess, p)[i] == ess[i] {
      assert ess[i][0..|ess[i]|] == ess[i];
    }
  }

  /** Three inputs of two entries each are enough for a merge that never returns, whatever the size of the buffers. */
  lemma {:induction false} ThreeInputsGetStuck(maxSize: nat)
    requires maxSize >= 100
    ensures Ready(Colliding()) && GetsStuck(Colliding(), maxSize)
  {
    hide Stuck, RoundQueues, Colliding, Ready;
    ThreeQueuesCanSpin();
    forall i | 0 <= i < 3 ensures |Frames(Colliding()[i])| <= maxSize {
      SmallFrames(Colliding()[i]);
    }
    FirstRoundOfSmall(Colliding(), maxSize);
    assert Stuck(RoundQueues(Colliding(), maxSize, 0));
  }

  lemma {:induction false} SmallFrames(es: Queue)
    requires |es| == 2 && forall i :: 0 <= i < 2 ==> |es[i].key| == 1 && es[i].value.None?
    ensures |Frames(es)| <= 100
  {
    hide Frame;
    FramesOne(es[0]);
    FramesOne(es[1]);
    FramesConcat([es[0]], [es[1]]);
    assert es == [es[0]] + [es[1]];
  }
}
