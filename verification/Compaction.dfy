/**
 * Reclaiming the files of merged segments. Readers hold on to the level objects they took a snapshot of; a file may be
 * removed only once no level object that anyone holds contains its segment.
 */
module Compaction {
  import opened Sequences

  // ---------- the removal loop ----------

  function Keep(segments: seq<nat>, refs: nat -> nat): seq<nat> {
    if segments == [] then []
    else (if refs(segments[0]) == 1 then [] else [segments[0]]) + Keep(segments[1..], refs)
  }

  function Discard(segments: seq<nat>, refs: nat -> nat): seq<nat> {
    if segments == [] then []
    else (if refs(segments[0]) == 1 then [segments[0]] else []) + Discard(segments[1..], refs)
  }

  lemma {:induction false} KeepConcat(a: seq<nat>, b: seq<nat>, refs: nat -> nat)
    ensures Keep(a + b, refs) == Keep(a, refs) + Keep(b, refs)
  {
    if a == [] {
      assert a + b == b;
    } else {
      KeepConcat(a[1..], b, refs);
      assert (a + b)[1..] == a[1..] + b && (a + b)[0] == a[0];
      ConcatAssoc(if refs(a[0]) == 1 then [] else [a[0]], Keep(a[1..], refs), Keep(b, refs));
    }
  }

  lemma {:induction false} DiscardConcat(a: seq<nat>, b: seq<nat>, refs: nat -> nat)
    ensures Discard(a + b, refs) == Discard(a, refs) + Discard(b, refs)
  {
    if a == [] {
      assert a + b == b;
    } else {
      DiscardConcat(a[1..], b, refs);
      assert (a + b)[1..] == a[1..] + b && (a + b)[0] == a[0];
      ConcatAssoc(if refs(a[0]) == 1 then [a[0]] else [], Discard(a[1..], refs), Discard(b, refs));
    }
  }

  lemma {:induction false} KeepAll(a: seq<nat>, refs: nat -> nat)
    requires forall i :: 0 <= i < |a| ==> refs(a[i]) != 1
    ensures Keep(a, refs) == a
  {
    if a != [] {
      KeepAll(a[1..], refs);
    }
  }

  lemma {:induction false} KeepMembers(segments: seq<nat>, refs: nat -> nat, s: nat)
    ensures s in Keep(segments, refs) <==> s in segments && refs(s) != 1
    ensures s in Discard(segments, refs) <==> s in segments && refs(s) == 1
  {
    if segments != [] {
      KeepMembers(segments[1..], refs, s);
      assert segments == [segments[0]] + segments[1..];
    }
  }

  /** Which positions are kept. */
  lemma {:induction false} KeepPicks(segments: seq<nat>, refs: nat -> nat) returns (at: seq<nat>)
    ensures PickedAt(segments, at, Keep(segments, refs))
    ensures forall i: nat :: i < |segments| ==> (i in at <==> refs(segments[i]) != 1)
  {
    at := [];
    if segments != [] {
      var n := |segments| - 1;
      var front := KeepPicks(segments[..n], refs);
      assert segments == segments[..n] + [segments[n]];
      KeepConcat(segments[..n], [segments[n]], refs);
      KeepOne(segments[n], refs);
      PickedNext(segments[..n], front, Keep(segments[..n], refs), segments[n]);
      at := if refs(segments[n]) == 1 then front else front + [n];
    }
  }

  lemma {:induction false} KeepOne(s: nat, refs: nat -> nat)
    ensures Keep([s], refs) == if refs(s) == 1 then [] else [s]
  {
    var none: seq<nat> := [s][1..];
    assert none == [];
  }

  /** One removal by index, the indices taken from the back. */
  lemma {:induction false} RemoveOne(segments: seq<nat>, kept: seq<nat>, idx: nat, b: nat, refs: nat -> nat)
    requires idx < b <= |segments| && kept == segments[..b] + Keep(segments[b..], refs)
    requires refs(segments[idx]) == 1 && forall i :: idx < i < b ==> refs(segments[i]) != 1
    ensures idx < |kept|
    ensures kept[..idx] + kept[idx + 1..] == segments[..idx] + Keep(segments[idx..], refs)
  {
    hide Keep;
    var gap := segments[idx + 1..b];
    KeepAll(gap, refs);
    assert segments[idx + 1..] == gap + segments[b..];
    KeepConcat(gap, segments[b..], refs);
    KeepDrops(segments, idx, refs);
    SpliceOut(segments, kept, Keep(segments[b..], refs), idx, b);
  }

  lemma {:induction false} KeepDrops(segments: seq<nat>, idx: nat, refs: nat -> nat)
    requires idx < |segments| && refs(segments[idx]) == 1
    ensures Keep(segments[idx..], refs) == Keep(segments[idx + 1..], refs)
  {
    assert segments[idx..][1..] == segments[idx + 1..];
  }

  lemma {:induction false} SpliceOut(segments: seq<nat>, kept: seq<nat>, tail: seq<nat>, idx: nat, b: nat)
    requires idx < b <= |segments| && kept == segments[..b] + tail
    ensures idx < |kept| && kept[..idx] + kept[idx + 1..] == segments[..idx] + (segments[idx + 1..b] + tail)
  {
    assert kept[..idx] == segments[..idx];
    assert kept[idx + 1..] == segments[idx + 1..b] + tail;
  }

  /** The ascending positions, among the first `n`, of the segments only the list refers to. */
  ghost predicate IsUnreferenced(segments: seq<nat>, n: nat, refs: nat -> nat, indices: seq<nat>)
    requires n <= |segments|
  {
    && (forall k :: 0 <= k < |indices| ==> indices[k] < n && refs(segments[indices[k]]) == 1)
    && (forall k, l :: 0 <= k < l < |indices| ==> indices[k] < indices[l])
    && (forall j :: 0 <= j < n && refs(segments[j]) == 1 ==> j in indices)
  }

  lemma {:induction false} UnreferencedNext(segments: seq<nat>, i: nat, refs: nat -> nat, indices: seq<nat>)
    requires i < |segments| && IsUnreferenced(segments, i, refs, indices)
    ensures IsUnreferenced(segments, i + 1, refs, if refs(segments[i]) == 1 then indices + [i] else indices)
  {
    if refs(segments[i]) == 1 {
      var next := indices + [i];
      forall j: nat | j < i + 1 && refs(segments[j]) == 1 ensures j in next {
        InSnoc(indices, i, j);
      }
    }
  }

  lemma {:induction false} InSnoc(s: seq<nat>, x: nat, y: nat)
    ensures y in s + [x] <==> y in s || y == x
  {
  }

  method FindUnreferenced(segments: seq<nat>, strongCount: nat -> nat) returns (indices: seq<nat>, files: seq<nat>)
    ensures IsUnreferenced(segments, |segments|, strongCount, indices) && files == Discard(segments, strongCount)
  {
    hide IsUnreferenced, Discard;
    indices, files := [], [];
    NothingListed(segments, strongCount);
    for i := 0 to |segments|
      invariant IsUnreferenced(segments, i, strongCount, indices)
      invariant files == Discard(segments[..i], strongCount)
    {
      assert segments[..i + 1] == segments[..i] + [segments[i]];
      DiscardConcat(segments[..i], [segments[i]], strongCount);
      DiscardOne(segments[i], strongCount);
      UnreferencedNext(segments, i, strongCount, indices);
      if strongCount(segments[i]) == 1 {
        indices := indices + [i];
        files := files + [segments[i]];
      }
    }
    assert segments[..|segments|] == segments;
  }

  /** Between two of the positions, and behind the last, every segment is still referred to. */
  lemma {:induction false} GapIsReferenced(segments: seq<nat>, refs: nat -> nat, indices: seq<nat>, t: nat, i: nat)
    requires IsUnreferenced(segments, |segments|, refs, indices) && t < |indices| && i < |segments|
    requires indices[t] < i && (t + 1 < |indices| ==> i < indices[t + 1])
    ensures refs(segments[i]) != 1
  {
    if i in indices {
      var k: nat :| k < |indices| && indices[k] == i;
    }
  }

  /** Removal by index from the back, so that no removal moves an index still to come. */
  method RemoveIndices(segments: seq<nat>, indices: seq<nat>, ghost refs: nat -> nat) returns (kept: seq<nat>)
    requires IsUnreferenced(segments, |segments|, refs, indices)
    ensures kept == Keep(segments, refs)
  {
    hide Keep;
    kept := segments;
    var t := |indices|;
    ghost var b := |segments|;
    KeepNone(segments, refs);
    while t > 0
      invariant 0 <= t <= |indices|
      invariant b == if t == |indices| then |segments| else indices[t]
      invariant kept == segments[..b] + Keep(segments[b..], refs)
    {
      t := t - 1;
      var idx := indices[t];
      forall i: nat | idx < i < b ensures refs(segments[i]) != 1 {
        GapIsReferenced(segments, refs, indices, t, i);
      }
      RemoveOne(segments, kept, idx, b, refs);
      kept := kept[..idx] + kept[idx + 1..];
      b := idx;
    }
    NothingBefore(segments, b, refs, indices);
  }

  lemma {:induction false} KeepNone(segments: seq<nat>, refs: nat -> nat)
    ensures segments == segments[..|segments|] + Keep(segments[|segments|..], refs)
  {
  }

  /** What is left of the list: exactly the positions of segments that something else refers to, in order. */
  ghost predicate Keeps(segments: seq<nat>, refs: nat -> nat, kept: seq<nat>) {
    exists at: seq<nat> ::
      PickedAt(segments, at, kept) && forall i: nat :: i < |segments| ==> (i in at <==> refs(segments[i]) != 1)
  }

  class CompactionBt {
    var segmentsToDelete: seq<nat>
    var files: set<nat>

    constructor (files: set<nat>)
      ensures segmentsToDelete == [] && this.files == files
    {
      segmentsToDelete := [];
      this.files := files;
    }

    /**
     * Drops every listed segment whose only reference is the list itself and removes its file; the others stay, in
     * order.
     */
    method RemoveSegmentFiles(strongCount: nat -> nat)
      modifies this
      ensures segmentsToDelete == Keep(old(segmentsToDelete), strongCount)
      ensures files == Remaining(old(files), old(segmentsToDelete), strongCount)
      ensures forall f :: f in files <==> f in old(files) && !(f in old(segmentsToDelete) && strongCount(f) == 1)
      ensures Keeps(old(segmentsToDelete), strongCount, segmentsToDelete)
    {
      hide Keep, Discard, IsUnreferenced, PickedAt;
      ghost var at := KeepPicks(segmentsToDelete, strongCount);
      ghost var segments := segmentsToDelete;
      var indices, removing := FindUnreferenced(segmentsToDelete, strongCount);
      segmentsToDelete := RemoveIndices(segmentsToDelete, indices, strongCount);
      for i := 0 to |removing|
        invariant segmentsToDelete == Keep(segments, strongCount)
        invariant forall f :: f in files <==> f in old(files) && f !in removing[..i]
      {
        files := files - {removing[i]};
      }
      forall f ensures f in removing <==> f in segments && strongCount(f) == 1 {
        KeepMembers(segments, strongCount, f);
      }
      assert removing[..|removing|] == removing;
    }
  }

  /** The files left when those of unreferenced listed segments are gone. */
  function Remaining(files: set<nat>, segments: seq<nat>, refs: nat -> nat): set<nat> {
    set f | f in files && !(f in segments && refs(f) == 1)
  }

  lemma {:induction false} NothingListed(segments: seq<nat>, refs: nat -> nat)
    ensures IsUnreferenced(segments, 0, refs, []) && Discard(segments[..0], refs) == []
  {
  }

  lemma {:induction false} DiscardOne(s: nat, refs: nat -> nat)
    ensures Discard([s], refs) == if refs(s) == 1 then [s] else []
  {
    var none: seq<nat> := [s][1..];
    assert none == [];
  }

  lemma {:induction false} NothingBefore(segments: seq<nat>, b: nat, refs: nat -> nat, indices: seq<nat>)
    requires b <= |segments| && b == if indices == [] then |segments| else indices[0]
    requires forall k, l :: 0 <= k < l < |indices| ==> indices[k] < indices[l]
    requires forall j :: 0 <= j < |segments| && refs(segments[j]) == 1 ==> j in indices
    ensures segments[..b] + Keep(segments[b..], refs) == Keep(segments, refs)
  {
    assert forall i :: 0 <= i < b ==> i !in indices;
    KeepAll(segments[..b], refs);
    assert segments == segments[..b] + segments[b..];
    KeepConcat(segments[..b], segments[b..], refs);
  }

  // ---------- who holds what ----------

  /**
   * Level objects by identity, each with the segments it contains. The container holds `current`; every reader in
   * `snapshots` holds the level objects it saw.
   */
  datatype World = World(levels: map<nat, seq<nat>>, current: set<nat>, snapshots: map<nat, set<nat>>, toDelete: seq<nat>,
                         files: set<nat>, used: set<nat>)

  ghost predicate Held(w: World, level: nat) {
    level in w.current || exists r :: r in w.snapshots && level in w.snapshots[r]
  }

  ghost function HeldLevels(w: World): set<nat> {
    set l | l in w.levels && Held(w, l)
  }

  function Occurrences(s: nat, segments: seq<nat>): nat {
    if segments == [] then 0 else (if segments[0] == s then 1 else 0) + Occurrences(s, segments[1..])
  }

  /** One reference per occurrence in each held level object. */
  ghost function LevelRefs(levels: map<nat, seq<nat>>, held: set<nat>, s: nat): nat
    requires held <= levels.Keys
  {
    if held == {} then 0
    else
      var l :| l in held;
      Occurrences(s, levels[l]) + LevelRefs(levels, held - {l}, s)
  }

  /** The reference count of a segment: its occurrences in held levels and in the list of segments to delete. */
  ghost function StrongCount(w: World, s: nat): nat {
    LevelRefs(w.levels, HeldLevels(w), s) + Occurrences(s, w.toDelete)
  }

  lemma {:induction false} OccursIff(s: nat, segments: seq<nat>)
    ensures s in segments <==> Occurrences(s, segments) > 0
  {
    if segments != [] {
      OccursIff(s, segments[1..]);
      assert segments == [segments[0]] + segments[1..];
    }
  }

  /** No references from levels exactly when no held level contains the segment. */
  lemma {:induction false} NoLevelRefsIff(levels: map<nat, seq<nat>>, held: set<nat>, s: nat)
    requires held <= levels.Keys
    ensures LevelRefs(levels, held, s) == 0 <==> forall l :: l in held ==> s !in levels[l]
    decreases |held|
  {
    if held != {} {
      var l :| l in held && LevelRefs(levels, held, s) == Occurrences(s, levels[l]) + LevelRefs(levels, held - {l}, s);
      OccursIff(s, levels[l]);
      NoLevelRefsIff(levels, held - {l}, s);
    }
  }

  /** Every segment that some held level contains still has its file. */
  ghost predicate Safe(w: World) {
    && (forall l :: Held(w, l) ==> l in w.levels)
    && (forall l, s :: l in w.levels && Held(w, l) && s in w.levels[l] ==> s in w.files && s in w.used)
    && (forall s :: s in w.files || s in w.toDelete ==> s in w.used)
  }

  datatype Step =
    | Snapshot(reader: nat)
    | Drop(reader: nat)
    | Flush(level: nat, segment: nat, old': nat)
    | Swap(removed: set<nat>, added: map<nat, seq<nat>>, merged: seq<nat>)
    | Cleanup

  ghost predicate Enabled(w: World, step: Step) {
    match step
    case Snapshot(reader) => reader !in w.snapshots
    case Drop(reader) => reader in w.snapshots
    // a new level object: the old level zero with one new segment, in place of the old one
    case Flush(level, segment, old') => level !in w.levels && segment !in w.used && old' in w.current && old' in w.levels
    // new level objects hold segments of the current levels or newly written ones, and merged ones go on the list
    case Swap(removed, added, merged) =>
      && removed <= w.current && added.Keys !! w.levels.Keys
      && (forall l, s :: l in added && s in added[l] ==> InCurrent(w, s) || s !in w.used)
      && (forall s :: s in merged ==> InCurrent(w, s) || s !in w.used)
    case Cleanup => true
  }

  ghost predicate InCurrent(w: World, s: nat) {
    exists l :: l in w.current && l in w.levels && s in w.levels[l]
  }

  ghost function Segments(added: map<nat, seq<nat>>): set<nat> {
    set l, s | l in added && s in added[l] :: s
  }

  ghost function Apply(w: World, step: Step): World
    requires Enabled(w, step)
  {
    match step
    case Snapshot(reader) => w.(snapshots := w.snapshots[reader := w.current])
    case Drop(reader) => w.(snapshots := w.snapshots - {reader})
    case Flush(level, segment, old') =>
      w.(levels := w.levels[level := w.levels[old'] + [segment]], current := w.current - {old'} + {level},
      files := w.files + {segment}, used := w.used + {segment})
    case Swap(removed, added, merged) =>
      var written := (Segments(added) + set s | s in merged) - w.used;
      w.(levels := w.levels + added, current := w.current - removed + added.Keys,
      toDelete := w.toDelete + merged, files := w.files + written, used := w.used + written)
    case Cleanup =>
      var refs := (s: nat) => StrongCount(w, s);
      w.(toDelete := Keep(w.toDelete, refs), files := Remaining(w.files, w.toDelete, refs))
  }

  /** A file goes only when no held level contains its segment, the current levels and every reader's included. */
  lemma {:induction false} RemovedIsUnheld(w: World, s: nat)
    requires Safe(w) && s in w.files && s !in Apply(w, Cleanup).files
    ensures s in w.toDelete && forall l :: l in w.levels && Held(w, l) ==> s !in w.levels[l]
  {
    OccursIff(s, w.toDelete);
    NoLevelRefsIff(w.levels, HeldLevels(w), s);
    forall l | l in w.levels && Held(w, l) ensures s !in w.levels[l] {
      assert l in HeldLevels(w);
    }
  }

  lemma {:induction false} CleanupKeepsSafe(w: World)
    requires Safe(w)
    ensures Safe(Apply(w, Cleanup))
  {
    var w' := Apply(w, Cleanup);
    assert forall l :: Held(w', l) <==> Held(w, l);
    forall l, s | l in w'.levels && Held(w', l) && s in w'.levels[l] ensures s in w'.files {
      if s !in w'.files {
        RemovedIsUnheld(w, s);
      }
    }
    forall s | s in w'.toDelete ensures s in w'.used {
      KeepMembers(w.toDelete, (s: nat) => StrongCount(w, s), s);
    }
  }

  lemma {:induction false} SwapKeepsSafe(w: World, step: Step)
    requires Safe(w) && step.Swap? && Enabled(w, step)
    ensures Safe(Apply(w, step))
  {
    var w' := Apply(w, step);
    forall l | Held(w', l) ensures l in w'.levels && (l in step.added || Held(w, l)) {
      if l !in step.added {
        assert Held(w, l);
      }
    }
    forall l, s | l in w'.levels && Held(w', l) && s in w'.levels[l] ensures s in w'.files && s in w'.used {
      if l in step.added {
        assert s in Segments(step.added);
      } else {
        assert Held(w, l);
      }
    }
  }

  /** Safety over every interleaving. */
  lemma {:induction false} StepKeepsSafe(w: World, step: Step)
    requires Safe(w) && Enabled(w, step)
    ensures Safe(Apply(w, step))
  {
    hide StrongCount;
    match step {
      case Snapshot(reader) =>
        var w' := Apply(w, step);
        assert forall l :: Held(w', l) <==> Held(w, l) by {
          forall l ensures Held(w', l) <==> Held(w, l) {
            if Held(w, l) && l !in w.current {
              var r :| r in w.snapshots && l in w.snapshots[r];
              assert r in w'.snapshots && l in w'.snapshots[r];
            }
          }
        }
      case Drop(reader) =>
        var w' := Apply(w, step);
        forall l ensures Held(w', l) ==> Held(w, l) {
          if Held(w', l) && l !in w'.current {
            var r :| r in w'.snapshots && l in w'.snapshots[r];
            assert r in w.snapshots && l in w.snapshots[r];
          }
        }
      case Flush(level, segment, old') =>
        var w' := Apply(w, step);
        assert Held(w, old');
        forall l | Held(w', l) ensures l == level || Held(w, l) {
        }
      case Swap(_, _, _) =>
        SwapKeepsSafe(w, step);
      case Cleanup =>
        CleanupKeepsSafe(w);
    }
  }

  // ---------- runs ----------

  ghost predicate Run(worlds: seq<World>, steps: seq<Step>) {
    && |worlds| == |steps| + 1 && Safe(worlds[0])
    && forall i :: 0 <= i < |steps| ==> Enabled(worlds[i], steps[i]) && worlds[i + 1] == Apply(worlds[i], steps[i])
  }

  lemma {:induction false} RunIsSafe(worlds: seq<World>, steps: seq<Step>, n: nat)
    requires Run(worlds, steps) && n < |worlds|
    ensures Safe(worlds[n])
  {
    hide Safe, Enabled, Apply;
    if n > 0 {
      RunIsSafe(worlds, steps, n - 1);
      StepKeepsSafe(worlds[n - 1], steps[n - 1]);
    }
  }

  /**
   * Over every interleaving: when a file disappears, nobody holds a level with its segment, then or at any later time.
   */
  lemma {:induction false} RemovedForGood(worlds: seq<World>, steps: seq<Step>, i: nat, j: nat, s: nat)
    requires Run(worlds, steps) && i < j < |worlds| && s in worlds[i].files && s !in worlds[i + 1].files
    ensures s !in worlds[j].files
    ensures forall l :: l in worlds[j].levels && Held(worlds[j], l) ==> s !in worlds[j].levels[l]
    decreases j
  {
    hide Enabled, Held, Safe, Apply;
    RunIsSafe(worlds, steps, i);
    RunIsSafe(worlds, steps, j);
    if j > i + 1 {
      RemovedForGood(worlds, steps, i, j - 1, s);
      UsedStays(worlds, steps, i, j - 1, s);
      GoneStays(worlds[j - 1], steps[j - 1], s);
    }
    HeldHasFile(worlds[j], s);
  }

  lemma {:induction false} HeldHasFile(w: World, s: nat)
    requires Safe(w) && s !in w.files
    ensures forall l :: l in w.levels && Held(w, l) ==> s !in w.levels[l]
  {
    hide Held;
  }

  lemma {:induction false} GoneStays(w: World, step: Step, s: nat)
    requires Enabled(w, step) && s in w.used && s !in w.files
    ensures s !in Apply(w, step).files && s in Apply(w, step).used
  {
    hide StrongCount, Keep;
  }

  lemma {:induction false} UsedStep(w: World, step: Step, s: nat)
    requires Enabled(w, step) && s in w.used
    ensures s in Apply(w, step).used
  {
    hide StrongCount, Keep;
  }

  lemma {:induction false} UsedStays(worlds: seq<World>, steps: seq<Step>, i: nat, j: nat, s: nat)
    requires Run(worlds, steps) && i <= j < |worlds| && s in worlds[i].files
    ensures s in worlds[j].used
    decreases j
  {
    hide Enabled, Held, Apply;
    RunIsSafe(worlds, steps, i);
    if j > i {
      UsedStays(worlds, steps, i, j - 1, s);
      UsedStep(worlds[j - 1], steps[j - 1], s);
    }
  }

  // ---------- what cleaning up achieves ----------

  /** The list names the segment at exactly one position. */
  ghost predicate ListedOnce(s: nat, segments: seq<nat>) {
    exists i :: 0 <= i < |segments| && segments[i] == s && forall j :: 0 <= j < |segments| && segments[j] == s ==> j == i
  }

  lemma {:induction false} OnceIff(s: nat, segments: seq<nat>)
    ensures Occurrences(s, segments) == 1 <==> ListedOnce(s, segments)
  {
    hide ListedOnce;
    if segments == [] {
      NotOnce(s, segments);
    } else {
      OnceIff(s, segments[1..]);
      OccursIff(s, segments[1..]);
      if segments[0] == s {
        OnceInFront(s, segments);
      } else {
        OnceBehind(s, segments);
      }
    }
  }

  lemma {:induction false} NotOnce(s: nat, segments: seq<nat>)
    requires segments == []
    ensures !ListedOnce(s, segments)
  {
  }

  lemma {:induction false} OnceInFront(s: nat, segments: seq<nat>)
    requires segments != [] && segments[0] == s
    ensures ListedOnce(s, segments) <==> s !in segments[1..]
  {
    if s in segments[1..] {
      var k :| 0 <= k < |segments[1..]| && segments[1..][k] == s;
      assert segments[k + 1] == s;
    } else {
      assert forall j :: 0 < j < |segments| ==> segments[j] == segments[1..][j - 1];
    }
  }

  lemma {:induction false} OnceBehind(s: nat, segments: seq<nat>)
    requires segments != [] && segments[0] != s
    ensures ListedOnce(s, segments) <==> ListedOnce(s, segments[1..])
  {
    var rest := segments[1..];
    if ListedOnce(s, rest) {
      var i :| 0 <= i < |rest| && rest[i] == s && forall j :: 0 <= j < |rest| && rest[j] == s ==> j == i;
      forall j | 0 <= j < |segments| && segments[j] == s ensures j == i + 1 {
        assert rest[j - 1] == s;
      }
      assert segments[i + 1] == s;
    }
    if ListedOnce(s, segments) {
      var i :| 0 <= i < |segments| && segments[i] == s && forall j :: 0 <= j < |segments| && segments[j] == s ==> j == i;
      forall j | 0 <= j < |rest| && rest[j] == s ensures j == i - 1 {
        assert segments[j + 1] == s;
      }
      assert rest[i - 1] == s;
    }
  }

  /** Nobody holds a level with the segment. */
  ghost predicate Unheld(w: World, s: nat) {
    forall l :: l in w.levels && Held(w, l) ==> s !in w.levels[l]
  }

  lemma {:induction false} OneReferenceIff(w: World, s: nat)
    requires s in w.toDelete
    ensures StrongCount(w, s) == 1 <==> ListedOnce(s, w.toDelete) && Unheld(w, s)
  {
    hide Held;
    OccursIff(s, w.toDelete);
    OnceIff(s, w.toDelete);
    NoLevelRefsIff(w.levels, HeldLevels(w), s);
    forall l | l in w.levels ensures l in HeldLevels(w) <==> Held(w, l) {
    }
  }

  /** Cleaning up removes the file of a listed segment if and only if it is listed once and nobody holds a level with it. */
  lemma {:induction false} CleanupRemovesIff(w: World, s: nat)
    requires s in w.toDelete && s in w.files
    ensures s !in Apply(w, Cleanup).files <==> ListedOnce(s, w.toDelete) && Unheld(w, s)
    ensures s !in Apply(w, Cleanup).toDelete <==> ListedOnce(s, w.toDelete) && Unheld(w, s)
  {
    hide StrongCount, Held, Keep, ListedOnce;
    OneReferenceIff(w, s);
    KeepMembers(w.toDelete, (s: nat) => StrongCount(w, s), s);
  }

  /** Segments that are not listed keep their files. */
  lemma {:induction false} CleanupLeaves(w: World, s: nat)
    requires s !in w.toDelete
    ensures s in Apply(w, Cleanup).files <==> s in w.files
    ensures s !in Apply(w, Cleanup).toDelete
  {
    hide StrongCount, Keep;
    KeepMembers(w.toDelete, (s: nat) => StrongCount(w, s), s);
  }

  // ---------- over whole runs ----------

  lemma {:induction false} LevelStays(w: World, step: Step, l: nat)
    requires Enabled(w, step) && l in w.levels
    ensures l in Apply(w, step).levels && Apply(w, step).levels[l] == w.levels[l]
  {
    hide StrongCount, Keep;
  }

  lemma {:induction false} SnapshotStays(w: World, step: Step, reader: nat)
    requires Enabled(w, step) && reader in w.snapshots && step != Drop(reader)
    ensures reader in Apply(w, step).snapshots && Apply(w, step).snapshots[reader] == w.snapshots[reader]
  {
    hide StrongCount, Keep;
  }

  /**
   * A reader that took a snapshot finds every level as it was, and every file of its segments, until it drops the
   * snapshot, whatever flushes, swaps and cleanups happen in between.
   */
  lemma {:induction false} ReaderKeepsFiles(worlds: seq<World>, steps: seq<Step>, i: nat, j: nat, reader: nat, l: nat)
    requires Run(worlds, steps) && i < j < |worlds| && steps[i] == Snapshot(reader)
    requires (forall k :: i < k < j ==> steps[k] != Drop(reader)) && l in worlds[i].current
    ensures l in worlds[i].levels && l in worlds[j].levels && worlds[j].levels[l] == worlds[i].levels[l]
    ensures reader in worlds[j].snapshots && worlds[j].snapshots[reader] == worlds[i].current
    ensures forall s :: s in worlds[i].levels[l] ==> s in worlds[j].files
    decreases j
  {
    hide StrongCount, Keep;
    RunIsSafe(worlds, steps, i);
    RunIsSafe(worlds, steps, j);
    assert Held(worlds[i], l);
    if j > i + 1 {
      ReaderKeepsFiles(worlds, steps, i, j - 1, reader, l);
      SnapshotStays(worlds[j - 1], steps[j - 1], reader);
    }
    LevelStays(worlds[j - 1], steps[j - 1], l);
    assert Held(worlds[j], l);
  }

  /** A flush takes no segment away from the current levels, and adds its own. */
  lemma {:induction false} FlushKeepsCurrent(w: World, step: Step, s: nat)
    requires step.Flush? && Enabled(w, step)
    ensures InCurrent(Apply(w, step), s) <==> InCurrent(w, s) || s == step.segment
  {
    var w' := Apply(w, step);
    assert step.level in w'.current && w'.levels[step.level] == w.levels[step.old'] + [step.segment];
    forall l | l in w'.current && l in w'.levels && s in w'.levels[l] ensures InCurrent(w, s) || s == step.segment {
    }
    forall l | l in w.current && l in w.levels && s in w.levels[l] ensures InCurrent(w', s) {
      assert l == step.old' || (l in w'.current && l in w'.levels && s in w'.levels[l]);
    }
  }

  /** No current level has the segment, and it is on the list once, unless it is gone already. */
  ghost predicate Retired(w: World, s: nat) {
    s in w.used && !InCurrent(w, s) && (ListedOnce(s, w.toDelete) || (s !in w.toDelete && s !in w.files))
  }

  lemma {:induction false} KeepOccurrences(segments: seq<nat>, refs: nat -> nat, s: nat)
    ensures Occurrences(s, Keep(segments, refs)) == if refs(s) == 1 then 0 else Occurrences(s, segments)
  {
    if segments != [] {
      KeepOccurrences(segments[1..], refs, s);
      var rest := Keep(segments[1..], refs);
      if refs(segments[0]) != 1 {
        assert ([segments[0]] + rest)[1..] == rest;
      } else {
        assert [] + rest == rest;
      }
    }
  }

  lemma {:induction false} OccurrencesConcat(s: nat, a: seq<nat>, b: seq<nat>)
    ensures Occurrences(s, a + b) == Occurrences(s, a) + Occurrences(s, b)
  {
    if a == [] {
      assert a + b == b;
    } else {
      OccurrencesConcat(s, a[1..], b);
      assert (a + b)[1..] == a[1..] + b;
    }
  }

  lemma {:induction false} OnceAmong(s: nat, a: seq<nat>, b: seq<nat>)
    requires (ListedOnce(s, a) && s !in b) || (ListedOnce(s, b) && s !in a)
    ensures ListedOnce(s, a + b)
  {
    hide ListedOnce, Occurrences;
    OccurrencesConcat(s, a, b);
    OnceIff(s, a);
    OnceIff(s, b);
    OnceIff(s, a + b);
    OccursIff(s, a);
    OccursIff(s, b);
  }

  lemma {:induction false} RetiredThroughCleanup(w: World, s: nat)
    requires Retired(w, s)
    ensures Retired(Apply(w, Cleanup), s)
  {
    hide StrongCount, Keep, ListedOnce, Occurrences;
    var refs := (s: nat) => StrongCount(w, s);
    var w' := Apply(w, Cleanup);
    KeepMembers(w.toDelete, refs, s);
    if ListedOnce(s, w.toDelete) {
      OnceIff(s, w.toDelete);
      OccursIff(s, w.toDelete);
      KeepOccurrences(w.toDelete, refs, s);
      OnceIff(s, w'.toDelete);
    }
    assert InCurrent(w', s) ==> InCurrent(w, s);
  }

  lemma {:induction false} NotCurrentAfterSwap(w: World, step: Step, s: nat)
    requires Safe(w) && step.Swap? && Enabled(w, step)
    requires forall l :: l in w.levels && l in w.current && l !in step.removed ==> s !in w.levels[l]
    requires forall l :: l in step.added ==> s !in step.added[l]
    ensures !InCurrent(Apply(w, step), s)
  {
    var w' := Apply(w, step);
    forall l | l in w'.current && l in w'.levels ensures s !in w'.levels[l] {
      assert l in step.added || Held(w, l);
    }
  }

  lemma {:induction false} RetiredThroughSwap(w: World, step: Step, s: nat)
    requires Safe(w) && step.Swap? && Enabled(w, step) && Retired(w, s)
    ensures Retired(Apply(w, step), s)
  {
    hide ListedOnce;
    if ListedOnce(s, w.toDelete) {
      OnceAmong(s, w.toDelete, step.merged);
    }
    forall l | l in w.levels && l in w.current ensures s !in w.levels[l] {
    }
    forall l | l in step.added ensures s !in step.added[l] {
    }
    NotCurrentAfterSwap(w, step, s);
  }

  lemma {:induction false} RetiredThroughFlush(w: World, step: Step, s: nat)
    requires Safe(w) && step.Flush? && Enabled(w, step) && Retired(w, s)
    ensures Retired(Apply(w, step), s)
  {
    hide ListedOnce;
    var w' := Apply(w, step);
    forall l | l in w'.current && l in w'.levels ensures s !in w'.levels[l] {
    }
  }

  lemma {:induction false} RetiredStays(w: World, step: Step, s: nat)
    requires Safe(w) && Enabled(w, step) && Retired(w, s)
    ensures Retired(Apply(w, step), s)
  {
    hide Safe, ListedOnce, StrongCount, Keep;
    match step {
      case Snapshot(_) =>
        assert InCurrent(Apply(w, step), s) ==> InCurrent(w, s);
      case Drop(_) =>
        assert InCurrent(Apply(w, step), s) ==> InCurrent(w, s);
      case Flush(_, _, _) =>
        RetiredThroughFlush(w, step, s);
      case Swap(_, _, _) =>
        RetiredThroughSwap(w, step, s);
      case Cleanup =>
        RetiredThroughCleanup(w, s);
    }
  }

  /** A swap retires the segments that it lists once, if they were not listed and the levels it leaves do not have them. */
  lemma {:induction false} SwapRetires(w: World, step: Step, s: nat)
    requires Safe(w) && step.Swap? && Enabled(w, step) && ListedOnce(s, step.merged) && s !in w.toDelete && s in w.used
    requires forall l :: l in w.levels && l in w.current && l !in step.removed ==> s !in w.levels[l]
    requires forall l :: l in step.added ==> s !in step.added[l]
    ensures Retired(Apply(w, step), s)
  {
    OnceAmong(s, w.toDelete, step.merged);
    NotCurrentAfterSwap(w, step, s);
  }

  /**
   * Merged segments do not stay for good. Once a swap has retired a segment, the first clean-up that finds no reader
   * holding on to it removes its file, whatever happened in between.
   */
  lemma {:induction false} RetiredIsReclaimed(worlds: seq<World>, steps: seq<Step>, i: nat, j: nat, s: nat)
    requires Run(worlds, steps) && i <= j < |steps| && Retired(worlds[i], s)
    requires steps[j] == Cleanup && Unheld(worlds[j], s)
    ensures s !in worlds[j + 1].files
  {
    hide Safe, Retired, Held, StrongCount, Keep, Apply;
    RetiredUntil(worlds, steps, i, j, s);
    RetiredIsCleaned(worlds[j], s);
  }

  lemma {:induction false} RetiredUntil(worlds: seq<World>, steps: seq<Step>, i: nat, j: nat, s: nat)
    requires Run(worlds, steps) && i <= j < |worlds| && Retired(worlds[i], s)
    ensures Retired(worlds[j], s)
    decreases j
  {
    hide Safe, Retired, Apply, Enabled;
    if i < j {
      RetiredUntil(worlds, steps, i, j - 1, s);
      RunIsSafe(worlds, steps, j - 1);
      RetiredStays(worlds[j - 1], steps[j - 1], s);
    }
  }

  lemma {:induction false} RetiredIsCleaned(w: World, s: nat)
    requires Retired(w, s) && Unheld(w, s)
    ensures s !in Apply(w, Cleanup).files
  {
    hide StrongCount, Keep, Held;
    if s in w.files && s in w.toDelete {
      CleanupRemovesIff(w, s);
    }
  }
}
