/** The levels of the sorted table: lookups, and what merging into a partitioned level leaves disjoint. */
module Levels {
  import opened Bytes
  import opened Options
  import opened Sequences
  import opened SsTableEntries
  import opened SsTableIndex
  import opened SsTableSegment
  import opened MergeSpec

  /** Some segment holds `key`. */
  ghost predicate Occurs(ess: seq<seq<SsTableEntry>>, key: Key) {
    exists i, q :: 0 <= i < |ess| && 0 <= q < |ess[i]| && ess[i][q].key == key
  }

  /** The newest version of `key` over all segments of a level. */
  ghost predicate Newest(ess: seq<seq<SsTableEntry>>, key: Key, r: Option<SsTableEntry>) {
    match r
    case None => !Occurs(ess, key)
    case Some(e) =>
      && e.key == key
      && (exists i, q :: 0 <= i < |ess| && 0 <= q < |ess[i]| && ess[i][q] == e)
      && (forall i, q :: 0 <= i < |ess| && 0 <= q < |ess[i]| && ess[i][q].key == key ==> ess[i][q].lsn <= e.lsn)
  }

  ghost predicate AllHold(segments: seq<Segment>, ess: seq<seq<SsTableEntry>>) {
    && |segments| == |ess|
    && forall i :: 0 <= i < |segments| ==> Holds(segments[i], ess[i]) && StrictlyIncreasing(ess[i])
  }

  lemma {:induction false} NewestNext(ess: seq<seq<SsTableEntry>>, es: seq<SsTableEntry>, key: Key,
                                      r: Option<SsTableEntry>, a: Option<SsTableEntry>)
    requires Newest(ess, key, r) && StrictlyIncreasing(es) && Answers(es, key, a)
    ensures
      var r' := if a.None? then r else if r.None? then a else if r.value.lsn > a.value.lsn then r else a;
      Newest(ess + [es], key, r')
  {
    hide Less;
    var all: seq<seq<SsTableEntry>> := ess + [es];
    var r' := if a.None? then r else if r.None? then a else if r.value.lsn > a.value.lsn then r else a;
    forall i, q | 0 <= i < |all| && 0 <= q < |all[i]| && all[i][q].key == key
      ensures r'.Some? && all[i][q].lsn <= r'.value.lsn
    {
      if i < |ess| {
        assert all[i] == ess[i];
        assert r.None? ==> Occurs(ess, key);
      } else {
        assert all[i] == es;
        if a.Some? {
          var p: nat :| p < |es| && es[p] == a.value;
          SameKeySameEntry(es, p, q);
        }
      }
    }
    if r' == a && a.Some? {
      var p: nat :| p < |es| && es[p] == a.value;
      assert all[|ess|][p] == a.value;
    } else if r'.Some? {
      var i, q :| 0 <= i < |ess| && 0 <= q < |ess[i]| && ess[i][q] == r.value;
      assert all[i][q] == r.value;
    }
  }

  /** Lookup in the level whose segments may overlap: of several versions the one with the highest sequence number. */
  method OverlappingGet(segments: seq<Segment>, key: Key, ghost ess: seq<seq<SsTableEntry>>) returns (res: GetResult)
    ensures AllHold(segments, ess) ==> res.Found? && Newest(ess, key, res.entry)
  {
    hide Less, Holds, StrictlyIncreasing, Answers, Newest;
    var curr: Option<SsTableEntry> := None;
    ghost var proper := AllHold(segments, ess);
    NewestOfNone(key);
    assert proper ==> ess[..0] == [];
    for i := 0 to |segments|
      invariant proper ==> Newest(ess[..i], key, curr)
    {
      ghost var es: seq<SsTableEntry> := if proper then ess[i] else [];
      var found := Get(segments[i], key, es);
      if found.GetPanicked? {
        return GetPanicked;
      }
      if proper {
        NewestNext(ess[..i], es, key, curr, found.entry);
        assert ess[..i + 1] == ess[..i] + [ess[i]];
      }
      match found.entry {
        case None =>
        case Some(entry) =>
          if curr.None? {
            curr := Some(entry);
          } else if !(curr.value.lsn > entry.lsn) {
            curr := Some(entry);
          }
      }
    }
    assert proper ==> ess[..|segments|] == ess;
    res := Found(curr);
  }

  lemma {:induction false} NewestOfNone(key: Key)
    ensures Newest([], key, None)
  {
  }

  // ---------- partitioned levels ----------

  predicate Contains(s: Segment, key: Key) {
    AtMost(s.firstKey, key) && AtMost(key, s.lastKey)
  }

  /** The original's test; on proper ranges it says that the two have a key in common. */
  predicate Overlaps(s: Segment, other: Segment) {
    AtMost(other.firstKey, s.lastKey) && AtMost(s.firstKey, other.lastKey)
  }

  ghost predicate Proper(segments: seq<Segment>) {
    forall i :: 0 <= i < |segments| ==> AtMost(segments[i].firstKey, segments[i].lastKey)
  }

  /** Proper, pairwise disjoint ranges, in any order. */
  ghost predicate Partitioned(segments: seq<Segment>) {
    Proper(segments) && forall i, j :: 0 <= i < j < |segments| ==> !Overlaps(segments[i], segments[j])
  }

  lemma {:induction false} OverlapsIff(s: Segment, t: Segment)
    requires AtMost(s.firstKey, s.lastKey) && AtMost(t.firstKey, t.lastKey)
    ensures Overlaps(s, t) <==> exists key :: Contains(s, key) && Contains(t, key)
    ensures Overlaps(s, t) <==> Overlaps(t, s)
  {
    hide Less, AtMost;
    if Overlaps(s, t) {
      var key := if AtMost(s.firstKey, t.firstKey) then t.firstKey else s.firstKey;
      AtMostIsNotAbove(s.firstKey, t.firstKey);
      AtMostReflexive(key);
      if !AtMost(s.firstKey, t.firstKey) {
        LessIsAtMost(t.firstKey, s.firstKey);
      }
      assert Contains(s, key) && Contains(t, key);
    }
    if key :| Contains(s, key) && Contains(t, key) {
      AtMostTransitive(t.firstKey, key, s.lastKey);
      AtMostTransitive(s.firstKey, key, t.lastKey);
    }
  }

  method FindContainingSegment(segments: seq<Segment>, key: Key) returns (found: Option<nat>)
    ensures found.Some? ==> found.value < |segments| && Contains(segments[found.value], key)
    ensures found.None? ==> forall i :: 0 <= i < |segments| ==> !Contains(segments[i], key)
  {
    for i := 0 to |segments|
      invariant forall j :: 0 <= j < i ==> !Contains(segments[j], key)
    {
      if Contains(segments[i], key) {
        return Some(i);
      }
    }
    return None;
  }

  /** In a partitioned level the segment found is the only one that can hold the key. */
  lemma {:induction false} ContainingIsUnique(segments: seq<Segment>, key: Key, i: nat, j: nat)
    requires Partitioned(segments) && i < |segments| && j < |segments|
    requires Contains(segments[i], key) && Contains(segments[j], key)
    ensures i == j
  {
    hide Less, AtMost, Overlaps;
    OverlapsIff(segments[i], segments[j]);
  }

  lemma {:induction false} EntryInRange(s: Segment, es: seq<SsTableEntry>, q: nat)
    requires Holds(s, es) && StrictlyIncreasing(es) && q < |es|
    ensures Contains(s, es[q].key) && AtMost(s.firstKey, s.lastKey)
  {
    hide Less;
  }

  method PartitionedGet(segments: seq<Segment>, key: Key, ghost ess: seq<seq<SsTableEntry>>) returns (res: GetResult)
    ensures AllHold(segments, ess) && Partitioned(segments) ==> res.Found? && Newest(ess, key, res.entry)
  {
    hide Less, Holds, StrictlyIncreasing, Answers, Newest, Partitioned, Contains;
    ghost var proper := AllHold(segments, ess) && Partitioned(segments);
    var found := FindContainingSegment(segments, key);
    if found.None? {
      if proper {
        NotContained(segments, key, ess);
      }
      return Found(None);
    }
    ghost var es: seq<SsTableEntry> := if proper then ess[found.value] else [];
    res := Get(segments[found.value], key, es);
    if proper {
      OnlyThere(segments, key, ess, found.value, res.entry);
    }
  }

  lemma {:induction false} NotContained(segments: seq<Segment>, key: Key, ess: seq<seq<SsTableEntry>>)
    requires AllHold(segments, ess) && forall i :: 0 <= i < |segments| ==> !Contains(segments[i], key)
    ensures Newest(ess, key, None)
  {
    hide Less, Holds, StrictlyIncreasing, Contains;
    forall i: nat, q: nat | i < |ess| && q < |ess[i]| ensures ess[i][q].key != key {
      EntryInRange(segments[i], ess[i], q);
    }
  }

  lemma {:induction false} OnlyThere(segments: seq<Segment>, key: Key, ess: seq<seq<SsTableEntry>>, i: nat,
                                     r: Option<SsTableEntry>)
    requires AllHold(segments, ess) && Partitioned(segments) && i < |segments| && Contains(segments[i], key)
    requires Answers(ess[i], key, r)
    ensures Newest(ess, key, r)
  {
    hide Less, Holds, StrictlyIncreasing, Contains, Partitioned;
    forall j: nat, q: nat | j < |ess| && q < |ess[j]| && ess[j][q].key == key
      ensures r.Some? && ess[j][q] == r.value
    {
      EntryInRange(segments[j], ess[j], q);
      ContainingIsUnique(segments, key, i, j);
      if r.Some? {
        var p: nat :| p < |ess[i]| && ess[i][p] == r.value;
        SameKeySameEntry(ess[i], p, q);
      }
    }
    if r.Some? {
      var p: nat :| p < |ess[i]| && ess[i][p] == r.value;
    }
  }

  // ---------- the whole table ----------

  /** What the table answers: the first level that has the key, in order, and there the newest version. */
  ghost predicate LevelsAnswer(levels: seq<seq<seq<SsTableEntry>>>, key: Key, r: Option<SsTableEntry>) {
    if levels == [] then r == None
    else if Occurs(levels[0], key) then Newest(levels[0], key, r)
    else LevelsAnswer(levels[1..], key, r)
  }

  /** Level by level: an answer comes from the first level that has the key, and no answer means that none has. */
  lemma {:induction false} LevelsAnswerIff(levels: seq<seq<seq<SsTableEntry>>>, key: Key, r: Option<SsTableEntry>)
    ensures LevelsAnswer(levels, key, r) <==>
            if exists i :: 0 <= i < |levels| && Occurs(levels[i], key)
            then exists i :: 0 <= i < |levels| && Newest(levels[i], key, r) && Occurs(levels[i], key)
                             && forall j :: 0 <= j < i ==> !Occurs(levels[j], key)
            else r == None
  {
    hide Newest, Occurs;
    if levels != [] {
      var rest := levels[1..];
      LevelsAnswerIff(rest, key, r);
      assert forall i :: 0 < i < |levels| ==> levels[i] == rest[i - 1];
      if !Occurs(levels[0], key) {
        if i :| 0 <= i < |rest| && Newest(rest[i], key, r) && Occurs(rest[i], key) && forall j :: 0 <= j < i ==> !Occurs(rest[j], key) {
          assert Newest(levels[i + 1], key, r) && Occurs(levels[i + 1], key);
        }
        if i :| 0 <= i < |levels| && Newest(levels[i], key, r) && Occurs(levels[i], key) && forall j :: 0 <= j < i ==> !Occurs(levels[j], key) {
          assert Newest(rest[i - 1], key, r) && Occurs(rest[i - 1], key);
          assert forall j :: 0 <= j < i - 1 ==> rest[j] == levels[j + 1];
        }
        if i :| 0 <= i < |rest| && Occurs(rest[i], key) {
          assert Occurs(levels[i + 1], key);
        }
      }
    }
  }

  ghost predicate LevelsHold(levels: seq<seq<Segment>>, data: seq<seq<seq<SsTableEntry>>>) {
    |levels| == |data| && forall i :: 0 <= i < |levels| ==> AllHold(levels[i], data[i]) && Partitioned(levels[i])
  }

  /** A lookup in a snapshot of the levels. */
  method TableGet(levelZero: seq<Segment>, partitioned: seq<seq<Segment>>, key: Key,
                  ghost zero: seq<seq<SsTableEntry>>,
                  ghost higher: seq<seq<seq<SsTableEntry>>>) returns (res: GetResult)
    ensures AllHold(levelZero, zero) && LevelsHold(partitioned, higher) ==> res.Found? && LevelsAnswer([zero] + higher, key, res.entry)
  {
    hide Less, AllHold, Newest, Occurs, Partitioned;
    ghost var proper := AllHold(levelZero, zero) && LevelsHold(partitioned, higher);
    var first := OverlappingGet(levelZero, key, zero);
    assert ([zero] + higher)[1..] == higher;
    if first.GetPanicked? {
      return first;
    }
    if proper {
      NewestOccurs(zero, key, first.entry);
    }
    if first.entry.Some? {
      return first;
    }
    assert proper ==> higher[0..] == higher;
    for i := 0 to |partitioned|
      invariant proper ==> forall r :: LevelsAnswer(higher[i..], key, r) ==> LevelsAnswer(higher, key, r)
    {
      ghost var ess: seq<seq<SsTableEntry>> := if proper then higher[i] else [];
      var found := PartitionedGet(partitioned[i], key, ess);
      if found.GetPanicked? {
        return found;
      }
      if proper {
        NewestOccurs(ess, key, found.entry);
        assert higher[i..][1..] == higher[i + 1..];
      }
      if found.entry.Some? {
        return found;
      }
    }
    return Found(None);
  }

  lemma {:induction false} NewestOccurs(ess: seq<seq<SsTableEntry>>, key: Key, r: Option<SsTableEntry>)
    requires Newest(ess, key, r)
    ensures r.Some? <==> Occurs(ess, key)
  {
  }

  // ---------- merging into a partitioned level ----------

  predicate Touched(s: Segment, incoming: seq<Segment>) {
    exists i :: 0 <= i < |incoming| && Overlaps(s, incoming[i])
  }

  /** The segments of the level that are (or are not) touched, in their order. */
  function Select(level: seq<Segment>, incoming: seq<Segment>, touched: bool): seq<Segment> {
    if level == [] then []
    else
      var n := |level| - 1;
      Select(level[..n], incoming, touched) + if Touched(level[n], incoming) == touched then [level[n]] else []
  }

  lemma {:induction false} SelectMembers(level: seq<Segment>, incoming: seq<Segment>, touched: bool, s: Segment)
    ensures s in Select(level, incoming, touched) <==> s in level && Touched(s, incoming) == touched
  {
    if level != [] {
      var n := |level| - 1;
      SelectMembers(level[..n], incoming, touched, s);
      assert level == level[..n] + [level[n]];
    }
  }

  lemma {:induction false} SelectPicks(level: seq<Segment>, incoming: seq<Segment>, touched: bool)
    returns (at: seq<nat>)
    ensures PickedAt(level, at, Select(level, incoming, touched))
    ensures forall i: nat :: i < |level| ==> (i in at <==> Touched(level[i], incoming) == touched)
    decreases |level|
  {
    hide Touched, PickedAt, Select;
    at := [];
    if level == [] {
      NothingPicked(level, incoming, touched);
    } else {
      var n := |level| - 1;
      at := SelectPicks(level[..n], incoming, touched);
      assert level == level[..n] + [level[n]];
      PickedNext(level[..n], at, Select(level[..n], incoming, touched), level[n]);
      SelectLast(level, incoming, touched);
      if Touched(level[n], incoming) == touched {
        at := at + [n];
      }
    }
  }

  lemma {:induction false} NothingPicked(level: seq<Segment>, incoming: seq<Segment>, touched: bool)
    requires level == []
    ensures PickedAt(level, [], Select(level, incoming, touched))
  {
  }

  lemma {:induction false} SelectLast(level: seq<Segment>, incoming: seq<Segment>, touched: bool)
    requires level != []
    ensures
      var n := |level| - 1;
      Select(level, incoming, touched) ==
      if Touched(level[n], incoming) == touched then Select(level[..n], incoming, touched) + [level[n]]
      else Select(level[..n], incoming, touched)
  {
    hide Touched;
  }

  lemma {:induction false} SelectSplits(level: seq<Segment>, incoming: seq<Segment>)
    ensures multiset(Select(level, incoming, true)) + multiset(Select(level, incoming, false)) == multiset(level)
    decreases |level|
  {
    hide Touched;
    if level != [] {
      var n := |level| - 1;
      SelectSplits(level[..n], incoming);
      assert level == level[..n] + [level[n]];
    }
  }

  /** The segments at exactly the positions that are (or are not) in reach of an incoming one, each once and in order. */
  ghost predicate Splits(level: seq<Segment>, incoming: seq<Segment>, touched: bool, part: seq<Segment>) {
    exists at: seq<nat> ::
      && PickedAt(level, at, part)
      && forall i: nat :: i < |level| ==>
           (i in at <==> ((exists j :: 0 <= j < |incoming| && Overlaps(level[i], incoming[j])) <==> touched))
  }

  lemma {:induction false} SelectIsSplit(level: seq<Segment>, incoming: seq<Segment>, touched: bool)
    ensures Splits(level, incoming, touched, Select(level, incoming, touched))
  {
    hide Select, PickedAt, Overlaps;
    var at := SelectPicks(level, incoming, touched);
  }

  /** The two nested loops that split a level: every segment goes to one side, once, and in its order. */
  method Classify(level: seq<Segment>, incoming: seq<Segment>) returns (merging: seq<Segment>, untouched: seq<Segment>)
    ensures merging == Select(level, incoming, true) && untouched == Select(level, incoming, false)
    ensures Splits(level, incoming, true, merging) && Splits(level, incoming, false, untouched)
    ensures multiset(merging) + multiset(untouched) == multiset(level)
  {
    hide Overlaps, Splits;
    SelectIsSplit(level, incoming, true);
    SelectIsSplit(level, incoming, false);
    SelectSplits(level, incoming);
    merging, untouched := [], [];
    assert level[..0] == [];
    for i := 0 to |level|
      invariant merging == Select(level[..i], incoming, true) && untouched == Select(level[..i], incoming, false)
    {
      assert level[..i + 1][..i] == level[..i];
      var overlaps := false;
      for j := 0 to |incoming|
        invariant !overlaps
        invariant forall k :: 0 <= k < j ==> !Overlaps(level[i], incoming[k])
      {
        if Overlaps(level[i], incoming[j]) {
          overlaps := true;
          break;
        }
      }
      assert overlaps == Touched(level[i], incoming);
      if overlaps {
        merging := merging + [level[i]];
      } else {
        untouched := untouched + [level[i]];
      }
    }
    assert level[..|level|] == level;
  }

  /** `key` lies between the least first key and the greatest last key of the segments. */
  ghost predicate InHull(segments: seq<Segment>, key: Key) {
    exists s, t :: s in segments && t in segments && AtMost(s.firstKey, key) && AtMost(key, t.lastKey)
  }

  ghost predicate OutsideHull(segments: seq<Segment>, s: Segment) {
    forall key :: InHull(segments, key) ==> !Contains(s, key)
  }

  /** Where a merge may put its output: the keys it reads lie in the hull. */
  ghost predicate InsideHull(segments: seq<Segment>, replacements: seq<Segment>) {
    forall t :: t in replacements ==> InHull(segments, t.firstKey) && InHull(segments, t.lastKey)
  }

  /** A segment left of `t` and disjoint from `u`, which overlaps `t`, is left of `u` too. */
  lemma {:induction false} StaysLeft(s: Segment, t: Segment, u: Segment)
    requires AtMost(s.firstKey, s.lastKey) && Less(s.lastKey, t.firstKey)
    requires Overlaps(u, t) && !Overlaps(s, u)
    ensures Less(s.lastKey, u.firstKey)
  {
    hide Less;
    AtMostIsNotAbove(u.firstKey, s.lastKey);
    AtMostIsNotAbove(s.firstKey, u.lastKey);
    if Less(u.lastKey, s.firstKey) {
      AtMostTransitive(u.lastKey, s.firstKey, s.lastKey);
      LessTransitive(u.lastKey, s.lastKey, t.firstKey);
      AtMostIsNotAbove(t.firstKey, u.lastKey);
    }
  }

  lemma {:induction false} StaysRight(s: Segment, t: Segment, u: Segment)
    requires AtMost(s.firstKey, s.lastKey) && Less(t.lastKey, s.firstKey)
    requires Overlaps(u, t) && !Overlaps(s, u)
    ensures Less(u.lastKey, s.firstKey)
  {
    hide Less;
    AtMostIsNotAbove(u.firstKey, s.lastKey);
    AtMostIsNotAbove(s.firstKey, u.lastKey);
    if Less(s.lastKey, u.firstKey) {
      AtMostTransitive(s.firstKey, s.lastKey, u.firstKey);
      LessTransitive(t.lastKey, s.firstKey, u.firstKey);
      AtMostIsNotAbove(u.firstKey, t.lastKey);
    }
  }

  /** With one incoming segment, every untouched one lies outside the hull of what is merged. */
  lemma {:induction false} SingleIncomingClearsHull(level: seq<Segment>, t: Segment, s: Segment)
    requires Partitioned(level) && s in Select(level, [t], false)
    ensures OutsideHull(Select(level, [t], true) + [t], s)
  {
    hide Less, AtMost, Overlaps, Select;
    SelectMembers(level, [t], false, s);
    var merged := Select(level, [t], true) + [t];
    assert !Overlaps(s, [t][0]);
    NotOverlapping(s, t);
    var i: nat :| i < |level| && level[i] == s;
    forall key | InHull(merged, key) ensures !Contains(s, key) {
      var a, b :| a in merged && b in merged && AtMost(a.firstKey, key) && AtMost(key, b.lastKey);
      if Less(s.lastKey, t.firstKey) {
        if a != t {
          DisjointFrom(level, t, s, a);
          StaysLeft(s, t, a);
        }
        AtMostIsNotAbove(key, s.lastKey);
        LessThenAtMost(s.lastKey, a.firstKey, key);
      } else {
        if b != t {
          DisjointFrom(level, t, s, b);
          StaysRight(s, t, b);
        }
        AtMostIsNotAbove(s.firstKey, key);
        AtMostThenLess(key, b.lastKey, s.firstKey);
      }
    }
  }

  lemma {:induction false} NotOverlapping(s: Segment, t: Segment)
    requires !Overlaps(s, t)
    ensures Less(s.lastKey, t.firstKey) || Less(t.lastKey, s.firstKey)
  {
    hide Less, AtMost;
    AtMostIsNotAbove(t.firstKey, s.lastKey);
    AtMostIsNotAbove(s.firstKey, t.lastKey);
  }

  /** A touched and an untouched segment of a partitioned level. */
  lemma {:induction false} DisjointFrom(level: seq<Segment>, t: Segment, s: Segment, u: Segment)
    requires Partitioned(level) && s in level && !Overlaps(s, t) && u in Select(level, [t], true)
    ensures Overlaps(u, t) && !Overlaps(s, u) && AtMost(s.firstKey, s.lastKey)
  {
    hide Less, AtMost, Overlaps, Select;
    SelectMembers(level, [t], true, u);
    assert Overlaps(u, t);
    var i: nat :| i < |level| && level[i] == s;
    var j: nat :| j < |level| && level[j] == u;
    OverlapsIff(s, u);
  }

  /**
   * Replacing what is merged by disjoint segments within its hull keeps the level partitioned, whatever they are,
   * exactly when no untouched segment reaches into the hull.
   */
  lemma {:induction false} KeepsPartitionIff(merging: seq<Segment>, untouched: seq<Segment>)
    requires Partitioned(untouched)
    ensures (forall replacements :: Partitioned(replacements) && InsideHull(merging, replacements) ==> Partitioned(replacements + untouched))
            <==> (forall s :: s in untouched ==> OutsideHull(merging, s))
  {
    hide Less, AtMost, Overlaps, OutsideHull, InsideHull;
    if forall s :: s in untouched ==> OutsideHull(merging, s) {
      forall replacements | Partitioned(replacements) && InsideHull(merging, replacements)
        ensures Partitioned(replacements + untouched)
      {
        ReplacementsFit(merging, untouched, replacements);
      }
    } else {
      var s :| s in untouched && !OutsideHull(merging, s);
      var r := ReachingReplacement(merging, untouched, s);
      assert !(Partitioned(r) && InsideHull(merging, r) ==> Partitioned(r + untouched));
    }
  }

  lemma {:induction false} ReplacementsFit(merging: seq<Segment>, untouched: seq<Segment>, replacements: seq<Segment>)
    requires Partitioned(untouched) && Partitioned(replacements) && InsideHull(merging, replacements)
    requires forall s :: s in untouched ==> OutsideHull(merging, s)
    ensures Partitioned(replacements + untouched)
  {
    hide Less, AtMost, Overlaps, OutsideHull, InHull, Contains;
    var all := replacements + untouched;
    forall i, j | 0 <= i < j < |all| ensures !Overlaps(all[i], all[j]) {
      if i < |replacements| <= j {
        var t, s := replacements[i], untouched[j - |replacements|];
        OverlapsIff(t, s);
        forall key | Contains(t, key) ensures !Contains(s, key) {
          HullIsConvex(merging, t, key);
          NotInside(merging, s, key);
        }
      }
    }
  }

  lemma {:induction false} NotInside(merging: seq<Segment>, s: Segment, key: Key)
    requires OutsideHull(merging, s) && InHull(merging, key)
    ensures !Contains(s, key)
  {
    hide InHull, Contains;
  }

  lemma {:induction false} HullIsConvex(merging: seq<Segment>, t: Segment, key: Key)
    requires InHull(merging, t.firstKey) && InHull(merging, t.lastKey) && Contains(t, key)
    ensures InHull(merging, key)
  {
    hide Less, AtMost;
    var a, x :| a in merging && x in merging && AtMost(a.firstKey, t.firstKey) && AtMost(t.firstKey, x.lastKey);
    var y, b :| y in merging && b in merging && AtMost(y.firstKey, t.lastKey) && AtMost(t.lastKey, b.lastKey);
    AtMostTransitive(a.firstKey, t.firstKey, key);
    AtMostTransitive(key, t.lastKey, b.lastKey);
  }

  /** One key of the hull inside an untouched segment is enough for a replacement that overlaps it. */
  lemma {:induction false} ReachingReplacement(merging: seq<Segment>, untouched: seq<Segment>,
                                               s: Segment) returns (r: seq<Segment>)
    requires Partitioned(untouched) && s in untouched && !OutsideHull(merging, s)
    ensures Partitioned(r) && InsideHull(merging, r) && !Partitioned(r + untouched)
  {
    hide Less, InHull;
    var key :| InHull(merging, key) && Contains(s, key);
    var t := Segment([], 0, NO_INDEX, 0, 0, key, key);
    r := [t];
    var j: nat :| j < |untouched| && untouched[j] == s;
    assert (r + untouched)[0] == t && (r + untouched)[j + 1] == s;
    assert Overlaps(t, s);
  }

  /** With two incoming segments an untouched one can lie between them, inside the hull. */
  lemma {:induction false} TwoIncomingCanReach() returns (level: seq<Segment>, incoming: seq<Segment>, s: Segment)
    ensures Partitioned(level) && Partitioned(incoming) && |incoming| == 2
    ensures s in Select(level, incoming, false) && !OutsideHull(Select(level, incoming, true) + incoming, s)
  {
    hide Less, Select;
    s := Segment([], 0, NO_INDEX, 0, 0, [5], [6]);
    level := [s];
    incoming := [Segment([], 1, NO_INDEX, 0, 0, [1], [2]), Segment([], 2, NO_INDEX, 0, 0, [9], [10])];
    SingleByteLess(5, 6);
    SingleByteLess(1, 2);
    SingleByteLess(9, 10);
    SingleByteLess(9, 2);
    SingleByteLess(1, 5);
    SingleByteLess(5, 10);
    SingleByteLess(5, 2);
    SingleByteLess(9, 6);
    assert !Overlaps(s, incoming[0]) && !Overlaps(s, incoming[1]) && !Overlaps(incoming[0], incoming[1]);
    SelectMembers(level, incoming, false, s);
    var merged := Select(level, incoming, true) + incoming;
    assert incoming[0] in merged && incoming[1] in merged;
    assert InHull(merged, [5]);
  }
}
