/** One call of the k-way merge, loop by loop. */
module MergeSort {
  import opened Bytes
  import opened Options
  import opened Sorting
  import opened SsTableEntries
  import opened SsTableSegment
  import opened MergeSpec

  /** The first key of queue `i`. */
  function First(bufs: seq<Queue>, i: nat): Key {
    if i < |bufs| then Front(bufs[i]) else []
  }

  function Last(bufs: seq<Queue>, i: nat): Key {
    if i < |bufs| then Back(bufs[i]) else []
  }

  /** The first key that the listed queues share. */
  function KeyOf(bufs: seq<Queue>, listed: seq<nat>): Key {
    if listed == [] then [] else First(bufs, listed[0])
  }

  ghost predicate SomeOf(bufs: seq<Queue>, among: set<nat>, listed: seq<nat>, k: Key) {
    && Distinct(listed)
    && (forall x :: x in listed ==> x in among && First(bufs, x) == k)
  }

  ghost predicate AllOf(bufs: seq<Queue>, among: set<nat>, listed: seq<nat>, k: Key) {
    && SomeOf(bufs, among, listed, k)
    && (forall j :: j in among && First(bufs, j) == k ==> j in listed)
  }

  /** `curr` lists exactly the queues of `among` with the lowest first key. */
  ghost predicate Lowest(bufs: seq<Queue>, among: set<nat>, curr: seq<nat>) {
    && (curr == [] <==> among == {})
    && (curr != [] ==> AllOf(bufs, among, curr, KeyOf(bufs, curr)))
    && (forall j :: j in among ==> AtMost(KeyOf(bufs, curr), First(bufs, j)))
  }

  /** `next` lists exactly the queues of `among` with the lowest first key above `k`, if that is within `limit`. */
  ghost predicate Following(bufs: seq<Queue>, among: set<nat>, k: Key, next: seq<nat>, limit: Key) {
    && (next != [] ==> Less(k, KeyOf(bufs, next)) && SomeOf(bufs, among, next, KeyOf(bufs, next)))
    && (next != [] && AtMost(KeyOf(bufs, next), limit) ==> AllOf(bufs, among, next, KeyOf(bufs, next)))
    && (forall j :: j in among && Less(k, First(bufs, j)) && AtMost(First(bufs, j), limit) ==>
                      next != [] && AtMost(KeyOf(bufs, next), First(bufs, j)))
  }

  /** The smallest last key of the visited queues; empty before any visit. */
  ghost predicate HorizonOf(bufs: seq<Queue>, among: set<nat>, h: Key) {
    && (h == [] <==> among == {})
    && (among != {} ==> exists m :: m in among && Last(bufs, m) == h)
    && (forall l :: l in among ==> AtMost(h, Last(bufs, l)))
  }

  lemma {:induction false} HorizonVisit(bufs: seq<Queue>, among: set<nat>, h: Key, i: nat)
    requires i !in among && HorizonOf(bufs, among, h) && Last(bufs, i) != []
    ensures
      var h' := if h == [] || Less(Last(bufs, i), h) then Last(bufs, i) else h;
      HorizonOf(bufs, among + {i}, h') && (h != [] ==> AtMost(h', h))
  {
    hide Less, AtMost, Last;
    AtMostIsNotAbove(h, Last(bufs, i));
    AtMostReflexive(Last(bufs, i));
    AtMostReflexive(h);
    if h != [] && Less(Last(bufs, i), h) {
      LessIsAtMost(Last(bufs, i), h);
      forall l | l in among ensures AtMost(Last(bufs, i), Last(bufs, l)) {
        AtMostTransitive(Last(bufs, i), h, Last(bufs, l));
      }
    }
  }

  /** One visit of the first loop: where queue `i` goes, given the smallest last key so far. */
  function Visit(bufs: seq<Queue>, curr: seq<nat>, next: seq<nat>, limit: Key, i: nat): (seq<nat>, seq<nat>) {
    var key := First(bufs, i);
    if curr == [] then ([i], next)
    else if AtMost(key, KeyOf(bufs, curr)) then
      if KeyOf(bufs, curr) != key then ([i], curr) else (curr + [i], next)
    else if AtMost(key, limit) then (curr, PushNext(bufs, next, i))
    else (curr, next)
  }

  function PushNext(bufs: seq<Queue>, next: seq<nat>, i: nat): seq<nat> {
    var key := First(bufs, i);
    var push := next == [] || AtMost(key, KeyOf(bufs, next));
    var clear := next != [] && Less(key, KeyOf(bufs, next));
    if clear then [i] else if push then next + [i] else next
  }

  lemma {:induction false} SomeOfSnoc(bufs: seq<Queue>, among: set<nat>, listed: seq<nat>, k: Key, i: nat)
    requires i !in among && SomeOf(bufs, among, listed, k)
    ensures SomeOf(bufs, among + {i}, listed, k)
    ensures First(bufs, i) == k ==> SomeOf(bufs, among + {i}, listed + [i], k)
  {
    hide First;
  }

  lemma {:induction false} AllIsSome(bufs: seq<Queue>, among: set<nat>, listed: seq<nat>, k: Key)
    requires AllOf(bufs, among, listed, k)
    ensures SomeOf(bufs, among, listed, k)
  {
  }

  lemma {:induction false} AllOfSnoc(bufs: seq<Queue>, among: set<nat>, listed: seq<nat>, k: Key, i: nat)
    requires i !in among && AllOf(bufs, among, listed, k)
    ensures First(bufs, i) == k ==> AllOf(bufs, among + {i}, listed + [i], k)
    ensures First(bufs, i) != k ==> AllOf(bufs, among + {i}, listed, k)
  {
    hide First;
  }

  lemma {:induction false} AllOfOne(bufs: seq<Queue>, among: set<nat>, i: nat)
    requires i !in among && forall j :: j in among ==> First(bufs, j) != First(bufs, i)
    ensures AllOf(bufs, among + {i}, [i], First(bufs, i))
  {
    hide First;
  }

  lemma {:induction false} VisitLowest(bufs: seq<Queue>, among: set<nat>, curr: seq<nat>, next: seq<nat>, limit: Key,
                                       i: nat)
    requires i !in among && Lowest(bufs, among, curr)
    ensures Lowest(bufs, among + {i}, Visit(bufs, curr, next, limit, i).0)
  {
    hide Less, First, AllOf, SomeOf;
    var key, k := First(bufs, i), KeyOf(bufs, curr);
    AtMostIsNotAbove(key, k);
    LessIrreflexive(key);
    if curr == [] {
      AllOfOne(bufs, among, i);
    } else {
      AllOfSnoc(bufs, among, curr, k, i);
      if Less(key, k) {
        forall j | j in among ensures AtMost(key, First(bufs, j)) && First(bufs, j) != key {
          AtMostTransitive(key, k, First(bufs, j));
        }
        AllOfOne(bufs, among, i);
      }
    }
  }

  /** Where the queues of the next key are after a visit. */
  lemma {:induction false} VisitFollowing(bufs: seq<Queue>, among: set<nat>, curr: seq<nat>, next: seq<nat>, h: Key,
                                          limit: Key, i: nat)
    requires i !in among && Lowest(bufs, among, curr) && (curr != [] ==> AtMost(limit, h))
    requires Following(bufs, among, KeyOf(bufs, curr), next, h) && (curr == [] ==> next == [])
    ensures var (curr', next') := Visit(bufs, curr, next, limit, i);
            Following(bufs, among + {i}, KeyOf(bufs, curr'), next', limit)
  {
    hide Less, First, AllOf, SomeOf, PushNext;
    var key, k := First(bufs, i), KeyOf(bufs, curr);
    AtMostIsNotAbove(key, k);
    LessIrreflexive(key);
    if curr != [] {
      PushFollowing(bufs, among, k, next, h, limit, i);
      if Less(key, k) {
        AllOfSnoc(bufs, among, curr, k, i);
        AllIsSome(bufs, among + {i}, curr, k);
      }
    }
  }

  /** Offering one more queue to the list of the next key. */
  lemma {:induction false} PushFollowing(bufs: seq<Queue>, among: set<nat>, k: Key, next: seq<nat>, h: Key, limit: Key,
                                         i: nat)
    requires i !in among && AtMost(limit, h) && Following(bufs, among, k, next, h)
    ensures
      var key := First(bufs, i);
      Following(bufs, among + {i}, k, if Less(k, key) && AtMost(key, limit) then PushNext(bufs, next, i) else next, limit)
  {
    hide Less, First, AllOf, SomeOf;
    var key, n := First(bufs, i), KeyOf(bufs, next);
    AtMostIsNotAbove(n, key);
    LessIrreflexive(key);
    forall j | j in among && AtMost(First(bufs, j), limit) ensures AtMost(First(bufs, j), h) {
      AtMostTransitive(First(bufs, j), limit, h);
    }
    if next != [] {
      SomeOfSnoc(bufs, among, next, n, i);
      if AtMost(n, limit) {
        AtMostTransitive(n, limit, h);
        AllOfSnoc(bufs, among, next, n, i);
      }
    }
    if Less(k, key) && AtMost(key, limit) && (next == [] || Less(key, n)) {
      NewNext(bufs, among, k, next, h, limit, i);
      assert next == [] ==> next + [i] == [i];
    }
  }

  lemma {:induction false} NewNext(bufs: seq<Queue>, among: set<nat>, k: Key, next: seq<nat>, h: Key, limit: Key,
                                   i: nat)
    requires i !in among && AtMost(limit, h) && Following(bufs, among, k, next, h)
    requires Less(k, First(bufs, i)) && AtMost(First(bufs, i), limit)
    requires next == [] || Less(First(bufs, i), KeyOf(bufs, next))
    ensures Following(bufs, among + {i}, k, [i], limit)
  {
    hide Less, First, AllOf, SomeOf;
    var key := First(bufs, i);
    forall j | j in among && Less(k, First(bufs, j)) && AtMost(First(bufs, j), h)
      ensures Less(key, First(bufs, j))
    {
      AtMostTransitive(key, KeyOf(bufs, next), First(bufs, j));
    }
    forall j | j in among && Less(k, First(bufs, j)) && AtMost(First(bufs, j), limit)
      ensures Less(key, First(bufs, j))
    {
      AtMostTransitive(First(bufs, j), limit, h);
    }
    forall j | j in among ensures First(bufs, j) != key {
      AtMostTransitive(key, limit, h);
      LessIrreflexive(key);
    }
    AllOfOne(bufs, among, i);
    AllIsSome(bufs, among + {i}, [i], key);
  }

  /** The queues that start within the horizon. */
  function Live(bufs: seq<Queue>, h: Key): set<nat> {
    set i: nat | i < |bufs| && AtMost(First(bufs, i), h)
  }

  function Indices(bufs: seq<Queue>): set<nat> {
    set i: nat {:trigger bufs[i]} | i < |bufs|
  }

  lemma {:induction false} StartEmpty(bufs: seq<Queue>)
    ensures HorizonOf(bufs, {}, []) && Lowest(bufs, {}, []) && Following(bufs, {}, KeyOf(bufs, []), [], [])
  {
  }

  /** The assignments of one visit amount to `Visit`, and keep what is known of the two lists. */
  lemma {:induction false} VisitStep(bufs: seq<Queue>, among: set<nat>, curr: seq<nat>, next: seq<nat>, h: Key,
                                     limit: Key, i: nat)
    requires i !in among && HorizonOf(bufs, among, h) && Last(bufs, i) != []
    requires limit == if h == [] || Less(Last(bufs, i), h) then Last(bufs, i) else h
    requires Lowest(bufs, among, curr) && Following(bufs, among, KeyOf(bufs, curr), next, h) && (curr == [] ==> next == [])
    ensures HorizonOf(bufs, among + {i}, limit)
    ensures var (curr', next') := Visit(bufs, curr, next, limit, i);
            Lowest(bufs, among + {i}, curr') && Following(bufs, among + {i}, KeyOf(bufs, curr'), next', limit) && curr' != []
  {
    hide Less, First, Last, Following, AllOf, SomeOf;
    HorizonVisit(bufs, among, h, i);
    VisitLowest(bufs, among, curr, next, limit, i);
    VisitFollowing(bufs, among, curr, next, h, limit, i);
  }

  lemma {:induction false} HorizonFound(bufs: seq<Queue>, h: Key)
    requires bufs != [] && HorizonOf(bufs, Indices(bufs), h)
    ensures IsHorizon(bufs, h)
  {
    hide Less, AtMost;
    assert 0 in Indices(bufs);
    var m :| m in Indices(bufs) && Last(bufs, m) == h;
    assert Back(bufs[m]) == h;
    forall l | 0 <= l < |bufs| ensures AtMost(h, Back(bufs[l])) {
      assert l in Indices(bufs) && Last(bufs, l) == Back(bufs[l]);
    }
  }

  /** Every queue of the lowest first key starts within the horizon. */
  lemma {:induction false} LowestLive(bufs: seq<Queue>, h: Key, curr: seq<nat>)
    requires bufs != [] && Ready(bufs) && IsHorizon(bufs, h) && Lowest(bufs, Indices(bufs), curr)
    ensures Lowest(bufs, Live(bufs, h), curr) && curr != []
  {
    hide Less, Back;
    assert 0 in Indices(bufs);
    var k := KeyOf(bufs, curr);
    var m: nat :| m < |bufs| && Back(bufs[m]) == h;
    FrontBelowBack(bufs[m]);
    assert m in Indices(bufs);
    AtMostTransitive(k, First(bufs, m), h);
    assert forall x :: x in curr ==> x in Indices(bufs) && First(bufs, x) == k;
    assert curr[0] in Live(bufs, h);
  }

  lemma {:induction false} FollowingLive(bufs: seq<Queue>, h: Key, k: Key, next: seq<nat>)
    requires Following(bufs, Indices(bufs), k, next, h)
    ensures next == [] || AtMost(KeyOf(bufs, next), h) ==> Following(bufs, Live(bufs, h), k, next, h)
    ensures next == [] || AtMost(KeyOf(bufs, next), h) ==> forall x :: x in next ==> x in Live(bufs, h)
    ensures next != [] && !AtMost(KeyOf(bufs, next), h) ==> Following(bufs, Live(bufs, h), k, [], h)
    ensures next != [] && !AtMost(KeyOf(bufs, next), h) ==> forall x :: x in next ==> x !in Live(bufs, h)
  {
    hide Less, AtMost;
    var n := KeyOf(bufs, next);
    if next != [] && !AtMost(n, h) {
      forall j | j in Live(bufs, h) && Less(k, First(bufs, j)) && AtMost(First(bufs, j), h) ensures false {
        assert j in Indices(bufs);
        AtMostTransitive(n, First(bufs, j), h);
      }
    }
  }

  /** Keeps the listed queues that are still in the map. */
  method KeepLive(live: set<nat>, next: seq<nat>) returns (kept: seq<nat>)
    ensures (forall x :: x in next ==> x in live) ==> kept == next
    ensures (forall x :: x in next ==> x !in live) ==> kept == []
  {
    kept := [];
    assert next[..0] == [];
    for i := 0 to |next|
      invariant (forall x :: x in next ==> x in live) ==> kept == next[..i]
      invariant (forall x :: x in next ==> x !in live) ==> kept == []
    {
      assert next[..i + 1] == next[..i] + [next[i]] && next[i] in next;
      if next[i] in live {
        kept := kept + [next[i]];
      }
    }
    assert next[..|next|] == next;
  }

  /** The first loop over the queues, in whatever order the hash map yields them, and the filtering after it. */
  method Prepare(bufs: seq<Queue>) returns (smallestFinalKey: Key, live: set<nat>, curr: seq<nat>, next: seq<nat>)
    requires bufs != [] && Ready(bufs)
    ensures IsHorizon(bufs, smallestFinalKey)
    ensures live == Live(bufs, smallestFinalKey)
    ensures Lowest(bufs, live, curr) && curr != []
    ensures Following(bufs, live, KeyOf(bufs, curr), next, smallestFinalKey)
  {
    hide Less, AtMost, First, Last, Lowest, Following, HorizonOf, IsHorizon, Live;
    smallestFinalKey, curr, next := [], [], [];
    ghost var visited: set<nat> := {};
    var left := Indices(bufs);
    StartEmpty(bufs);
    while left != {}
      invariant left + visited == Indices(bufs) && left !! visited
      invariant HorizonOf(bufs, visited, smallestFinalKey)
      invariant Lowest(bufs, visited, curr) && (curr == [] ==> next == [])
      invariant Following(bufs, visited, KeyOf(bufs, curr), next, smallestFinalKey)
      decreases left
    {
      var i: nat :| i in left;
      left := left - {i};
      LastNonEmpty(bufs, i);
      ghost var before, c, n := smallestFinalKey, curr, next;
      if smallestFinalKey == [] || Less(Last(bufs, i), smallestFinalKey) {
        smallestFinalKey := Last(bufs, i);
      }
      VisitStep(bufs, visited, curr, next, before, smallestFinalKey, i);
      var key := First(bufs, i);
      if curr == [] {
        curr := curr + [i];
      } else if AtMost(key, KeyOf(bufs, curr)) {
        if KeyOf(bufs, curr) != key {
          curr, next := next, curr;
          curr := [];
        }
        curr := curr + [i];
      } else if AtMost(key, smallestFinalKey) {
        var push := next == [] || AtMost(key, KeyOf(bufs, next));
        var clear := next != [] && Less(key, KeyOf(bufs, next));
        if clear {
          LessIsAtMost(key, KeyOf(bufs, next));
          next := [];
        }
        if push {
          next := next + [i];
        }
      }
      ghost var v := Visit(bufs, c, n, smallestFinalKey, i);
      assert curr == v.0 && next == v.1;
      visited := visited + {i};
    }
    assert visited == Indices(bufs);
    HorizonFound(bufs, smallestFinalKey);
    LowestLive(bufs, smallestFinalKey, curr);
    FollowingLive(bufs, smallestFinalKey, KeyOf(bufs, curr), next);
    live := Live(bufs, smallestFinalKey);
    next := KeepLive(live, next);
  }

  lemma {:induction false} LastNonEmpty(bufs: seq<Queue>, i: nat)
    requires Ready(bufs) && i < |bufs|
    ensures Last(bufs, i) != []
  {
  }

  /** The scan for the queues of the key after the current one, in any order of the map. */
  method NextGroup(bufs: seq<Queue>, live: set<nat>, currKey: Key, limit: Key) returns (next: seq<nat>)
    requires forall j :: j in live ==> AtMost(First(bufs, j), limit)
    ensures Following(bufs, live, currKey, next, limit)
  {
    hide Less, AtMost, First, Following;
    next := [];
    var nextKey: Option<Key> := None;
    var left := live;
    ghost var visited: set<nat> := {};
    NothingFollows(bufs, currKey, limit);
    while left != {}
      invariant left + visited == live && left !! visited
      invariant Following(bufs, visited, currKey, next, limit)
      invariant nextKey == if next == [] then None else Some(KeyOf(bufs, next))
      decreases left
    {
      var i: nat :| i in left;
      left := left - {i};
      var key := First(bufs, i);
      AtMostReflexive(limit);
      PushFollowing(bufs, visited, currKey, next, limit, limit, i);
      ghost var before := next;
      var push := Less(currKey, key) && AtMost(key, if nextKey.Some? then nextKey.value else limit);
      var replaceAndClear := Less(currKey, key) && if nextKey.Some? then Less(key, nextKey.value) else AtMost(key, limit);
      if replaceAndClear {
        LessIsAtMost(key, KeyOf(bufs, next));
        nextKey := Some(key);
        next := [];
      }
      if push {
        next := next + [i];
      }
      assert next == if Less(currKey, key) then PushNext(bufs, before, i) else before;
      KeyStays(bufs, before, next, i);
      visited := visited + {i};
    }
    assert visited == live;
  }

  lemma {:induction false} KeyStays(bufs: seq<Queue>, before: seq<nat>, next: seq<nat>, i: nat)
    ensures next == before + [i] && before != [] ==> KeyOf(bufs, next) == KeyOf(bufs, before)
    ensures next == [i] ==> KeyOf(bufs, next) == First(bufs, i)
  {
  }

  lemma {:induction false} NothingFollows(bufs: seq<Queue>, k: Key, limit: Key)
    ensures Following(bufs, {}, k, [], limit)
  {
  }

  // ---------- one group of queues with the same first key ----------

  /** What a group may take: keys within the horizon and below the next group's. */
  predicate Inside(k: Key, h: Key, bound: Option<Key>) {
    AtMost(k, h) && (bound.Some? ==> Less(k, bound.value))
  }

  /** The single queue of a group is drained up to the bound. */
  method DrainOne(buf: Queue, h: Key, bound: Option<Key>) returns (out: Queue, rest: Queue)
    requires bound.Some? ==> AtMost(bound.value, h)
    ensures buf == out + rest
    ensures forall q :: 0 <= q < |out| ==> Inside(out[q].key, h, bound)
    ensures rest != [] ==> !Inside(rest[0].key, h, bound)
  {
    hide Less, AtMost;
    out, rest := [], buf;
    while rest != []
      invariant buf == out + rest
      invariant forall q :: 0 <= q < |out| ==> Inside(out[q].key, h, bound)
      decreases |rest|
    {
      var key := rest[0].key;
      if bound.Some? && Less(key, bound.value) {
        BelowBound(key, bound.value, h);
      }
      if if bound.Some? then Less(key, bound.value) else AtMost(key, h) {
        out, rest := out + [rest[0]], rest[1..];
      } else {
        break;
      }
    }
  }

  lemma {:induction false} BelowBound(k: Key, b: Key, h: Key)
    requires Less(k, b) && AtMost(b, h)
    ensures AtMost(k, h)
  {
    hide Less;
    AtMostTransitive(k, b, h);
  }

  /** The newest of the entries that could come next, None when all fronts lie beyond the horizon. */
  method PotentialNext(bufs: seq<Queue>, h: Key) returns (r: Option<SsTableEntry>)
    ensures r.None? ==> forall i :: 0 <= i < |bufs| && bufs[i] != [] ==> Less(h, Front(bufs[i]))
    ensures r.Some? ==> AtMost(r.value.key, h) && exists i :: 0 <= i < |bufs| && bufs[i] != [] && bufs[i][0] == r.value
    ensures r.Some? ==> forall i :: 0 <= i < |bufs| && bufs[i] != [] ==>
                          AtMost(r.value.key, Front(bufs[i])) && (Front(bufs[i]) == r.value.key ==> bufs[i][0].lsn <= r.value.lsn)
  {
    hide Less;
    r := None;
    for i := 0 to |bufs|
      invariant r.None? ==> forall j :: 0 <= j < i && bufs[j] != [] ==> Less(h, Front(bufs[j]))
      invariant r.Some? ==> AtMost(r.value.key, h) && exists j :: 0 <= j < i && bufs[j] != [] && bufs[j][0] == r.value
      invariant r.Some? ==> forall j :: 0 <= j < i && bufs[j] != [] ==>
                              AtMost(r.value.key, Front(bufs[j])) && (Front(bufs[j]) == r.value.key ==> bufs[j][0].lsn <= r.value.lsn)
    {
      if bufs[i] != [] {
        var entry := bufs[i][0];
        AtMostIsNotAbove(entry.key, h);
        if r.Some? {
          AtMostIsNotAbove(r.value.key, entry.key);
        }
        var replace := if r.Some? then Less(entry.key, r.value.key) || (entry.key == r.value.key && entry.lsn > r.value.lsn)
                       else AtMost(entry.key, h);
        if replace {
          ReplaceNext(bufs, i, h, r, entry);
          r := Some(entry);
        }
      }
    }
  }

  lemma {:induction false} ReplaceNext(bufs: seq<Queue>, n: nat, h: Key, r: Option<SsTableEntry>, entry: SsTableEntry)
    requires n < |bufs|
    requires r.None? ==> AtMost(entry.key, h) && forall j :: 0 <= j < n && bufs[j] != [] ==> Less(h, Front(bufs[j]))
    requires r.Some? ==> AtMost(r.value.key, h) && (Less(entry.key, r.value.key) || (entry.key == r.value.key && entry.lsn > r.value.lsn))
    requires r.Some? ==> forall j :: 0 <= j < n && bufs[j] != [] ==>
                           AtMost(r.value.key, Front(bufs[j])) && (Front(bufs[j]) == r.value.key ==> bufs[j][0].lsn <= r.value.lsn)
    ensures AtMost(entry.key, h)
    ensures forall j :: 0 <= j < n && bufs[j] != [] ==>
              AtMost(entry.key, Front(bufs[j])) && (Front(bufs[j]) == entry.key ==> bufs[j][0].lsn <= entry.lsn)
  {
    hide Less;
    if r.Some? {
      AtMostTransitive(entry.key, r.value.key, h);
    }
    forall j | 0 <= j < n && bufs[j] != []
      ensures AtMost(entry.key, Front(bufs[j])) && (Front(bufs[j]) == entry.key ==> bufs[j][0].lsn <= entry.lsn)
    {
      LessIrreflexive(entry.key);
      AtMostTransitive(entry.key, if r.Some? then r.value.key else h, Front(bufs[j]));
    }
  }

  function PopEqual(q: Queue, key: Key): Queue {
    if q != [] && q[0].key == key then q[1..] else q
  }

  method PopAllEqual(bufs: seq<Queue>, key: Key) returns (rest: seq<Queue>)
    ensures |rest| == |bufs| && forall i :: 0 <= i < |bufs| ==> rest[i] == PopEqual(bufs[i], key)
  {
    rest := bufs;
    for i := 0 to |bufs|
      invariant |rest| == |bufs|
      invariant forall j :: 0 <= j < i ==> rest[j] == PopEqual(bufs[j], key)
      invariant forall j :: i <= j < |bufs| ==> rest[j] == bufs[j]
    {
      if rest[i] != [] && rest[i][0].key == key {
        rest := rest[i := rest[i][1..]];
      }
    }
  }

  function TotalLength(bufs: seq<Queue>): nat {
    if bufs == [] then 0 else |bufs[0]| + TotalLength(bufs[1..])
  }

  lemma {:induction false} PopShortens(bufs: seq<Queue>, rest: seq<Queue>, key: Key)
    requires |rest| == |bufs| && forall i :: 0 <= i < |bufs| ==> rest[i] == PopEqual(bufs[i], key)
    ensures TotalLength(rest) <= TotalLength(bufs)
    ensures (exists i :: 0 <= i < |bufs| && bufs[i] != [] && Front(bufs[i]) == key) ==> TotalLength(rest) < TotalLength(bufs)
  {
    if bufs != [] {
      PopShortens(bufs[1..], rest[1..], key);
      if i :| 0 <= i < |bufs| && bufs[i] != [] && Front(bufs[i]) == key {
        assert i > 0 ==> bufs[1..][i - 1] == bufs[i];
      }
    }
  }

  /** Between two outputs of a group: everything left lies above what was put out. */
  ghost predicate GroupState(bufs: seq<Queue>, rest: seq<Queue>, out: Queue, h: Key, bound: Option<Key>) {
    && Suffixes(bufs, rest) && Collected(bufs, rest, out)
    && (forall i :: 0 <= i < |rest| && rest[i] != [] && out != [] ==> Less(Back(out), Front(rest[i])))
    && (forall k :: 0 <= k < |out| ==> Inside(out[k].key, h, bound))
  }

  /** `e` may be put out next. */
  ghost predicate IsNext(rest: seq<Queue>, e: SsTableEntry) {
    && (exists m :: 0 <= m < |rest| && rest[m] != [] && rest[m][0] == e)
    && (forall i :: 0 <= i < |rest| && rest[i] != [] ==>
          AtMost(e.key, Front(rest[i])) && (Front(rest[i]) == e.key ==> rest[i][0].lsn <= e.lsn))
  }

  lemma {:induction false} PopSuffixes(bufs: seq<Queue>, rest: seq<Queue>, rest': seq<Queue>, key: Key)
    requires Suffixes(bufs, rest) && |rest'| == |rest| && forall i :: 0 <= i < |rest| ==> rest'[i] == PopEqual(rest[i], key)
    ensures Suffixes(bufs, rest')
  {
    forall i | 0 <= i < |bufs|
      ensures |rest'[i]| <= |bufs[i]| && rest'[i] == bufs[i][|bufs[i]| - |rest'[i]|..]
    {
      assert rest[i] == bufs[i][|bufs[i]| - |rest[i]|..];
    }
  }

  lemma {:induction false} CoveredMore(out: seq<SsTableEntry>, more: seq<SsTableEntry>, e: SsTableEntry)
    ensures Covered(out, e) ==> Covered(out + more, e)
    ensures Covered(more, e) ==> Covered(out + more, e)
  {
    if Covered(out, e) {
      var k: nat :| k < |out| && out[k].key == e.key && out[k].lsn >= e.lsn;
      assert (out + more)[k] == out[k];
    }
    if Covered(more, e) {
      var k: nat :| k < |more| && more[k].key == e.key && more[k].lsn >= e.lsn;
      assert (out + more)[|out| + k] == more[k];
    }
  }

  lemma {:induction false} CoveredByLast(out: seq<SsTableEntry>, e: SsTableEntry, x: SsTableEntry)
    requires x.key == e.key && x.lsn <= e.lsn
    ensures Covered(out + [e], x)
  {
    assert (out + [e])[|out|] == e;
  }

  lemma {:induction false} PoppedMore(bufs: seq<Queue>, rest: seq<Queue>, rest': seq<Queue>, e: SsTableEntry)
    requires |rest| == |bufs| == |rest'| && forall i :: 0 <= i < |rest| ==> |rest'[i]| <= |rest[i]|
    requires Popped(bufs, rest, e)
    ensures Popped(bufs, rest', e)
  {
    var i: nat, q: nat :| i < |bufs| && q < |bufs[i]| - |rest[i]| && bufs[i][q] == e;
    assert q < |bufs[i]| - |rest'[i]|;
  }

  lemma {:induction false} NowPopped(bufs: seq<Queue>, rest: seq<Queue>, rest': seq<Queue>, e: SsTableEntry)
    requires Suffixes(bufs, rest) && |rest'| == |rest| && IsNext(rest, e)
    requires forall i :: 0 <= i < |rest| ==> rest'[i] == PopEqual(rest[i], e.key)
    ensures Popped(bufs, rest', e)
  {
    var m: nat :| m < |rest| && rest[m] != [] && rest[m][0] == e;
    assert bufs[m][|bufs[m]| - |rest[m]|] == e;
    assert |rest'[m]| < |rest[m]|;
  }

  lemma {:induction false} StepCovers(bufs: seq<Queue>, rest: seq<Queue>, rest': seq<Queue>, out: Queue,
                                      e: SsTableEntry, i: nat, q: nat)
    requires Suffixes(bufs, rest) && Collected(bufs, rest, out) && |rest'| == |rest| && IsNext(rest, e)
    requires forall i :: 0 <= i < |rest| ==> rest'[i] == PopEqual(rest[i], e.key)
    requires i < |bufs| && q < |bufs[i]| - |rest'[i]|
    ensures Covered(out + [e], bufs[i][q])
  {
    if q < |bufs[i]| - |rest[i]| {
      CoveredMore(out, [e], bufs[i][q]);
    } else {
      assert rest[i][0] == bufs[i][q];
      CoveredByLast(out, e, bufs[i][q]);
    }
  }

  lemma {:induction false} StepAbove(bufs: seq<Queue>, rest: seq<Queue>, e: SsTableEntry, i: nat)
    requires Suffixes(bufs, rest) && IsNext(rest, e) && i < |bufs| && StrictlyIncreasing(bufs[i])
    requires PopEqual(rest[i], e.key) != []
    ensures Less(e.key, Front(PopEqual(rest[i], e.key)))
  {
    hide Less;
    if Front(rest[i]) == e.key {
      var c := |bufs[i]| - |rest[i]|;
      assert rest[i][0] == bufs[i][c] && rest[i][1] == bufs[i][c + 1];
    }
  }

  /** Putting out the next entry and popping its key everywhere keeps the state of the group. */
  lemma {:induction false} GroupStep(bufs: seq<Queue>, rest: seq<Queue>, rest': seq<Queue>, out: Queue, h: Key,
                                     bound: Option<Key>,
                                     e: SsTableEntry)
    requires forall i :: 0 <= i < |bufs| ==> StrictlyIncreasing(bufs[i])
    requires GroupState(bufs, rest, out, h, bound) && IsNext(rest, e) && Inside(e.key, h, bound)
    requires |rest'| == |rest| && forall i :: 0 <= i < |rest| ==> rest'[i] == PopEqual(rest[i], e.key)
    ensures GroupState(bufs, rest', out + [e], h, bound)
  {
    hide Less, AtMost, Covered, Popped, PopEqual, Inside;
    var out' := out + [e];
    PopSuffixes(bufs, rest, rest', e.key);
    ExtendIncreasing(rest, out, e);
    PopNotLonger(rest, rest', e.key);
    forall k | 0 <= k < |out'| ensures Popped(bufs, rest', out'[k]) {
      if k < |out| {
        PoppedMore(bufs, rest, rest', out[k]);
      } else {
        NowPopped(bufs, rest, rest', e);
      }
    }
    forall i, q | 0 <= i < |bufs| && 0 <= q < |bufs[i]| - |rest'[i]| ensures Covered(out', bufs[i][q]) {
      StepCovers(bufs, rest, rest', out, e, i, q);
    }
    forall i | 0 <= i < |rest'| && rest'[i] != [] ensures Less(Back(out'), Front(rest'[i])) {
      StepAbove(bufs, rest, e, i);
    }
  }

  lemma {:induction false} PopNotLonger(rest: seq<Queue>, rest': seq<Queue>, key: Key)
    requires |rest'| == |rest| && forall i :: 0 <= i < |rest| ==> rest'[i] == PopEqual(rest[i], key)
    ensures forall i :: 0 <= i < |rest| ==> |rest'[i]| <= |rest[i]|
  {
  }

  lemma {:induction false} ExtendIncreasing(rest: seq<Queue>, out: Queue, e: SsTableEntry)
    requires StrictlyIncreasing(out) && IsNext(rest, e)
    requires forall i :: 0 <= i < |rest| && rest[i] != [] && out != [] ==> Less(Back(out), Front(rest[i]))
    ensures StrictlyIncreasing(out + [e])
  {
    hide Less, AtMost;
    var m: nat :| m < |rest| && rest[m] != [] && rest[m][0] == e;
    if out != [] {
      assert Less(Back(out), e.key);
      OneIncreasing(e);
      JoinIncreasing(out, [e]);
    } else {
      assert out + [e] == [e];
      OneIncreasing(e);
    }
  }

  lemma {:induction false} OneIncreasing(e: SsTableEntry)
    ensures StrictlyIncreasing([e])
  {
  }

  /** How a group leaves one of its queues. */
  ghost predicate GroupEnd(q: Queue, c: nat, h: Key, bound: Option<Key>) {
    && c <= |q|
    && (forall p :: 0 <= p < c ==> Inside(q[p].key, h, bound))
    && (c < |q| ==> !Inside(q[c].key, h, bound))
  }

  /** Queue `i` holds an entry within the horizon but not below the next group. */
  ghost predicate Blocks(bufs: seq<Queue>, i: nat, q: nat, h: Key, bound: Option<Key>) {
    i < |bufs| && q < |bufs[i]| && AtMost(bufs[i][q].key, h) && bound.Some? && AtMost(bound.value, bufs[i][q].key)
  }

  lemma {:induction false} GroupSpins(bufs: seq<Queue>, rest: seq<Queue>, h: Key, bound: Option<Key>, e: SsTableEntry)
    requires Suffixes(bufs, rest) && IsNext(rest, e) && AtMost(e.key, h) && !Inside(e.key, h, bound)
    ensures exists i, q :: Blocks(bufs, i, q, h, bound)
  {
    hide Less, AtMost;
    var m: nat :| m < |rest| && rest[m] != [] && rest[m][0] == e;
    AtMostIsNotAbove(bound.value, e.key);
    assert Blocks(bufs, m, |bufs[m]| - |rest[m]|, h, bound);
  }

  lemma {:induction false} GroupEnds(bufs: seq<Queue>, rest: seq<Queue>, out: Queue, h: Key, bound: Option<Key>, i: nat)
    requires GroupState(bufs, rest, out, h, bound) && i < |bufs|
    requires forall i :: 0 <= i < |rest| && rest[i] != [] ==> Less(h, Front(rest[i]))
    ensures GroupEnd(bufs[i], |bufs[i]| - |rest[i]|, h, bound)
  {
    hide Less, AtMost;
    var c := |bufs[i]| - |rest[i]|;
    forall p | 0 <= p < c ensures Inside(bufs[i][p].key, h, bound) {
      assert Covered(out, bufs[i][p]);
    }
    if rest[i] != [] {
      AtMostIsNotAbove(bufs[i][c].key, h);
    }
  }

  lemma {:induction false} NothingBlocks(bufs: seq<Queue>, rest: seq<Queue>, h: Key, bound: Option<Key>)
    requires Suffixes(bufs, rest) && forall i :: 0 <= i < |bufs| ==> StrictlyIncreasing(bufs[i])
    requires forall i :: 0 <= i < |bufs| ==> GroupEnd(bufs[i], |bufs[i]| - |rest[i]|, h, bound)
    requires forall i :: 0 <= i < |rest| && rest[i] != [] ==> Less(h, Front(rest[i]))
    ensures !exists i, q :: Blocks(bufs, i, q, h, bound)
  {
    hide Less, AtMost;
    forall i: nat, q: nat ensures !Blocks(bufs, i, q, h, bound) {
      if i < |bufs| && q < |bufs[i]| && bound.Some? {
        var k, c := bufs[i][q].key, |bufs[i]| - |rest[i]|;
        AtMostIsNotAbove(bound.value, k);
        AtMostIsNotAbove(k, h);
        if c <= q {
          SuffixIncreasing(bufs[i], c);
          FirstIsLowest(bufs[i][c..], q - c);
          LessThenAtMost(h, Front(bufs[i][c..]), k);
        }
      }
    }
  }

  lemma {:induction false} SuffixIncreasing(q: Queue, c: nat)
    requires StrictlyIncreasing(q) && c <= |q|
    ensures StrictlyIncreasing(q[c..])
  {
  }

  /** Pops the common first key of the queues, keeping its newest version. */
  method TakeFirst(bufs: seq<Queue>, ghost k: Key) returns (currEntry: SsTableEntry, rest: seq<Queue>)
    requires bufs != [] && forall i :: 0 <= i < |bufs| ==> bufs[i] != [] && Front(bufs[i]) == k
    ensures currEntry.key == k && IsNext(bufs, currEntry)
    ensures |rest| == |bufs| && forall i :: 0 <= i < |bufs| ==> rest[i] == PopEqual(bufs[i], k)
  {
    hide Less;
    currEntry := bufs[0][0];
    rest := bufs;
    for i := 0 to |bufs|
      invariant exists m :: 0 <= m < |bufs| && bufs[m][0] == currEntry
      invariant forall j :: 0 <= j < i ==> bufs[j][0].lsn <= currEntry.lsn
      invariant |rest| == |bufs| && forall j :: 0 <= j < i ==> rest[j] == PopEqual(bufs[j], k)
      invariant forall j :: i <= j < |bufs| ==> rest[j] == bufs[j]
    {
      var entry := rest[i][0];
      rest := rest[i := rest[i][1..]];
      if entry.lsn > currEntry.lsn {
        currEntry := entry;
      }
    }
  }

  /**
   * The merge of several queues that begin with the same key. Where the original goes round its loop without an entry
   * to put out and with nothing changed, it never leaves it; that is the outcome `spins`.
   */
  method MergeGroup(bufs: seq<Queue>, h: Key, bound: Option<Key>, ghost k: Key) returns (out: Queue, rest: seq<Queue>,
                    spins: bool)
    requires bufs != [] && forall i :: 0 <= i < |bufs| ==> bufs[i] != [] && StrictlyIncreasing(bufs[i]) && Front(bufs[i]) == k
    requires Inside(k, h, bound)
    ensures spins <==> exists i, q :: Blocks(bufs, i, q, h, bound)
    ensures Suffixes(bufs, rest)
    ensures !spins ==> Collected(bufs, rest, out) && forall i :: 0 <= i < |bufs| ==> GroupEnd(bufs[i], |bufs[i]| - |rest[i]|, h, bound)
  {
    hide Less, AtMost, Inside, Suffixes, Collected, GroupEnd, Blocks, GroupState, StrictlyIncreasing, PopEqual;
    spins := false;
    var currEntry: SsTableEntry;
    currEntry, rest := TakeFirst(bufs, k);
    GroupStart(bufs, h, bound);
    GroupStep(bufs, bufs, rest, [], h, bound, currEntry);
    out := [] + [currEntry];
    while true
      invariant |rest| == |bufs| && !spins
      invariant GroupState(bufs, rest, out, h, bound)
      decreases TotalLength(rest)
    {
      StateParts(bufs, rest, out, h, bound);
      var next := PotentialNext(rest, h);
      if next.None? {
        break;
      }
      var entry := next.value;
      var insert := if bound.Some? then Less(entry.key, bound.value) else AtMost(entry.key, h);
      InsideIf(entry.key, h, bound);
      if !insert {
        GroupSpins(bufs, rest, h, bound, entry);
        spins := true;
        return;
      }
      var popped := PopAllEqual(rest, entry.key);
      GroupStep(bufs, rest, popped, out, h, bound, entry);
      PopShortens(rest, popped, entry.key);
      rest := popped;
      out := out + [entry];
    }
    forall i | 0 <= i < |bufs| ensures GroupEnd(bufs[i], |bufs[i]| - |rest[i]|, h, bound) {
      GroupEnds(bufs, rest, out, h, bound, i);
    }
    NothingBlocks(bufs, rest, h, bound);
  }

  lemma {:induction false} InsideIf(k: Key, h: Key, bound: Option<Key>)
    requires AtMost(k, h)
    ensures Inside(k, h, bound) <==> if bound.Some? then Less(k, bound.value) else AtMost(k, h)
  {
  }

  lemma {:induction false} StateParts(bufs: seq<Queue>, rest: seq<Queue>, out: Queue, h: Key, bound: Option<Key>)
    requires GroupState(bufs, rest, out, h, bound)
    ensures Suffixes(bufs, rest) && Collected(bufs, rest, out)
  {
  }

  lemma {:induction false} GroupStart(bufs: seq<Queue>, h: Key, bound: Option<Key>)
    ensures GroupState(bufs, bufs, [], h, bound)
  {
  }

  // ---------- the loop over the groups ----------

  /** Queue `i` plays no part in keeping the call from returning. */
  ghost predicate Unblocked(bufs: seq<Queue>, i: nat) {
    forall j: nat, l: nat, q: nat :: !StuckAt(bufs, i, j, l, q)
  }

  /** Between two groups: live queues are untouched, all others are at their final cut. */
  ghost predicate Outer(bufs: seq<Queue>, rest: seq<Queue>, out: Queue, live: set<nat>, h: Key) {
    && IsHorizon(bufs, h) && Ready(bufs)
    && Suffixes(bufs, rest) && Collected(bufs, rest, out)
    && (forall i :: i in live ==> i < |bufs| && rest[i] == bufs[i] && AtMost(First(bufs, i), h))
    && (forall i: nat :: i < |bufs| && i !in live ==> IsCut(bufs, i, |bufs[i]| - |rest[i]|) && Unblocked(bufs, i))
    && (forall i: nat, j :: i < |bufs| && i !in live && j in live ==> Less(h, First(bufs, i)) || Less(First(bufs, i), First(bufs, j)))
    && (out != [] ==> forall j :: j in live ==> Less(Back(out), First(bufs, j)))
  }

  lemma {:induction false} OuterStart(bufs: seq<Queue>, h: Key)
    requires Ready(bufs) && IsHorizon(bufs, h)
    ensures Outer(bufs, bufs, [], Live(bufs, h), h)
  {
    hide Less, AtMost, Back, StuckAt, Within, StrictlyIncreasing;
    forall i: nat | i < |bufs| && i !in Live(bufs, h)
      ensures Less(h, First(bufs, i)) && IsCut(bufs, i, 0) && Unblocked(bufs, i)
    {
      AtMostIsNotAbove(First(bufs, i), h);
      BeyondIsCut(bufs, h, i);
    }
    NothingCollected(bufs);
  }

  lemma {:induction false} NothingCollected(bufs: seq<Queue>)
    ensures Suffixes(bufs, bufs) && Collected(bufs, bufs, [])
  {
  }

  lemma {:induction false} BeyondIsCut(bufs: seq<Queue>, h: Key, i: nat)
    requires Ready(bufs) && IsHorizon(bufs, h) && i < |bufs| && Less(h, First(bufs, i))
    ensures IsCut(bufs, i, 0) && Unblocked(bufs, i)
  {
    hide Less, AtMost, Back, InHorizon, BelowNext, IsHorizon, StrictlyIncreasing;
    HorizonIs(bufs, h, bufs[i][0].key);
    AtMostIsNotAbove(First(bufs, i), h);
    assert IsCut(bufs, i, 0);
    forall j: nat, l: nat, q: nat ensures !StuckAt(bufs, i, j, l, q) {
      if StuckAt(bufs, i, j, l, q) {
        LessThenAtMost(First(bufs, i), First(bufs, l), bufs[i][q].key);
        LessTransitive(h, First(bufs, i), bufs[i][q].key);
        HorizonIs(bufs, h, bufs[i][q].key);
        AtMostIsNotAbove(bufs[i][q].key, h);
      }
    }
  }

  function BoundOf(bufs: seq<Queue>, next: seq<nat>): Option<Key> {
    if next == [] then None else Some(KeyOf(bufs, next))
  }

  /** The whole state at the start of a round. */
  ghost predicate Round(bufs: seq<Queue>, rest: seq<Queue>, out: Queue, live: set<nat>, h: Key, curr: seq<nat>,
                        next: seq<nat>) {
    && Outer(bufs, rest, out, live, h) && Lowest(bufs, live, curr)
    && (curr != [] ==> Following(bufs, live, KeyOf(bufs, curr), next, h))
    && (curr == [] ==> next == [])
  }

  lemma {:induction false} CurrMember(bufs: seq<Queue>, rest: seq<Queue>, out: Queue, live: set<nat>, h: Key,
                                      curr: seq<nat>, next: seq<nat>, i: nat)
    requires Round(bufs, rest, out, live, h, curr, next) && i in curr
    ensures i in live && i < |bufs| && First(bufs, i) == KeyOf(bufs, curr) && rest[i] == bufs[i] && AtMost(KeyOf(bufs, curr), h)
  {
    hide Less, AtMost, First, IsCut, Unblocked, Collected, Following;
  }

  lemma {:induction false} NextMember(bufs: seq<Queue>, rest: seq<Queue>, out: Queue, live: set<nat>, h: Key,
                                      curr: seq<nat>, next: seq<nat>)
    requires Round(bufs, rest, out, live, h, curr, next) && next != []
    ensures next[0] in live && next[0] < |bufs|
    ensures Less(KeyOf(bufs, curr), KeyOf(bufs, next)) && AtMost(KeyOf(bufs, next), h)
  {
    hide Less, AtMost, First, IsCut, Unblocked, Collected, Lowest;
    assert next[0] in next;
  }

  /** A first key above the current group's is at or above the bound, or beyond the horizon. */
  lemma {:induction false} AboveGroup(bufs: seq<Queue>, rest: seq<Queue>, out: Queue, live: set<nat>, h: Key,
                                      curr: seq<nat>, next: seq<nat>, l: nat)
    requires Round(bufs, rest, out, live, h, curr, next) && curr != [] && l < |bufs|
    requires Less(KeyOf(bufs, curr), First(bufs, l))
    ensures Less(h, First(bufs, l)) || (next != [] && AtMost(KeyOf(bufs, next), First(bufs, l)))
  {
    hide Less, AtMost, First, IsCut, Unblocked, Collected, Lowest, SomeOf, AllOf;
    if l !in live {
      CurrMember(bufs, rest, out, live, h, curr, next, curr[0]);
      if Less(First(bufs, l), KeyOf(bufs, curr)) {
        LessTransitive(First(bufs, l), KeyOf(bufs, curr), First(bufs, l));
        LessIrreflexive(First(bufs, l));
      }
    }
  }

  /** What the loop tests is what a call may pop. */
  lemma {:induction false} InsideIsWithin(bufs: seq<Queue>, rest: seq<Queue>, out: Queue, live: set<nat>, h: Key,
                                          curr: seq<nat>, next: seq<nat>,
                                          i: nat, k: Key)
    requires Round(bufs, rest, out, live, h, curr, next) && i in curr && i < |bufs|
    ensures Within(bufs, i, k) <==> Inside(k, h, BoundOf(bufs, next))
  {
    hide Less, AtMost, InHorizon, Round, KeyOf;
    CurrMember(bufs, rest, out, live, h, curr, next, i);
    RoundHorizon(bufs, rest, out, live, h, curr, next);
    HorizonIs(bufs, h, k);
    if next != [] {
      NextMember(bufs, rest, out, live, h, curr, next);
      KeyIsFirst(bufs, next);
    }
    if Inside(k, h, BoundOf(bufs, next)) {
      forall l | 0 <= l < |bufs| && Less(Front(bufs[i]), Front(bufs[l])) ensures Less(k, Front(bufs[l])) {
        AboveGroup(bufs, rest, out, live, h, curr, next, l);
        if Less(h, First(bufs, l)) {
          LessIsAtMost(h, First(bufs, l));
          AtMostTransitive(k, h, First(bufs, l));
        } else {
          LessThenAtMost(k, KeyOf(bufs, next), First(bufs, l));
        }
      }
    }
  }

  lemma {:induction false} KeyIsFirst(bufs: seq<Queue>, listed: seq<nat>)
    requires listed != [] && listed[0] < |bufs|
    ensures KeyOf(bufs, listed) == Front(bufs[listed[0]])
  {
  }

  lemma {:induction false} RoundHorizon(bufs: seq<Queue>, rest: seq<Queue>, out: Queue, live: set<nat>, h: Key,
                                        curr: seq<nat>, next: seq<nat>)
    requires Round(bufs, rest, out, live, h, curr, next)
    ensures IsHorizon(bufs, h) && Ready(bufs) && Suffixes(bufs, rest) && Collected(bufs, rest, out)
  {
  }

  lemma {:induction false} EndIsCut(bufs: seq<Queue>, rest: seq<Queue>, out: Queue, live: set<nat>, h: Key,
                                    curr: seq<nat>, next: seq<nat>,
                                    i: nat, c: nat)
    requires Round(bufs, rest, out, live, h, curr, next) && i in curr && i < |bufs|
    requires GroupEnd(bufs[i], c, h, BoundOf(bufs, next))
    ensures IsCut(bufs, i, c)
  {
    hide Less, AtMost, Round, Within, Inside, BoundOf;
    forall q | 0 <= q < c ensures Within(bufs, i, bufs[i][q].key) {
      InsideIsWithin(bufs, rest, out, live, h, curr, next, i, bufs[i][q].key);
    }
    if c < |bufs[i]| {
      InsideIsWithin(bufs, rest, out, live, h, curr, next, i, bufs[i][c].key);
    }
  }

  // ---------- gathering and scattering a group ----------

  function Gather(bufs: seq<Queue>, taken: seq<nat>): (g: seq<Queue>)
    requires forall m :: 0 <= m < |taken| ==> taken[m] < |bufs|
    ensures |g| == |taken| && forall m :: 0 <= m < |taken| ==> g[m] == bufs[taken[m]]
  {
    seq(|taken|, m requires 0 <= m < |taken| => bufs[taken[m]])
  }

  /** `rest'` is `rest` with the taken queues replaced. */
  ghost predicate Scattered(rest: seq<Queue>, taken: seq<nat>, group: seq<Queue>, rest': seq<Queue>) {
    && |rest'| == |rest| && |group| == |taken|
    && (forall m :: 0 <= m < |taken| ==> taken[m] < |rest'| && rest'[taken[m]] == group[m])
    && (forall i: nat :: i < |rest| && i !in taken ==> rest'[i] == rest[i])
  }

  method Scatter(rest: seq<Queue>, taken: seq<nat>, group: seq<Queue>) returns (rest': seq<Queue>)
    requires |group| == |taken| && Distinct(taken) && forall x :: x in taken ==> x < |rest|
    ensures Scattered(rest, taken, group, rest')
  {
    rest' := rest;
    for m := 0 to |taken|
      invariant |rest'| == |rest|
      invariant forall n :: 0 <= n < m ==> taken[n] < |rest'| && rest'[taken[n]] == group[n]
      invariant forall i: nat :: i < |rest| && i !in taken ==> rest'[i] == rest[i]
    {
      assert taken[m] in taken;
      rest' := rest'[taken[m] := group[m]];
    }
  }

  ghost function Elements(s: seq<nat>): set<nat> {
    set x | x in s
  }

  lemma {:induction false} ElementsSnoc(s: seq<nat>, x: nat)
    ensures Elements(s + [x]) == Elements(s) + {x}
  {
  }

  /** Removes the queues of the current key from the map. */
  method TakeAll(live: set<nat>, curr: seq<nat>) returns (live': set<nat>, taken: seq<nat>)
    requires Distinct(curr)
    ensures (forall x :: x in curr ==> x in live) ==> taken == curr && live' == live - Elements(curr)
  {
    live', taken := live, [];
    assert curr[..0] == [];
    for m := 0 to |curr|
      invariant (forall x :: x in curr ==> x in live) ==> taken == curr[..m] && live' == live - Elements(curr[..m])
    {
      ghost var before := curr[..m];
      assert curr[..m + 1] == before + [curr[m]] && curr[m] in curr;
      assert curr[m] !in before;
      ElementsSnoc(before, curr[m]);
      if curr[m] in live' {
        live' := live' - {curr[m]};
        taken := taken + [curr[m]];
      }
    }
    assert curr[..|curr|] == curr;
  }

  // ---------- one round ----------

  /** A queue that stays live starts above the group and at or above the bound. */
  lemma {:induction false} StaysAbove(bufs: seq<Queue>, rest: seq<Queue>, out: Queue, live: set<nat>, h: Key,
                                      curr: seq<nat>, next: seq<nat>, j: nat)
    requires Round(bufs, rest, out, live, h, curr, next) && curr != [] && j in live && j !in curr
    ensures j < |bufs| && rest[j] == bufs[j] && AtMost(First(bufs, j), h)
    ensures Less(KeyOf(bufs, curr), First(bufs, j)) && next != [] && AtMost(KeyOf(bufs, next), First(bufs, j))
  {
    hide Less, First, IsCut, Unblocked, Collected, SomeOf;
  }

  lemma {:induction false} NextLowest(bufs: seq<Queue>, rest: seq<Queue>, out: Queue, live: set<nat>, h: Key,
                                      curr: seq<nat>, next: seq<nat>)
    requires Round(bufs, rest, out, live, h, curr, next) && curr != []
    ensures Lowest(bufs, live - Elements(curr), next)
  {
    hide Less, AtMost, First, IsCut, Unblocked, Collected, Outer;
    var live' := live - Elements(curr);
    forall j | j in live' ensures next != [] && AtMost(KeyOf(bufs, next), First(bufs, j)) {
      StaysAbove(bufs, rest, out, live, h, curr, next, j);
    }
    if next != [] {
      var k := KeyOf(bufs, next);
      NextMember(bufs, rest, out, live, h, curr, next);
      LessIrreflexive(k);
      forall x | x in next ensures x in live' && First(bufs, x) == k {
        assert First(bufs, x) == k;
        assert x in curr ==> First(bufs, x) == KeyOf(bufs, curr);
      }
      assert next[0] in live';
    }
  }

  /** The outcome of merging the queues of `curr`. */
  ghost predicate GroupDone(bufs: seq<Queue>, curr: seq<nat>, grest: seq<Queue>, gout: Queue, h: Key,
                            bound: Option<Key>)
    requires forall m :: 0 <= m < |curr| ==> curr[m] < |bufs|
  {
    var group := Gather(bufs, curr);
    && Suffixes(group, grest) && Collected(group, grest, gout)
    && (forall m :: 0 <= m < |group| ==> GroupEnd(group[m], |group[m]| - |grest[m]|, h, bound))
  }

  lemma {:induction false} CurrInRange(bufs: seq<Queue>, rest: seq<Queue>, out: Queue, live: set<nat>, h: Key,
                                       curr: seq<nat>, next: seq<nat>)
    requires Round(bufs, rest, out, live, h, curr, next)
    ensures forall m :: 0 <= m < |curr| ==> curr[m] < |bufs| && curr[m] in live && First(bufs, curr[m]) == KeyOf(bufs, curr)
                                            && rest[curr[m]] == bufs[curr[m]]
    ensures Distinct(curr) && forall x :: x in curr ==> x in live
    ensures curr != [] ==> Inside(KeyOf(bufs, curr), h, BoundOf(bufs, next))
  {
    hide Less, AtMost, First, IsCut, Unblocked, Collected, Following;
    forall m | 0 <= m < |curr| ensures curr[m] < |bufs| && curr[m] in live && First(bufs, curr[m]) == KeyOf(bufs, curr)
                                       && rest[curr[m]] == bufs[curr[m]] {
      assert curr[m] in curr;
      CurrMember(bufs, rest, out, live, h, curr, next, curr[m]);
    }
    if curr != [] {
      CurrMember(bufs, rest, out, live, h, curr, next, curr[0]);
    }
    if next != [] {
      NextMember(bufs, rest, out, live, h, curr, next);
    }
  }

  lemma {:induction false} GroupAt(bufs: seq<Queue>, curr: seq<nat>, grest: seq<Queue>, gout: Queue, h: Key,
                                   bound: Option<Key>, m: nat)
    requires forall m :: 0 <= m < |curr| ==> curr[m] < |bufs|
    requires GroupDone(bufs, curr, grest, gout, h, bound) && m < |curr|
    ensures |grest| == |curr| && |grest[m]| <= |bufs[curr[m]]|
    ensures grest[m] == bufs[curr[m]][|bufs[curr[m]]| - |grest[m]|..]
    ensures GroupEnd(bufs[curr[m]], |bufs[curr[m]]| - |grest[m]|, h, bound)
  {
    hide GroupEnd, Collected;
    assert Gather(bufs, curr)[m] == bufs[curr[m]];
  }

  /** A queue after the scattering: cut as its group left it, or as before. */
  lemma {:induction false} ScatteredAt(bufs: seq<Queue>, rest: seq<Queue>, curr: seq<nat>, grest: seq<Queue>,
                                       rest': seq<Queue>, i: nat)
    requires |rest| == |bufs| && Scattered(rest, curr, grest, rest') && i < |bufs|
    ensures i in curr ==> exists m: nat :: m < |curr| && curr[m] == i && rest'[i] == grest[m]
    ensures i !in curr ==> rest'[i] == rest[i]
  {
  }

  lemma {:induction false} RoundSuffixes(bufs: seq<Queue>, rest: seq<Queue>, out: Queue, live: set<nat>, h: Key,
                                         curr: seq<nat>, next: seq<nat>,
                                         grest: seq<Queue>, gout: Queue, rest': seq<Queue>)
    requires Round(bufs, rest, out, live, h, curr, next) && forall m :: 0 <= m < |curr| ==> curr[m] < |bufs|
    requires GroupDone(bufs, curr, grest, gout, h, BoundOf(bufs, next)) && Scattered(rest, curr, grest, rest')
    ensures Suffixes(bufs, rest')
    ensures forall i :: 0 <= i < |bufs| ==> |rest'[i]| <= |rest[i]|
  {
    hide Round, GroupDone, Scattered;
    RoundHorizon(bufs, rest, out, live, h, curr, next);
    ScatteredLength(rest, curr, grest, rest');
    forall i: nat | i < |bufs|
      ensures |rest'[i]| <= |rest[i]| && IsSuffix(rest'[i], bufs[i])
    {
      RoundSuffixAt(bufs, rest, out, live, h, curr, next, grest, gout, rest', i);
    }
  }

  ghost predicate IsSuffix(a: Queue, b: Queue) {
    |a| <= |b| && a == b[|b| - |a|..]
  }

  lemma {:induction false} RoundSuffixAt(bufs: seq<Queue>, rest: seq<Queue>, out: Queue, live: set<nat>, h: Key,
                                         curr: seq<nat>, next: seq<nat>,
                                         grest: seq<Queue>, gout: Queue, rest': seq<Queue>, i: nat)
    requires Round(bufs, rest, out, live, h, curr, next) && forall m :: 0 <= m < |curr| ==> curr[m] < |bufs|
    requires GroupDone(bufs, curr, grest, gout, h, BoundOf(bufs, next)) && Scattered(rest, curr, grest, rest')
    requires i < |bufs| == |rest| == |rest'| && IsSuffix(rest[i], bufs[i])
    ensures |rest'[i]| <= |rest[i]| && IsSuffix(rest'[i], bufs[i])
  {
    hide Round, GroupDone, Scattered;
    ScatteredLength(rest, curr, grest, rest');
    ScatteredAt(bufs, rest, curr, grest, rest', i);
    if i in curr {
      var m: nat :| m < |curr| && curr[m] == i && rest'[i] == grest[m];
      CurrMember(bufs, rest, out, live, h, curr, next, i);
      GroupAt(bufs, curr, grest, gout, h, BoundOf(bufs, next), m);
    }
  }

  lemma {:induction false} ScatteredLength(rest: seq<Queue>, curr: seq<nat>, grest: seq<Queue>, rest': seq<Queue>)
    requires Scattered(rest, curr, grest, rest')
    ensures |rest'| == |rest| && |grest| == |curr|
  {
  }

  lemma {:induction false} RoundCuts(bufs: seq<Queue>, rest: seq<Queue>, out: Queue, live: set<nat>, h: Key,
                                     curr: seq<nat>, next: seq<nat>,
                                     grest: seq<Queue>, gout: Queue, rest': seq<Queue>, i: nat)
    requires Round(bufs, rest, out, live, h, curr, next) && forall m :: 0 <= m < |curr| ==> curr[m] < |bufs|
    requires GroupDone(bufs, curr, grest, gout, h, BoundOf(bufs, next)) && Scattered(rest, curr, grest, rest')
    requires i < |bufs| && (i in curr || i !in live)
    ensures |rest'[i]| <= |bufs[i]| && IsCut(bufs, i, |bufs[i]| - |rest'[i]|)
  {
    hide Less, AtMost, First, IsCut, Unblocked, Collected, Following, Lowest, GroupEnd, GroupDone, Scattered;
    ScatteredLength(rest, curr, grest, rest');
    ScatteredAt(bufs, rest, curr, grest, rest', i);
    if i in curr {
      var m: nat :| m < |curr| && curr[m] == i && rest'[i] == grest[m];
      GroupAt(bufs, curr, grest, gout, h, BoundOf(bufs, next), m);
      EndIsCut(bufs, rest, out, live, h, curr, next, i, |bufs[i]| - |grest[m]|);
    }
  }

  /** The output of a group is not empty and starts at its key. */
  lemma {:induction false} GroupOutput(bufs: seq<Queue>, curr: seq<nat>, grest: seq<Queue>, gout: Queue, h: Key,
                                       bound: Option<Key>, k: Key)
    requires curr != [] && forall m :: 0 <= m < |curr| ==> curr[m] < |bufs| && First(bufs, curr[m]) == k && bufs[curr[m]] != []
                                                           && StrictlyIncreasing(bufs[curr[m]])
    requires GroupDone(bufs, curr, grest, gout, h, bound) && Inside(k, h, bound)
    ensures gout != [] && AtMost(k, gout[0].key) && Inside(Back(gout), h, bound)
  {
    hide Less, AtMost, Inside, StrictlyIncreasing, GroupDone, GroupEnd, Covered, Popped;
    DoneCollected(bufs, curr, grest, gout, h, bound);
    GroupAt(bufs, curr, grest, gout, h, bound, 0);
    var group := Gather(bufs, curr);
    EndIsPast(group[0], |group[0]| - |grest[0]|, h, bound);
    assert Covered(gout, group[0][0]);
    CoveredSome(gout, group[0][0]);
    PoppedFromGroup(bufs, curr, grest, gout, h, bound, k, 0);
    PoppedFromGroup(bufs, curr, grest, gout, h, bound, k, |gout| - 1);
  }

  lemma {:induction false} EndIsPast(q: Queue, c: nat, h: Key, bound: Option<Key>)
    requires GroupEnd(q, c, h, bound) && q != [] && Inside(q[0].key, h, bound)
    ensures c > 0
  {
  }

  lemma {:induction false} CoveredSome(out: Queue, e: SsTableEntry)
    requires Covered(out, e)
    ensures out != []
  {
  }

  lemma {:induction false} PoppedFromGroup(bufs: seq<Queue>, curr: seq<nat>, grest: seq<Queue>, gout: Queue, h: Key,
                                           bound: Option<Key>, k: Key, n: nat)
    requires forall m :: 0 <= m < |curr| ==> curr[m] < |bufs| && First(bufs, curr[m]) == k && bufs[curr[m]] != []
                                             && StrictlyIncreasing(bufs[curr[m]])
    requires GroupDone(bufs, curr, grest, gout, h, bound) && n < |gout|
    ensures AtMost(k, gout[n].key) && Inside(gout[n].key, h, bound)
  {
    hide Less, AtMost, Inside, StrictlyIncreasing, GroupEnd, GroupDone, Covered;
    DoneCollected(bufs, curr, grest, gout, h, bound);
    var group := Gather(bufs, curr);
    assert Popped(group, grest, gout[n]);
    var m: nat, q: nat :| m < |group| && q < |group[m]| - |grest[m]| && group[m][q] == gout[n];
    GroupAt(bufs, curr, grest, gout, h, bound, m);
    EndInside(group[m], |group[m]| - |grest[m]|, h, bound, q);
    FirstIsLowest(group[m], q);
    assert Front(group[m]) == First(bufs, curr[m]);
  }

  lemma {:induction false} EndInside(q: Queue, c: nat, h: Key, bound: Option<Key>, p: nat)
    requires GroupEnd(q, c, h, bound) && p < c
    ensures p < |q| && Inside(q[p].key, h, bound)
  {
  }

  /** What the group popped and put out, seen from all the queues. */
  lemma {:induction false} ScatteredPopped(bufs: seq<Queue>, rest: seq<Queue>, curr: seq<nat>, grest: seq<Queue>,
                                           rest': seq<Queue>, e: SsTableEntry)
    requires |rest| == |bufs| && forall m :: 0 <= m < |curr| ==> curr[m] < |bufs|
    requires Scattered(rest, curr, grest, rest') && Popped(Gather(bufs, curr), grest, e)
    ensures Popped(bufs, rest', e)
  {
    var group := Gather(bufs, curr);
    var m: nat, q: nat :| m < |group| && q < |group[m]| - |grest[m]| && group[m][q] == e;
    assert q < |bufs[curr[m]]| - |rest'[curr[m]]| && bufs[curr[m]][q] == e;
  }

  lemma {:induction false} ScatteredCovered(bufs: seq<Queue>, rest: seq<Queue>, out: Queue, curr: seq<nat>,
                                            grest: seq<Queue>, gout: Queue,
                                            rest': seq<Queue>, i: nat, q: nat)
    requires |rest| == |bufs| && forall m :: 0 <= m < |curr| ==> curr[m] < |bufs|
    requires Scattered(rest, curr, grest, rest') && Collected(bufs, rest, out) && Collected(Gather(bufs, curr), grest, gout)
    requires i < |bufs| && q < |bufs[i]| - |rest'[i]|
    ensures Covered(out + gout, bufs[i][q])
  {
    hide Covered, Popped, StrictlyIncreasing;
    ScatteredAt(bufs, rest, curr, grest, rest', i);
    if i in curr {
      var m: nat :| m < |curr| && curr[m] == i && rest'[i] == grest[m];
      assert Gather(bufs, curr)[m] == bufs[i];
      assert Covered(gout, Gather(bufs, curr)[m][q]);
    }
    CoveredMore(out, gout, bufs[i][q]);
  }

  /** The output of the round continues what was put out before. */
  lemma {:induction false} RoundIncreasing(bufs: seq<Queue>, rest: seq<Queue>, out: Queue, live: set<nat>, h: Key,
                                           curr: seq<nat>, next: seq<nat>,
                                           grest: seq<Queue>, gout: Queue)
    requires Round(bufs, rest, out, live, h, curr, next) && curr != [] && forall m :: 0 <= m < |curr| ==> curr[m] < |bufs|
    requires GroupDone(bufs, curr, grest, gout, h, BoundOf(bufs, next))
    ensures StrictlyIncreasing(out + gout)
    ensures gout != [] && Inside(Back(gout), h, BoundOf(bufs, next))
  {
    hide Less, AtMost, First, Round, Lowest, GroupEnd, Covered, Popped, StrictlyIncreasing, Inside, Front, Back,
         GroupDone, Suffixes;
    CurrInRange(bufs, rest, out, live, h, curr, next);
    RoundHorizon(bufs, rest, out, live, h, curr, next);
    SortedGroup(bufs, curr, KeyOf(bufs, curr));
    GroupOutput(bufs, curr, grest, gout, h, BoundOf(bufs, next), KeyOf(bufs, curr));
    DoneCollected(bufs, curr, grest, gout, h, BoundOf(bufs, next));
    CollectedIncreasing(Gather(bufs, curr), grest, gout);
    CollectedIncreasing(bufs, rest, out);
    if out == [] {
      assert out + gout == gout;
    } else {
      OutputBelow(bufs, rest, out, live, h, curr, next);
      LessThenAtMost(Back(out), KeyOf(bufs, curr), gout[0].key);
      BackIs(out);
      JoinIncreasing(out, gout);
    }
  }

  lemma {:induction false} CollectedIncreasing(bufs: seq<Queue>, rest: seq<Queue>, out: Queue)
    requires |rest| == |bufs| && Collected(bufs, rest, out)
    ensures StrictlyIncreasing(out)
  {
  }

  lemma {:induction false} OutputBelow(bufs: seq<Queue>, rest: seq<Queue>, out: Queue, live: set<nat>, h: Key,
                                       curr: seq<nat>, next: seq<nat>)
    requires Round(bufs, rest, out, live, h, curr, next) && curr != [] && out != []
    ensures Less(Back(out), KeyOf(bufs, curr))
  {
    hide Less, AtMost, First, IsCut, Unblocked, Following, Collected, Back;
    assert curr[0] in curr;
  }

  lemma {:induction false} RoundCollected(bufs: seq<Queue>, rest: seq<Queue>, out: Queue, curr: seq<nat>,
                                          grest: seq<Queue>, gout: Queue,
                                          rest': seq<Queue>)
    requires |rest| == |bufs| && Collected(bufs, rest, out) && forall m :: 0 <= m < |curr| ==> curr[m] < |bufs|
    requires Scattered(rest, curr, grest, rest') && Collected(Gather(bufs, curr), grest, gout)
    requires forall i :: 0 <= i < |bufs| ==> |rest'[i]| <= |rest[i]|
    requires StrictlyIncreasing(out + gout)
    ensures Collected(bufs, rest', out + gout)
  {
    hide Scattered, Covered, Popped, StrictlyIncreasing;
    ScatteredLength(rest, curr, grest, rest');
    var out' := out + gout;
    forall k | 0 <= k < |out'| ensures Popped(bufs, rest', out'[k]) {
      if k < |out| {
        PoppedMore(bufs, rest, rest', out[k]);
      } else {
        assert out'[k] == gout[k - |out|];
        ScatteredPopped(bufs, rest, curr, grest, rest', gout[k - |out|]);
      }
    }
    forall i: nat, q: nat | i < |bufs| && q < |bufs[i]| - |rest'[i]| ensures Covered(out', bufs[i][q]) {
      ScatteredCovered(bufs, rest, out, curr, grest, gout, rest', i, q);
    }
  }

  lemma {:induction false} DoneCollected(bufs: seq<Queue>, curr: seq<nat>, grest: seq<Queue>, gout: Queue, h: Key,
                                         bound: Option<Key>)
    requires forall m :: 0 <= m < |curr| ==> curr[m] < |bufs|
    requires GroupDone(bufs, curr, grest, gout, h, bound)
    ensures |grest| == |curr| && Collected(Gather(bufs, curr), grest, gout)
  {
  }

  lemma {:induction false} BackIs(q: Queue)
    requires q != []
    ensures Back(q) == q[|q| - 1].key
  {
  }

  /** A round keeps the state, and the queues of the next key become the current ones. */
  lemma {:induction false} RoundStep(bufs: seq<Queue>, rest: seq<Queue>, out: Queue, live: set<nat>, h: Key,
                                     curr: seq<nat>, next: seq<nat>,
                                     grest: seq<Queue>, gout: Queue, rest': seq<Queue>)
    requires Round(bufs, rest, out, live, h, curr, next) && curr != [] && forall m :: 0 <= m < |curr| ==> curr[m] < |bufs|
    requires GroupDone(bufs, curr, grest, gout, h, BoundOf(bufs, next)) && Scattered(rest, curr, grest, rest')
    requires forall i :: i in curr ==> Unblocked(bufs, i)
    ensures Outer(bufs, rest', out + gout, live - Elements(curr), h)
    ensures Lowest(bufs, live - Elements(curr), next)
  {
    hide Less, AtMost, First, IsCut, Unblocked, Following, Lowest, GroupEnd, Inside, GroupDone, Scattered, Front, Back,
         Collected,
         IsHorizon, Ready, Suffixes, StrictlyIncreasing;
    ScatteredLength(rest, curr, grest, rest');
    var live', out' := live - Elements(curr), out + gout;
    RoundHorizon(bufs, rest, out, live, h, curr, next);
    RoundSuffixes(bufs, rest, out, live, h, curr, next, grest, gout, rest');
    DoneCollected(bufs, curr, grest, gout, h, BoundOf(bufs, next));
    RoundIncreasing(bufs, rest, out, live, h, curr, next, grest, gout);
    RoundCollected(bufs, rest, out, curr, grest, gout, rest');
    NextLowest(bufs, rest, out, live, h, curr, next);
    forall j | j in live'
      ensures j < |bufs| && rest'[j] == bufs[j] && AtMost(First(bufs, j), h) && Less(KeyOf(bufs, curr), First(bufs, j))
      ensures Less(Back(out'), First(bufs, j))
    {
      StaysAbove(bufs, rest, out, live, h, curr, next, j);
      ScatteredAt(bufs, rest, curr, grest, rest', j);
      InsideBelow(Back(gout), h, KeyOf(bufs, next), First(bufs, j));
      BackJoined(out, gout);
    }
    forall i: nat | i < |bufs| && i !in live'
      ensures IsCut(bufs, i, |bufs[i]| - |rest'[i]|) && Unblocked(bufs, i)
      ensures forall j :: j in live' ==> Less(h, First(bufs, i)) || Less(First(bufs, i), First(bufs, j))
    {
      RoundCuts(bufs, rest, out, live, h, curr, next, grest, gout, rest', i);
      if i in curr {
        CurrMember(bufs, rest, out, live, h, curr, next, i);
      }
    }
  }

  lemma {:induction false} InsideBelow(k: Key, h: Key, b: Key, f: Key)
    requires Inside(k, h, Some(b)) && AtMost(b, f)
    ensures Less(k, f)
  {
    hide Less;
    LessThenAtMost(k, b, f);
  }

  lemma {:induction false} BackJoined(a: Queue, b: Queue)
    requires b != []
    ensures Back(a + b) == Back(b)
  {
  }

  // ---------- when a call never returns ----------

  lemma {:induction false} BlockedIsStuck(bufs: seq<Queue>, rest: seq<Queue>, out: Queue, live: set<nat>, h: Key,
                                          curr: seq<nat>, next: seq<nat>,
                                          m: nat, q: nat)
    requires Round(bufs, rest, out, live, h, curr, next) && forall m :: 0 <= m < |curr| ==> curr[m] < |bufs|
    requires |curr| > 1 && Blocks(Gather(bufs, curr), m, q, h, BoundOf(bufs, next))
    ensures Stuck(bufs)
  {
    hide Less, AtMost, Round, InHorizon, Front, First;
    CurrInRange(bufs, rest, out, live, h, curr, next);
    RoundHorizon(bufs, rest, out, live, h, curr, next);
    NextMember(bufs, rest, out, live, h, curr, next);
    KeyIsFirst(bufs, next);
    var i, j := curr[m], curr[if m == 0 then 1 else 0];
    FirstIsFront(bufs, i);
    FirstIsFront(bufs, j);
    HorizonIs(bufs, h, bufs[i][q].key);
    assert StuckAt(bufs, i, j, next[0], q);
  }

  lemma {:induction false} FirstIsFront(bufs: seq<Queue>, i: nat)
    requires i < |bufs|
    ensures First(bufs, i) == Front(bufs[i])
  {
  }

  /** If a queue of the group is stuck at all, then with another queue of the group, and at an entry that blocks it. */
  lemma {:induction false} StuckIsBlocked(bufs: seq<Queue>, rest: seq<Queue>, out: Queue, live: set<nat>, h: Key,
                                          curr: seq<nat>, next: seq<nat>,
                                          i: nat, j: nat, l: nat, q: nat)
    requires Round(bufs, rest, out, live, h, curr, next) && i in curr && StuckAt(bufs, i, j, l, q)
    ensures j in curr && Blocks(bufs, i, q, h, BoundOf(bufs, next))
  {
    hide Less, AtMost, InHorizon, Front, First, Round;
    CurrMember(bufs, rest, out, live, h, curr, next, i);
    RoundHorizon(bufs, rest, out, live, h, curr, next);
    FirstIsFront(bufs, i);
    FirstIsFront(bufs, j);
    FirstIsFront(bufs, l);
    HorizonIs(bufs, h, bufs[i][q].key);
    AboveGroup(bufs, rest, out, live, h, curr, next, l);
    AtMostIsNotAbove(bufs[i][q].key, h);
    if Less(h, First(bufs, l)) {
      LessThenAtMost(h, First(bufs, l), bufs[i][q].key);
    } else {
      AtMostTransitive(KeyOf(bufs, next), First(bufs, l), bufs[i][q].key);
    }
    SameFirstIsCurrent(bufs, rest, out, live, h, curr, next, i, j);
  }

  lemma {:induction false} SameFirstIsCurrent(bufs: seq<Queue>, rest: seq<Queue>, out: Queue, live: set<nat>, h: Key,
                                              curr: seq<nat>, next: seq<nat>,
                                              i: nat, j: nat)
    requires Round(bufs, rest, out, live, h, curr, next) && i in curr && j < |bufs| && First(bufs, j) == First(bufs, i)
    ensures j in curr
  {
    hide Less, AtMost, First, IsCut, Unblocked, Collected, Following;
    CurrMember(bufs, rest, out, live, h, curr, next, i);
    LessIrreflexive(First(bufs, i));
    AtMostIsNotAbove(First(bufs, i), h);
  }

  lemma {:induction false} GroupUnblocked(bufs: seq<Queue>, rest: seq<Queue>, out: Queue, live: set<nat>, h: Key,
                                          curr: seq<nat>, next: seq<nat>, i: nat)
    requires Round(bufs, rest, out, live, h, curr, next) && i in curr && forall m :: 0 <= m < |curr| ==> curr[m] < |bufs|
    requires |curr| == 1 || !exists m, q :: Blocks(Gather(bufs, curr), m, q, h, BoundOf(bufs, next))
    ensures Unblocked(bufs, i)
  {
    hide Round, Less, AtMost, Front, Blocks;
    var m: nat :| m < |curr| && curr[m] == i;
    forall j: nat, l: nat, q: nat ensures !StuckAt(bufs, i, j, l, q) {
      BlocksInGroup(bufs, curr, m, q, h, BoundOf(bufs, next));
      if StuckAt(bufs, i, j, l, q) {
        StuckIsBlocked(bufs, rest, out, live, h, curr, next, i, j, l, q);
      }
    }
  }

  lemma {:induction false} BlocksInGroup(bufs: seq<Queue>, curr: seq<nat>, m: nat, q: nat, h: Key, bound: Option<Key>)
    requires m < |curr| && forall m :: 0 <= m < |curr| ==> curr[m] < |bufs|
    ensures Blocks(Gather(bufs, curr), m, q, h, bound) <==> Blocks(bufs, curr[m], q, h, bound)
  {
    hide AtMost;
  }

  /** A drained single queue, as the outcome of a group. */
  lemma {:induction false} DrainDone(bufs: seq<Queue>, curr: seq<nat>, out: Queue, r: Queue, h: Key, bound: Option<Key>)
    requires |curr| == 1 && curr[0] < |bufs| && bufs[curr[0]] == out + r && StrictlyIncreasing(bufs[curr[0]])
    requires forall q :: 0 <= q < |out| ==> Inside(out[q].key, h, bound)
    requires r != [] ==> !Inside(r[0].key, h, bound)
    ensures GroupDone(bufs, curr, [r], out, h, bound)
  {
    hide Less, Inside, StrictlyIncreasing, Popped, Covered;
    var q := bufs[curr[0]];
    var group := Gather(bufs, curr);
    assert group == [q];
    assert r == q[|out|..];
    DrainCollected(group, [r], out);
    DrainEnd(q, out, r, h, bound);
  }

  lemma {:induction false} DrainEnd(q: Queue, out: Queue, r: Queue, h: Key, bound: Option<Key>)
    requires q == out + r && (r != [] ==> !Inside(r[0].key, h, bound))
    requires forall p :: 0 <= p < |out| ==> Inside(out[p].key, h, bound)
    ensures GroupEnd(q, |out|, h, bound)
  {
    hide Inside;
    assert r != [] ==> q[|out|] == r[0];
  }

  lemma {:induction false} DrainCollected(group: seq<Queue>, rest: seq<Queue>, out: Queue)
    requires |group| == |rest| == 1 && group[0] == out + rest[0] && StrictlyIncreasing(group[0])
    ensures Collected(group, rest, out)
  {
    hide Less, Popped, Covered;
    var q := group[0];
    assert forall p :: 0 <= p < |out| ==> q[p] == out[p];
    forall k: nat | k < |out| ensures Popped(group, rest, out[k]) && Covered(out, out[k]) {
      DrainedOne(group, rest, out, k);
    }
  }

  lemma {:induction false} DrainedOne(group: seq<Queue>, rest: seq<Queue>, out: Queue, k: nat)
    requires |group| == |rest| == 1 && group[0] == out + rest[0] && k < |out|
    ensures Popped(group, rest, out[k]) && Covered(out, out[k])
  {
    assert group[0][k] == out[k];
  }

  lemma {:induction false} AllDone(bufs: seq<Queue>, rest: seq<Queue>, out: Queue, live: set<nat>, h: Key)
    requires Outer(bufs, rest, out, live, h) && live == {}
    ensures Merged(bufs, rest, out) && !Stuck(bufs)
  {
    hide Less, AtMost, StuckAt, Within, Collected, IsHorizon, Ready;
    forall i: nat, j: nat, l: nat, q: nat ensures !StuckAt(bufs, i, j, l, q) {
      if i < |bufs| {
        assert Unblocked(bufs, i);
      } else {
        OutOfRange(bufs, i, j, l, q);
      }
    }
  }

  lemma {:induction false} OutOfRange(bufs: seq<Queue>, i: nat, j: nat, l: nat, q: nat)
    requires i >= |bufs|
    ensures !StuckAt(bufs, i, j, l, q)
  {
  }

  lemma {:induction false} RoundStart(bufs: seq<Queue>, h: Key, curr: seq<nat>, next: seq<nat>)
    requires Ready(bufs) && IsHorizon(bufs, h) && Lowest(bufs, Live(bufs, h), curr) && curr != []
    requires Following(bufs, Live(bufs, h), KeyOf(bufs, curr), next, h)
    ensures Round(bufs, bufs, [], Live(bufs, h), h, curr, next)
  {
    hide Less, AtMost, Outer, Live, Lowest, Following;
    OuterStart(bufs, h);
  }

  lemma {:induction false} RoundParts(bufs: seq<Queue>, rest: seq<Queue>, out: Queue, live: set<nat>, h: Key,
                                      curr: seq<nat>, next: seq<nat>)
    requires Round(bufs, rest, out, live, h, curr, next)
    ensures Outer(bufs, rest, out, live, h) && Lowest(bufs, live, curr) && (live != {} <==> curr != [])
    ensures forall j :: j in live ==> AtMost(First(bufs, j), h)
  {
    hide AtMost, First, IsCut, Unblocked, Collected, Following;
  }

  lemma {:induction false} NothingToMerge(bufs: seq<Queue>)
    requires bufs == []
    ensures Merged(bufs, bufs, []) && !Stuck(bufs)
  {
    NothingCollected(bufs);
    TwoQueuesReturn(bufs);
  }

  lemma {:induction false} OneToMerge(bufs: seq<Queue>, rest: seq<Queue>, out: Queue)
    requires Ready(bufs) && |bufs| == 1 && rest == [[]] && out == bufs[0]
    ensures Merged(bufs, rest, out) && !Stuck(bufs)
  {
    hide Less, AtMost, Within, StrictlyIncreasing, Stuck, Popped, Covered;
    TwoQueuesReturn(bufs);
    forall q: nat | q < |out| ensures Within(bufs, 0, out[q].key) && Popped(bufs, rest, out[q]) && Covered(out, out[q]) {
      OneIsWithin(bufs, q);
      OnePopped(bufs, rest, out, q);
    }
    assert rest[0] == bufs[0][|bufs[0]|..];
    assert IsCut(bufs, 0, |bufs[0]|);
  }

  lemma {:induction false} OneIsWithin(bufs: seq<Queue>, q: nat)
    requires Ready(bufs) && |bufs| == 1 && q < |bufs[0]|
    ensures Within(bufs, 0, bufs[0][q].key)
  {
    hide Less, AtMost;
    LessIrreflexive(Front(bufs[0]));
    LastIsHighest(bufs[0], q);
  }

  lemma {:induction false} OnePopped(bufs: seq<Queue>, rest: seq<Queue>, out: Queue, q: nat)
    requires |bufs| == |rest| == 1 && rest[0] == [] && out == bufs[0] && q < |out|
    ensures Popped(bufs, rest, out[q]) && Covered(out, out[q])
  {
    assert bufs[0][q] == out[q];
  }

  lemma {:induction false} LastIsHighest(q: Queue, k: nat)
    requires StrictlyIncreasing(q) && k < |q|
    ensures AtMost(q[k].key, Back(q))
  {
    hide Less;
  }

  lemma {:induction false} SortedGroup(bufs: seq<Queue>, curr: seq<nat>, k: Key)
    requires Ready(bufs) && forall m :: 0 <= m < |curr| ==> curr[m] < |bufs| && First(bufs, curr[m]) == k
    ensures forall m :: 0 <= m < |curr| ==> bufs[curr[m]] != [] && StrictlyIncreasing(bufs[curr[m]]) && Front(bufs[curr[m]]) == k
  {
    hide Less, StrictlyIncreasing;
  }

  lemma {:induction false} MakeDone(bufs: seq<Queue>, curr: seq<nat>, grest: seq<Queue>, gout: Queue, h: Key,
                                    bound: Option<Key>)
    requires forall m :: 0 <= m < |curr| ==> curr[m] < |bufs|
    requires var group := Gather(bufs, curr);
             Suffixes(group, grest) && Collected(group, grest, gout)
             && forall m :: 0 <= m < |group| ==> GroupEnd(group[m], |group[m]| - |grest[m]|, h, bound)
    ensures GroupDone(bufs, curr, grest, gout, h, bound)
  {
  }

  lemma {:induction false} NextRound(bufs: seq<Queue>, rest: seq<Queue>, out: Queue, live: set<nat>, h: Key,
                                     curr: seq<nat>, next: seq<nat>)
    requires Outer(bufs, rest, out, live, h) && Lowest(bufs, live, curr)
    requires if curr == [] then next == [] else Following(bufs, live, KeyOf(bufs, curr), next, h)
    ensures Round(bufs, rest, out, live, h, curr, next)
  {
  }

  lemma {:induction false} LowestParts(bufs: seq<Queue>, rest: seq<Queue>, out: Queue, live: set<nat>, h: Key,
                                       curr: seq<nat>)
    requires Outer(bufs, rest, out, live, h) && Lowest(bufs, live, curr)
    ensures |rest| == |bufs| && forall j :: j in live ==> AtMost(First(bufs, j), h)
    ensures curr != [] ==> curr[0] < |bufs| && KeyOf(bufs, curr) == Front(bufs[curr[0]])
  {
    hide Less, AtMost, Front;
    assert curr != [] ==> curr[0] in curr;
  }

  /**
   * Merges the queues up to the smallest last key. The map of the original holds the queues of `live`; a queue popped
   * from it keeps its leftover in `rest`. No queue goes back into the map: a single one is dropped with the list it was
   * taken from, and one of several returns only with its front beyond the horizon.
   */
  method MergeSort(bufs: seq<Queue>) returns (out: Queue, rest: seq<Queue>, spins: bool)
    requires Ready(bufs)
    ensures spins <==> Stuck(bufs)
    ensures !spins ==> Merged(bufs, rest, out)
  {
    hide Less, AtMost, Inside, Round, Outer, Merged, Stuck, Ready, IsHorizon, Suffixes, Collected, GroupDone, Scattered,
         Lowest, Following,
         Blocks, GroupEnd, Unblocked, First, Front, Live, StrictlyIncreasing;
    out, rest, spins := [], bufs, false;
    if bufs == [] {
      NothingToMerge(bufs);
      return;
    }
    if |bufs| == 1 {
      while rest[0] != []
        invariant |rest| == 1 && out + rest[0] == bufs[0]
        decreases |rest[0]|
      {
        out, rest := out + [rest[0][0]], [rest[0][1..]];
      }
      OneToMerge(bufs, rest, out);
      return;
    }
    var smallestFinalKey, live, curr, next := Prepare(bufs);
    ghost var h := smallestFinalKey;
    RoundStart(bufs, h, curr, next);
    while live != {}
      invariant Round(bufs, rest, out, live, h, curr, next)
      decreases live
    {
      RoundParts(bufs, rest, out, live, h, curr, next);
      CurrInRange(bufs, rest, out, live, h, curr, next);
      RoundHorizon(bufs, rest, out, live, h, curr, next);
      ghost var oldLive, oldRest := live, rest;
      var taken: seq<nat>;
      live, taken := TakeAll(live, curr);
      assert curr[0] in Elements(curr);
      if next != [] {
        NextMember(bufs, oldRest, out, oldLive, h, curr, next);
        KeyIsFirst(bufs, next);
      }
      var bound := if next == [] then None else Some(Front(bufs[next[0]]));
      var groupOut: Queue, groupRest: seq<Queue>;
      SortedGroup(bufs, curr, KeyOf(bufs, curr));
      if |taken| == 1 {
        var r: Queue;
        groupOut, r := DrainOne(bufs[taken[0]], smallestFinalKey, bound);
        groupRest := [r];
        DrainDone(bufs, curr, groupOut, r, h, bound);
      } else {
        groupOut, groupRest, spins := MergeGroup(Gather(bufs, taken), smallestFinalKey, bound, KeyOf(bufs, curr));
        if spins {
          ghost var m: nat, q: nat :| Blocks(Gather(bufs, curr), m, q, h, bound);
          BlockedIsStuck(bufs, oldRest, out, oldLive, h, curr, next, m, q);
          return;
        }
        MakeDone(bufs, curr, groupRest, groupOut, h, bound);
      }
      forall i | i in curr ensures Unblocked(bufs, i) {
        GroupUnblocked(bufs, oldRest, out, oldLive, h, curr, next, i);
      }
      DoneCollected(bufs, curr, groupRest, groupOut, h, bound);
      rest := Scatter(rest, taken, groupRest);
      RoundStep(bufs, oldRest, out, oldLive, h, curr, next, groupRest, groupOut, rest);
      out := out + groupOut;
      curr := next;
      LowestParts(bufs, rest, out, live, h, curr);
      next := [];
      if curr != [] {
        next := NextGroup(bufs, live, Front(bufs[curr[0]]), smallestFinalKey);
      }
      NextRound(bufs, rest, out, live, h, curr, next);
    }
    RoundParts(bufs, rest, out, live, h, curr, next);
    AllDone(bufs, rest, out, live, h);
  }
}
